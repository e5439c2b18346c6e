/** The order of Go strings and stable sorting by a string key (`sort.Strings`, `sort.SliceStable`). */
module Sorting {

  /** Byte-wise order; a proper prefix comes first. */
  predicate Less(a: string, b: string) {
    b != "" && (a == "" || a[0] < b[0] || (a[0] == b[0] && Less(a[1..], b[1..])))
  }

  predicate AtMost(a: string, b: string) {
    a == b || Less(a, b)
  }

  /** The order by places: a proper prefix, or the smaller byte at the first place where the two differ. */
  lemma {:induction false} LessExactly(a: string, b: string)
    ensures Less(a, b) <==> a < b || exists k :: 0 <= k < |a| && k < |b| && a[..k] == b[..k] && a[k] < b[k]
  {
    if a == "" || b == "" {
    } else if a[0] == b[0] {
      LessExactly(a[1..], b[1..]);
      assert a == [a[0]] + a[1..] && b == [b[0]] + b[1..];
      if k :| 0 <= k < |a| - 1 && k < |b| - 1 && a[1..][..k] == b[1..][..k] && a[1..][k] < b[1..][k] {
        assert a[..k + 1] == [a[0]] + a[1..][..k] == b[..k + 1];
        assert a[k + 1] < b[k + 1];
      }
      if k :| 0 <= k < |a| && k < |b| && a[..k] == b[..k] && a[k] < b[k] {
        assert a[1..][..k - 1] == a[..k][1..] == b[1..][..k - 1];
        assert a[1..][k - 1] < b[1..][k - 1];
      }
    } else {
      assert a[..0] == b[..0];
      forall k | 0 <= k < |a| && k < |b| && a[..k] == b[..k] ensures k == 0 {
        if k > 0 {
          SameFirst(a, b, k);
        }
      }
    }
  }

  lemma SameFirst(a: string, b: string, k: nat)
    requires 0 < k <= |a| && k <= |b| && a[..k] == b[..k]
    ensures a[0] == b[0]
  {
    assert a[..k][0] == b[..k][0];
  }

  lemma {:induction false} LessIsStrict(a: string, b: string)
    ensures !(Less(a, b) && Less(b, a)) && !Less(a, a)
  {
    if a == "" {
    } else {
      LessIsStrict(a[1..], if b == "" then "" else b[1..]);
    }
  }

  lemma {:induction false} LessIsTotal(a: string, b: string)
    ensures a == b || Less(a, b) || Less(b, a)
  {
    if a == "" || b == "" {
    } else {
      LessIsTotal(a[1..], b[1..]);
      if a[0] == b[0] && a[1..] == b[1..] {
        assert a == [a[0]] + a[1..] == b;
      }
    }
  }

  lemma {:induction false} LessIsTransitive(a: string, b: string, c: string)
    requires Less(a, b) && Less(b, c)
    ensures Less(a, c)
  {
    if a == "" {
    } else {
      if a[0] == b[0] && b[0] == c[0] {
        LessIsTransitive(a[1..], b[1..], c[1..]);
      }
    }
  }

  lemma AtMostIsTransitive(a: string, b: string, c: string)
    requires AtMost(a, b) && AtMost(b, c)
    ensures AtMost(a, c)
  {
    if a != b && b != c {
      LessIsTransitive(a, b, c);
    }
  }

  lemma AtMostIsAntisymmetric(a: string, b: string)
    requires AtMost(a, b) && AtMost(b, a)
    ensures a == b
  {
    LessIsStrict(a, b);
  }

  // ----- Stable sorting by key -----

  predicate SortedBy<T(!new)>(s: seq<T>, key: T -> string) {
    forall i, j | 0 <= i < j < |s| :: AtMost(key(s[i]), key(s[j]))
  }

  /** `x` placed before the elements of the sorted `s` whose key is not smaller. */
  function Insert<T(!new)>(x: T, s: seq<T>, key: T -> string): seq<T> {
    if s == [] || AtMost(key(x), key(s[0])) then [x] + s else [s[0]] + Insert(x, s[1..], key)
  }

  /** Elements with equal keys keep their order. */
  function Sort<T(!new)>(s: seq<T>, key: T -> string): seq<T> {
    if s == [] then [] else Insert(s[0], Sort(s[1..], key), key)
  }

  lemma {:induction false} InsertContents<T(!new)>(x: T, s: seq<T>, key: T -> string)
    ensures multiset(Insert(x, s, key)) == multiset{x} + multiset(s)
    ensures |Insert(x, s, key)| == |s| + 1
  {
    if s == [] || AtMost(key(x), key(s[0])) {
    } else {
      InsertContents(x, s[1..], key);
      assert s == [s[0]] + s[1..];
    }
  }

  lemma {:induction false} SortContents<T(!new)>(s: seq<T>, key: T -> string)
    ensures multiset(Sort(s, key)) == multiset(s) && |Sort(s, key)| == |s|
  {
    if s == [] {
    } else {
      SortContents(s[1..], key);
      InsertContents(s[0], Sort(s[1..], key), key);
      assert s == [s[0]] + s[1..];
    }
  }

  lemma SameElements<T>(a: seq<T>, b: seq<T>)
    requires multiset(a) == multiset(b)
    ensures forall x | x in a :: x in b
    ensures forall x | x in b :: x in a
  {
    forall x | x in a ensures x in b { assert x in multiset(a); }
    forall x | x in b ensures x in a { assert x in multiset(b); }
  }

  lemma SortElements<T(!new)>(s: seq<T>, key: T -> string)
    ensures forall x | x in Sort(s, key) :: x in s
    ensures forall x | x in s :: x in Sort(s, key)
  {
    SortContents(s, key);
    SameElements(Sort(s, key), s);
  }

  lemma {:induction false} InsertSorted<T(!new)>(x: T, s: seq<T>, key: T -> string)
    requires SortedBy(s, key)
    ensures SortedBy(Insert(x, s, key), key)
  {
    if s == [] {
    } else if AtMost(key(x), key(s[0])) {
      forall j | 0 <= j < |s| ensures AtMost(key(x), key(s[j])) {
        AtMostIsTransitive(key(x), key(s[0]), key(s[j]));
      }
    } else {
      var rest := Insert(x, s[1..], key);
      LessIsTotal(key(x), key(s[0]));
      InsertSorted(x, s[1..], key);
      InsertContents(x, s[1..], key);
      SameElements(rest, [x] + s[1..]);
      forall j | 0 <= j < |rest| ensures AtMost(key(s[0]), key(rest[j])) {
        assert rest[j] in rest;
        if rest[j] != x {
          var k :| 0 <= k < |s[1..]| && s[1..][k] == rest[j];
          assert s[1..][k] == s[k + 1];
        }
      }
    }
  }

  lemma {:induction false} SortSorted<T(!new)>(s: seq<T>, key: T -> string)
    ensures SortedBy(Sort(s, key), key)
  {
    if s == [] {
    } else {
      SortSorted(s[1..], key);
      InsertSorted(s[0], Sort(s[1..], key), key);
    }
  }

  /** A sorted list is left alone, equal keys included. */
  lemma {:induction false} SortIdempotent<T(!new)>(s: seq<T>, key: T -> string)
    requires SortedBy(s, key)
    ensures Sort(s, key) == s
  {
    if s == [] {
    } else {
      SortIdempotent(s[1..], key);
      if |s| > 1 {
        assert AtMost(key(s[0]), key(s[1]));
      }
    }
  }

  /** The elements with one key, in order. */
  function WithKey<T(!new)>(s: seq<T>, key: T -> string, k: string): seq<T> {
    if s == [] then [] else (if key(s[0]) == k then [s[0]] else []) + WithKey(s[1..], key, k)
  }

  lemma WithKeyCons<T(!new)>(x: T, s: seq<T>, key: T -> string, k: string)
    ensures WithKey([x] + s, key, k) == (if key(x) == k then [x] else []) + WithKey(s, key, k)
  {
    assert ([x] + s)[1..] == s;
  }

  lemma {:induction false} InsertStable<T(!new)>(x: T, s: seq<T>, key: T -> string, k: string)
    ensures WithKey(Insert(x, s, key), key, k) == (if key(x) == k then [x] else []) + WithKey(s, key, k)
  {
    if s == [] || AtMost(key(x), key(s[0])) {
      WithKeyCons(x, s, key, k);
    } else {
      var rest, w := Insert(x, s[1..], key), WithKey(s[1..], key, k);
      InsertStable(x, s[1..], key, k);
      WithKeyCons(s[0], rest, key, k);
      if key(x) == k {
        assert key(s[0]) != k && [] + w == w;
      } else {
        assert [] + w == w && [] + WithKey(s, key, k) == WithKey(s, key, k);
      }
    }
  }

  /** Stability: sorting changes the order of no two elements with the same key. */
  lemma {:induction false} SortStable<T(!new)>(s: seq<T>, key: T -> string, k: string)
    ensures WithKey(Sort(s, key), key, k) == WithKey(s, key, k)
  {
    if s == [] {
    } else {
      SortStable(s[1..], key, k);
      InsertStable(s[0], Sort(s[1..], key), key, k);
    }
  }

  /** No two elements share a key. */
  ghost predicate DistinctKeys<T(!new)>(s: seq<T>, key: T -> string) {
    forall x, y | x in s && y in s && key(x) == key(y) :: x == y
  }

  /** When equal keys mean equal elements, a sorted list is determined by its contents. */
  lemma {:induction false} SortedUnique<T(!new)>(a: seq<T>, b: seq<T>, key: T -> string)
    requires SortedBy(a, key) && SortedBy(b, key) && DistinctKeys(a, key)
    requires multiset(a) == multiset(b)
    ensures a == b
  {
    if a == [] {
      assert |multiset(b)| == 0;
    } else {
      SameHead(a, b, key);
      TailContents(a);
      TailContents(b);
      TailKeepsOrder(a, key);
      TailKeepsOrder(b, key);
      SortedUnique(a[1..], b[1..], key);
    }
  }

  lemma SameHead<T(!new)>(a: seq<T>, b: seq<T>, key: T -> string)
    requires SortedBy(a, key) && SortedBy(b, key) && DistinctKeys(a, key)
    requires multiset(a) == multiset(b) && a != []
    ensures b != [] && a[0] == b[0]
  {
    assert |multiset(a)| == |multiset(b)|;
    SameElements(a, b);
    assert a[0] in b && b[0] in a;
    HeadIsLeast(a, b[0], key);
    HeadIsLeast(b, a[0], key);
    AtMostIsAntisymmetric(key(a[0]), key(b[0]));
  }

  lemma TailKeepsOrder<T(!new)>(s: seq<T>, key: T -> string)
    requires SortedBy(s, key) && s != []
    ensures SortedBy(s[1..], key) && (DistinctKeys(s, key) ==> DistinctKeys(s[1..], key))
  {
  }

  lemma TailContents<T>(s: seq<T>)
    requires s != []
    ensures multiset(s[1..]) == multiset(s) - multiset{s[0]} && s == [s[0]] + s[1..]
  {
    assert s == [s[0]] + s[1..];
  }

  lemma HeadIsLeast<T(!new)>(s: seq<T>, x: T, key: T -> string)
    requires SortedBy(s, key) && x in s
    ensures AtMost(key(s[0]), key(x))
  {
    var i :| 0 <= i < |s| && s[i] == x;
  }

  /** Order independence: when equal keys mean equal elements, the result does not depend on the input's order. */
  lemma SortOrderIndependent<T(!new)>(a: seq<T>, b: seq<T>, key: T -> string)
    requires multiset(a) == multiset(b) && DistinctKeys(a, key)
    ensures Sort(a, key) == Sort(b, key)
  {
    SortSorted(a, key);
    SortSorted(b, key);
    SortContents(a, key);
    SortContents(b, key);
    SortElements(a, key);
    SortedUnique(Sort(a, key), Sort(b, key), key);
  }

  /** Under every key the same elements in the same order. */
  ghost predicate SameByKey<T(!new)>(a: seq<T>, b: seq<T>, key: T -> string) {
    forall k :: WithKey(a, key, k) == WithKey(b, key, k)
  }

  lemma {:induction false} WithKeyMember<T(!new)>(s: seq<T>, key: T -> string, k: string)
    ensures WithKey(s, key, k) != [] <==> exists x | x in s :: key(x) == k
  {
    if s == [] {
    } else {
      WithKeyMember(s[1..], key, k);
      assert s[0] in s;
      assert forall x | x in s :: x == s[0] || x in s[1..];
    }
  }

  /** The least key of one list is no larger than that of another that has the same keys. */
  lemma FirstKeyAtMost<T(!new)>(a: seq<T>, b: seq<T>, key: T -> string)
    requires SortedBy(a, key) && SameByKey(a, b, key) && b != []
    ensures a != [] && AtMost(key(a[0]), key(b[0]))
  {
    WithKeyMember(b, key, key(b[0]));
    WithKeyMember(a, key, key(b[0]));
    assert b[0] in b;
    var x :| x in a && key(x) == key(b[0]);
    HeadIsLeast(a, x, key);
  }

  lemma TailsSameByKey<T(!new)>(a: seq<T>, b: seq<T>, key: T -> string)
    requires SameByKey(a, b, key) && a != [] && b != [] && key(a[0]) == key(b[0])
    ensures a[0] == b[0] && SameByKey(a[1..], b[1..], key)
  {
    var k0 := key(a[0]);
    assert WithKey(a, key, k0)[0] == a[0] && WithKey(b, key, k0)[0] == b[0];
    forall k ensures WithKey(a[1..], key, k) == WithKey(b[1..], key, k) {
      TailWithKey(a, key, k);
      TailWithKey(b, key, k);
    }
  }

  lemma TailWithKey<T(!new)>(s: seq<T>, key: T -> string, k: string)
    requires s != []
    ensures key(s[0]) == k ==> WithKey(s, key, k) != []
    ensures WithKey(s[1..], key, k) == if key(s[0]) == k then WithKey(s, key, k)[1..] else WithKey(s, key, k)
  {
    assert ([s[0]] + WithKey(s[1..], key, k))[1..] == WithKey(s[1..], key, k);
    assert [] + WithKey(s[1..], key, k) == WithKey(s[1..], key, k);
  }

  lemma {:induction false} SortedAgree<T(!new)>(a: seq<T>, b: seq<T>, key: T -> string)
    requires SortedBy(a, key) && SortedBy(b, key) && SameByKey(a, b, key)
    ensures a == b
  {
    if a == [] || b == [] {
      if a != [] {
        FirstKeyAtMost(b, a, key);
      }
      if b != [] {
        FirstKeyAtMost(a, b, key);
      }
    } else {
      FirstKeyAtMost(a, b, key);
      FirstKeyAtMost(b, a, key);
      AtMostIsAntisymmetric(key(a[0]), key(b[0]));
      TailsSameByKey(a, b, key);
      SortedAgree(a[1..], b[1..], key);
      assert a == [a[0]] + a[1..] && b == [b[0]] + b[1..];
    }
  }

  /** Two lists sort to the same list exactly when they have, key by key, the same elements in the same order. */
  lemma SortAgreesExactly<T(!new)>(a: seq<T>, b: seq<T>, key: T -> string)
    ensures Sort(a, key) == Sort(b, key) <==> SameByKey(a, b, key)
  {
    forall k
      ensures WithKey(Sort(a, key), key, k) == WithKey(a, key, k)
      ensures WithKey(Sort(b, key), key, k) == WithKey(b, key, k)
    {
      SortStable(a, key, k);
      SortStable(b, key, k);
    }
    if SameByKey(a, b, key) {
      SortSorted(a, key);
      SortSorted(b, key);
      SortedAgree(Sort(a, key), Sort(b, key), key);
    }
  }

  // ----- Strings -----

  function SortStrings(s: seq<string>): seq<string> {
    Sort(s, (x: string) => x)
  }

  // ----- Repetition -----

  lemma {:induction false} OncePerElement<T>(s: seq<T>)
    requires forall i, j | 0 <= i < j < |s| :: s[i] != s[j]
    ensures forall x | x in s :: multiset(s)[x] <= 1
  {
    if s == [] {
    } else {
      var front := s[..|s| - 1];
      OncePerElement(front);
      assert s == front + [s[|s| - 1]];
      assert s[|s| - 1] !in front;
    }
  }

  lemma MultisetDistinct<T>(s: seq<T>, t: seq<T>)
    requires multiset(s) == multiset(t)
    requires forall i, j | 0 <= i < j < |s| :: s[i] != s[j]
    ensures forall i, j | 0 <= i < j < |t| :: t[i] != t[j]
  {
    OncePerElement(s);
    forall i, j | 0 <= i < j < |t| ensures t[i] != t[j] {
      TwiceCounts(t, i, j);
    }
  }

  lemma TwiceCounts<T>(t: seq<T>, i: nat, j: nat)
    requires i < j < |t|
    ensures t[i] == t[j] ==> multiset(t)[t[j]] >= 2
  {
    assert t == t[..j] + t[j..];
    assert t[..j][i] == t[i] && t[j..][0] == t[j];
    assert t[i] in multiset(t[..j]) && t[j] in multiset(t[j..]);
  }
}
