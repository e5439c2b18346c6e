/** The validity of a CA bundle (cloud_cap_credential.go), from its PEM blocks on. Instants are integers; the key of a
    subject (its lower case in the program) is any function. */
module CertificateBundle {

  datatype Certificate = Certificate(subject: string, notBefore: int, notAfter: int)

  /** A PEM block: of another type, a certificate that does not parse, or one that does. */
  datatype Block = Other | Unreadable | Parsed(certificate: Certificate)

  const NO_TIME := 0

  // ----- The certificates that count -----

  function Parses(blocks: seq<Block>): seq<Certificate> {
    if blocks == [] then []
    else
      var init := Parses(blocks[..|blocks| - 1]);
      if blocks[|blocks| - 1].Parsed? then init + [blocks[|blocks| - 1].certificate] else init
  }

  /** A block adds its certificate, in place, when it is one that parses, and nothing otherwise. */
  lemma {:induction false} ParsesExactly(a: seq<Block>, b: seq<Block>, c: Certificate)
    ensures Parses([Parsed(c)]) == [c] && Parses([Other]) == Parses([Unreadable]) == Parses([]) == []
    ensures Parses(a + b) == Parses(a) + Parses(b)
  {
    assert [Parsed(c)][..0] == [Other][..0] == [Unreadable][..0] == [];
    if b == [] {
      assert a + b == a;
    } else {
      var n := |b| - 1;
      assert (a + b)[..|a| + n] == a + b[..n];
      ParsesExactly(a, b[..n], c);
      assert (a + b)[|a| + n] == b[n];
    }
  }

  /** The certificate kept for each key. */
  function Kept(certificates: seq<Certificate>, key: string -> string): map<string, Certificate> {
    if certificates == [] then map[]
    else
      var last := certificates[|certificates| - 1];
      Kept(certificates[..|certificates| - 1], key)[key(last.subject) := last]
  }

  /** Position `i` holds the last certificate of its key. */
  predicate LastOfKey(certificates: seq<Certificate>, key: string -> string, i: int) {
    0 <= i < |certificates| && forall j | i < j < |certificates| ::
      key(certificates[j].subject) != key(certificates[i].subject)
  }

  /** Every key has a certificate kept: the last of them. */
  lemma {:induction false} LastIsKept(certificates: seq<Certificate>, key: string -> string, i: int)
    requires 0 <= i < |certificates|
    ensures key(certificates[i].subject) in Kept(certificates, key)
    ensures LastOfKey(certificates, key, i) ==> Kept(certificates, key)[key(certificates[i].subject)] == certificates[i]
  {
    var n := |certificates| - 1;
    if i == n {
    } else {
      LastIsKept(certificates[..n], key, i);
    }
  }

  lemma {:induction false} KeptIsLast(certificates: seq<Certificate>, key: string -> string, s: string) returns (i: int)
    requires s in Kept(certificates, key)
    ensures LastOfKey(certificates, key, i) && key(certificates[i].subject) == s &&
              Kept(certificates, key)[s] == certificates[i]
  {
    var n := |certificates| - 1;
    if s == key(certificates[n].subject) {
      i := n;
    } else {
      i := KeptIsLast(certificates[..n], key, s);
    }
  }

  // ----- The index -----

  /** The list and the position index describe one map: every key at its own position, no position without its key. */
  predicate Agree(list: seq<Certificate>, index: map<string, nat>, key: string -> string) {
    && (forall s | s in index :: index[s] < |list| && key(list[index[s]].subject) == s)
    && (forall i | 0 <= i < |list| :: key(list[i].subject) in index && index[key(list[i].subject)] == i)
  }

  predicate SameMap(list: seq<Certificate>, index: map<string, nat>, kept: map<string, Certificate>) {
    index.Keys == kept.Keys && forall s | s in kept :: index[s] < |list| && list[index[s]] == kept[s]
  }

  ghost predicate Represents(list: seq<Certificate>, index: map<string, nat>, key: string -> string,
          kept: map<string, Certificate>) {
    Agree(list, index, key) && SameMap(list, index, kept) && |list| == |kept|
  }

  lemma Replaced(list: seq<Certificate>, index: map<string, nat>, key: string -> string,
          kept: map<string, Certificate>, c: Certificate)
    requires Represents(list, index, key, kept) && key(c.subject) in index
    ensures Represents(list[index[key(c.subject)] := c], index, key, kept[key(c.subject) := c])
  {
    var s := key(c.subject);
    assert kept[s := c].Keys == kept.Keys;
    assert |kept[s := c]| == |kept[s := c].Keys| == |kept.Keys|;
  }

  lemma AddedAgree(list: seq<Certificate>, index: map<string, nat>, key: string -> string, c: Certificate)
    requires Agree(list, index, key) && key(c.subject) !in index
    ensures Agree(list + [c], index[key(c.subject) := |list|], key)
  {
  }

  lemma AddedSame(list: seq<Certificate>, index: map<string, nat>, kept: map<string, Certificate>, s: string,
          c: Certificate)
    requires SameMap(list, index, kept) && s !in index
    ensures SameMap(list + [c], index[s := |list|], kept[s := c])
  {
    var (list', index', kept') := (list + [c], index[s := |list|], kept[s := c]);
    assert index'.Keys == index.Keys + {s} == kept.Keys + {s} == kept'.Keys;
    forall t | t in kept' ensures index'[t] < |list'| && list'[index'[t]] == kept'[t] {
      AddedAt(list, index, kept, s, c, t);
    }
  }

  lemma AddedAt(list: seq<Certificate>, index: map<string, nat>, kept: map<string, Certificate>, s: string,
          c: Certificate, t: string)
    requires SameMap(list, index, kept) && s !in index && t in kept[s := c]
    ensures t in index[s := |list|] && index[s := |list|][t] < |list + [c]|
    ensures (list + [c])[index[s := |list|][t]] == kept[s := c][t]
  {
    if t != s {
      assert t in kept && index[t] < |list|;
    }
  }

  lemma AddedCount(kept: map<string, Certificate>, s: string, c: Certificate)
    requires s !in kept
    ensures |kept[s := c]| == |kept| + 1
  {
    assert kept[s := c].Keys == kept.Keys + {s};
    assert |kept[s := c]| == |kept[s := c].Keys|;
  }

  lemma Added(list: seq<Certificate>, index: map<string, nat>, key: string -> string, kept: map<string, Certificate>,
          c: Certificate)
    requires Represents(list, index, key, kept) && key(c.subject) !in index
    ensures Represents(list + [c], index[key(c.subject) := |list|], key, kept[key(c.subject) := c])
  {
    AddedAgree(list, index, key, c);
    AddedSame(list, index, kept, key(c.subject), c);
    AddedCount(kept, key(c.subject), c);
  }

  /** The loop over the blocks. */
  method Collect(blocks: seq<Block>, key: string -> string) returns (list: seq<Certificate>, index: map<string, nat>)
    ensures Represents(list, index, key, Kept(Parses(blocks), key))
  {
    list, index := [], map[];
    ghost var kept: map<string, Certificate> := map[];
    for n := 0 to |blocks|
      invariant kept == Kept(Parses(blocks[..n]), key) && Represents(list, index, key, kept)
    {
      ParsesSnoc(blocks, n, key);
      if !blocks[n].Parsed? {
        continue;
      }
      var c := blocks[n].certificate;
      var s := key(c.subject);
      if s in index {
        Replaced(list, index, key, kept, c);
        list := list[index[s] := c];
      } else {
        Added(list, index, key, kept, c);
        index := index[s := |list|];
        list := list + [c];
      }
      kept := kept[s := c];
    }
    assert blocks[..|blocks|] == blocks;
  }

  lemma ParsesSnoc(blocks: seq<Block>, n: nat, key: string -> string)
    requires n < |blocks|
    ensures Kept(Parses(blocks[..n + 1]), key) ==
              if blocks[n].Parsed? then
                Kept(Parses(blocks[..n]), key)[key(blocks[n].certificate.subject) := blocks[n].certificate]
              else Kept(Parses(blocks[..n]), key)
  {
    var upTo, before := blocks[..n + 1], Parses(blocks[..n]);
    assert upTo[..n] == blocks[..n];
    if blocks[n].Parsed? {
      assert (before + [blocks[n].certificate])[..|before|] == before;
    }
  }

  // ----- The window -----

  /** The latest start and the earliest end. */
  predicate IsWindow(certificates: seq<Certificate>, notBefore: int, notAfter: int) {
    && (exists i :: 0 <= i < |certificates| && certificates[i].notBefore == notBefore)
    && (exists i :: 0 <= i < |certificates| && certificates[i].notAfter == notAfter)
    && forall i | 0 <= i < |certificates| ::
      certificates[i].notBefore <= notBefore && notAfter <= certificates[i].notAfter
  }

  method Window(list: seq<Certificate>) returns (count: nat, notBefore: int, notAfter: int)
    ensures count == |list|
    ensures if list == [] then notBefore == notAfter == NO_TIME else IsWindow(list, notBefore, notAfter)
  {
    count, notBefore, notAfter := 0, NO_TIME, NO_TIME;
    for n := 0 to |list|
      invariant count == n
      invariant if n == 0 then notBefore == notAfter == NO_TIME else IsWindow(list[..n], notBefore, notAfter)
    {
      var c := list[n];
      ghost var b, a := notBefore, notAfter;
      if count == 0 || c.notAfter < notAfter {
        notAfter := c.notAfter;
      }
      if count == 0 || c.notBefore > notBefore {
        notBefore := c.notBefore;
      }
      count := count + 1;
      WindowSnoc(list, n, b, a, notBefore, notAfter);
    }
    assert list[..|list|] == list;
  }

  lemma WindowSnoc(list: seq<Certificate>, n: nat, b: int, a: int, notBefore: int, notAfter: int)
    requires n < |list| && (n > 0 ==> IsWindow(list[..n], b, a))
    requires notAfter == if n == 0 || list[n].notAfter < a then list[n].notAfter else a
    requires notBefore == if n == 0 || list[n].notBefore > b then list[n].notBefore else b
    ensures IsWindow(list[..n + 1], notBefore, notAfter)
  {
    var upTo := list[..n + 1];
    assert upTo[n] == list[n];
    if n > 0 {
      var i :| 0 <= i < n && list[..n][i].notBefore == b;
      var j :| 0 <= j < n && list[..n][j].notAfter == a;
      assert upTo[i].notBefore == b && upTo[j].notAfter == a;
      assert forall k | 0 <= k < n :: upTo[k] == list[..n][k];
    }
  }

  predicate ValidAt(c: Certificate, t: int) {
    c.notBefore <= t <= c.notAfter
  }

  predicate InWindow(notBefore: int, notAfter: int, t: int) {
    notBefore <= t <= notAfter
  }

  /** The last certificate of every key is valid at `t`. */
  ghost predicate LastAllValid(certificates: seq<Certificate>, key: string -> string, t: int) {
    forall i | LastOfKey(certificates, key, i) :: ValidAt(certificates[i], t)
  }

  /** `certificateBundleValidity`: the count is the number of different keys, and an instant lies in the reported window
      exactly when the last certificate of every key is valid at it. */
  method BundleValidity(blocks: seq<Block>, key: string -> string) returns (count: nat, notBefore: int, notAfter: int)
    ensures var certificates := Parses(blocks);
            && count == |set c | c in certificates :: key(c.subject)|
            && (count == 0 <==> certificates == []) && (count == 0 ==> notBefore == notAfter == NO_TIME)
            && (count > 0 ==> forall t :: InWindow(notBefore, notAfter, t) <==> LastAllValid(certificates, key, t))
            && (count > 0 ==>
                  && (exists i :: LastOfKey(certificates, key, i) && certificates[i].notBefore == notBefore)
                  && (exists i :: LastOfKey(certificates, key, i) && certificates[i].notAfter == notAfter))
  {
    var list, index := Collect(blocks, key);
    count, notBefore, notAfter := Window(list);
    ghost var certificates := Parses(blocks);
    KeysCounted(certificates, key);
    if list != [] {
      ListIsLast(list, index, certificates, key);
      WindowExactly(list, certificates, key, notBefore, notAfter);
    }
  }

  lemma KeysCounted(certificates: seq<Certificate>, key: string -> string)
    ensures Kept(certificates, key).Keys == set c | c in certificates :: key(c.subject)
    ensures |Kept(certificates, key)| == |set c | c in certificates :: key(c.subject)|
    ensures |Kept(certificates, key)| == 0 <==> certificates == []
  {
    var keys := set c | c in certificates :: key(c.subject);
    forall s | s in Kept(certificates, key) ensures s in keys {
      var i := KeptIsLast(certificates, key, s);
      assert certificates[i] in certificates;
    }
    forall i | 0 <= i < |certificates| ensures key(certificates[i].subject) in Kept(certificates, key) {
      LastIsKept(certificates, key, i);
    }
    assert Kept(certificates, key).Keys == keys;
    if certificates != [] {
      assert key(certificates[0].subject) in Kept(certificates, key).Keys;
    }
  }

  /** The list holds the last certificates of their keys and nothing else. */
  ghost predicate SameAsLast(list: seq<Certificate>, certificates: seq<Certificate>, key: string -> string) {
    && (forall c | c in list :: exists i :: LastOfKey(certificates, key, i) && certificates[i] == c)
    && (forall i | LastOfKey(certificates, key, i) :: certificates[i] in list)
  }

  lemma ListIsLast(list: seq<Certificate>, index: map<string, nat>, certificates: seq<Certificate>,
          key: string -> string)
    requires Represents(list, index, key, Kept(certificates, key))
    ensures SameAsLast(list, certificates, key)
  {
    var kept := Kept(certificates, key);
    forall c | c in list ensures exists i :: LastOfKey(certificates, key, i) && certificates[i] == c {
      var p :| 0 <= p < |list| && list[p] == c;
      assert key(list[p].subject) in index;
      var i := KeptIsLast(certificates, key, key(c.subject));
    }
    forall i | LastOfKey(certificates, key, i) ensures certificates[i] in list {
      LastIsKept(certificates, key, i);
      assert list[index[key(certificates[i].subject)]] == certificates[i];
    }
  }

  lemma WindowExactly(list: seq<Certificate>, certificates: seq<Certificate>, key: string -> string, notBefore: int,
          notAfter: int)
    requires IsWindow(list, notBefore, notAfter) && SameAsLast(list, certificates, key)
    ensures forall t :: InWindow(notBefore, notAfter, t) <==> LastAllValid(certificates, key, t)
    ensures exists i :: LastOfKey(certificates, key, i) && certificates[i].notBefore == notBefore
    ensures exists i :: LastOfKey(certificates, key, i) && certificates[i].notAfter == notAfter
  {
    var p :| 0 <= p < |list| && list[p].notBefore == notBefore;
    var q :| 0 <= q < |list| && list[q].notAfter == notAfter;
    assert list[p] in list && list[q] in list;
    var i :| LastOfKey(certificates, key, i) && certificates[i] == list[p];
    var j :| LastOfKey(certificates, key, j) && certificates[j] == list[q];
    forall t ensures InWindow(notBefore, notAfter, t) <==> LastAllValid(certificates, key, t) {
      if notBefore <= t <= notAfter {
        forall i | LastOfKey(certificates, key, i) ensures ValidAt(certificates[i], t) {
          assert certificates[i] in list;
          var k :| 0 <= k < |list| && list[k] == certificates[i];
        }
      }
      if LastAllValid(certificates, key, t) {
        assert ValidAt(certificates[i], t) && ValidAt(certificates[j], t);
      }
    }
  }
}
