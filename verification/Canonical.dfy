/** Canonical forms for drift detection (canonical.go): each element normalised, then sorted stably by a key. Lists are
    values here, so a caller's own list cannot change. */
module Canonical {
  import opened Json
  import opened Sorting
  import opened Aliases
  import opened AliasRoundTrip
  import opened Wrappers

  // ----- The common shape -----

  function MapSeq<T, U>(s: seq<T>, f: T -> U): seq<U> {
    if s == [] then [] else [f(s[0])] + MapSeq(s[1..], f)
  }

  /** Every element replaced by its normal form, then sorted. */
  function Canonical<T(!new)>(s: seq<T>, normal: T -> T, key: T -> string): seq<T> {
    Sort(MapSeq(s, normal), key)
  }

  lemma {:induction false} MapAt<T, U>(s: seq<T>, f: T -> U)
    ensures |MapSeq(s, f)| == |s|
    ensures forall i | 0 <= i < |s| :: MapSeq(s, f)[i] == f(s[i])
  {
    if s == [] {
    } else {
      MapAt(s[1..], f);
    }
  }

  lemma {:induction false} MapFixed<T>(s: seq<T>, f: T -> T)
    requires forall x | x in s :: f(x) == x
    ensures MapSeq(s, f) == s
  {
    if s == [] {
    } else {
      MapFixed(s[1..], f);
      assert s == [s[0]] + s[1..];
    }
  }

  /** The canonical form of a canonical form is itself. */
  lemma CanonicalIdempotent<T(!new)>(s: seq<T>, normal: T -> T, key: T -> string)
    requires forall x :: normal(normal(x)) == normal(x)
    ensures Canonical(Canonical(s, normal, key), normal, key) == Canonical(s, normal, key)
  {
    var mapped := MapSeq(s, normal);
    var once := Canonical(s, normal, key);
    MapAt(s, normal);
    SortElements(mapped, key);
    forall x | x in once ensures normal(x) == x {
      assert x in mapped;
    }
    MapFixed(once, normal);
    SortSorted(mapped, key);
    SortIdempotent(once, key);
  }

  lemma {:induction false} MapConcat<T, U>(a: seq<T>, b: seq<T>, f: T -> U)
    ensures MapSeq(a + b, f) == MapSeq(a, f) + MapSeq(b, f)
  {
    if a == [] {
      assert a + b == b;
    } else {
      assert (a + b)[0] == a[0] && (a + b)[1..] == a[1..] + b;
      MapConcat(a[1..], b, f);
    }
  }

  lemma MapOne<T, U>(x: T, f: T -> U)
    ensures MapSeq([x], f) == [f(x)]
  {
    assert [x][1..] == [];
  }

  lemma MapMiddle<T, U>(before: seq<T>, x: T, after: seq<T>, f: T -> U)
    ensures MapSeq(before + [x] + after, f) == MapSeq(before, f) + [f(x)] + MapSeq(after, f)
  {
    MapConcat(before + [x], after, f);
    MapConcat(before, [x], f);
    MapOne(x, f);
  }

  lemma MiddleOut<T, U>(before: seq<T>, x: T, after: seq<T>, f: T -> U)
    ensures multiset(MapSeq(before + [x] + after, f)) == multiset{f(x)} + multiset(MapSeq(before + after, f))
  {
    MapMiddle(before, x, after, f);
    MapConcat(before, after, f);
    MultisetMiddle(MapSeq(before, f), f(x), MapSeq(after, f));
  }

  lemma MapRemove<T, U>(s: seq<T>, f: T -> U, i: nat)
    requires i < |s|
    ensures multiset(MapSeq(s, f)) == multiset{f(s[i])} + multiset(MapSeq(s[..i] + s[i + 1..], f))
  {
    SplitAround(s, i);
    MiddleOut(s[..i], s[i], s[i + 1..], f);
  }

  lemma SplitAround<T>(s: seq<T>, i: nat)
    requires i < |s|
    ensures s[..i] + [s[i]] + s[i + 1..] == s
  {
  }

  lemma MultisetMiddle<U>(a: seq<U>, x: U, b: seq<U>)
    ensures multiset(a + [x] + b) == multiset{x} + multiset(a + b)
  {
  }

  lemma RestPermuted<T>(a: seq<T>, b: seq<T>, i: nat)
    requires a != [] && i < |b| && b[i] == a[0] && multiset(a) == multiset(b)
    ensures multiset(a[1..]) == multiset(b[..i] + b[i + 1..])
  {
    var rest := b[..i] + b[i + 1..];
    assert b == b[..i] + [b[i]] + b[i + 1..];
    assert a == [a[0]] + a[1..];
    assert multiset(b) == multiset(rest) + multiset{b[i]};
    assert multiset(a) == multiset(a[1..]) + multiset{a[0]};
    assert multiset(a[1..]) == multiset(a) - multiset{a[0]};
    assert multiset(rest) == multiset(b) - multiset{b[i]};
  }

  /** Permuted lists map to permuted lists. */
  lemma {:induction false} MapPermuted<T, U>(a: seq<T>, b: seq<T>, f: T -> U)
    requires multiset(a) == multiset(b)
    ensures multiset(MapSeq(a, f)) == multiset(MapSeq(b, f))
    decreases |a|
  {
    if a == [] {
      assert |multiset(b)| == 0;
    } else {
      assert a[0] in multiset(b);
      var i :| 0 <= i < |b| && b[i] == a[0];
      var rest := b[..i] + b[i + 1..];
      RestPermuted(a, b, i);
      MapPermuted(a[1..], rest, f);
      MapRemove(b, f, i);
    }
  }

  /** The form does not depend on the order of the input, as long as normalised elements with one key are equal. */
  lemma CanonicalOrderIndependent<T(!new)>(a: seq<T>, b: seq<T>, normal: T -> T, key: T -> string)
    requires multiset(a) == multiset(b) && DistinctKeys(MapSeq(a, normal), key)
    ensures Canonical(a, normal, key) == Canonical(b, normal, key)
  {
    MapPermuted(a, b, normal);
    SortOrderIndependent(MapSeq(a, normal), MapSeq(b, normal), key);
  }

  /** Drift: two lists share a canonical form exactly when, key by key, their normalised elements are the same in the
      same order. */
  lemma SameFormExactly<T(!new)>(a: seq<T>, b: seq<T>, normal: T -> T, key: T -> string)
    ensures Canonical(a, normal, key) == Canonical(b, normal, key) <==>
              SameByKey(MapSeq(a, normal), MapSeq(b, normal), key)
  {
    SortAgreesExactly(MapSeq(a, normal), MapSeq(b, normal), key);
  }

  /** With different keys: exactly when they are the same up to order. */
  lemma SameUpToOrder<T(!new)>(a: seq<T>, b: seq<T>, normal: T -> T, key: T -> string)
    requires DistinctKeys(MapSeq(a, normal), key)
    ensures Canonical(a, normal, key) == Canonical(b, normal, key) <==>
              multiset(MapSeq(a, normal)) == multiset(MapSeq(b, normal))
  {
    SortContents(MapSeq(a, normal), key);
    SortContents(MapSeq(b, normal), key);
    if multiset(MapSeq(a, normal)) == multiset(MapSeq(b, normal)) {
      SortOrderIndependent(MapSeq(a, normal), MapSeq(b, normal), key);
    }
  }

  /** Every order of the same elements has one canonical form. */
  ghost predicate OrderIsIrrelevant<T(!new)>(a: seq<T>, normal: T -> T, key: T -> string) {
    forall b | multiset(b) == multiset(a) :: Canonical(b, normal, key) == Canonical(a, normal, key)
  }

  /** That is so exactly when no two different normalised elements share a key. */
  lemma OrderIrrelevantExactly<T(!new)>(a: seq<T>, normal: T -> T, key: T -> string)
    ensures OrderIsIrrelevant(a, normal, key) <==> DistinctKeys(MapSeq(a, normal), key)
  {
    if DistinctKeys(MapSeq(a, normal), key) {
      forall b | multiset(b) == multiset(a) ensures Canonical(b, normal, key) == Canonical(a, normal, key) {
        CanonicalOrderIndependent(a, b, normal, key);
      }
    } else {
      var mapped := MapSeq(a, normal);
      MapAt(a, normal);
      var x, y :| x in mapped && y in mapped && key(x) == key(y) && x != y;
      var i :| 0 <= i < |a| && mapped[i] == x;
      var j :| 0 <= j < |a| && mapped[j] == y;
      if i < j {
        CollisionShows(a, i, j, normal, key);
      } else {
        CollisionShows(a, j, i, normal, key);
      }
    }
  }

  /** The two elements put in front, in either order: two lists with the same elements and different forms. */
  lemma CollisionShows<T(!new)>(a: seq<T>, i: nat, j: nat, normal: T -> T, key: T -> string)
    requires i < j < |a| && normal(a[i]) != normal(a[j]) && key(normal(a[i])) == key(normal(a[j]))
    ensures !OrderIsIrrelevant(a, normal, key)
  {
    var rest := a[..i] + a[i + 1..j] + a[j + 1..];
    var (b, c) := ([a[i], a[j]] + rest, [a[j], a[i]] + rest);
    TwoInFront(a, i, j);
    FrontDecides(a[i], a[j], rest, normal, key);
    assert Canonical(b, normal, key) != Canonical(c, normal, key);
    assert multiset(b) == multiset(a) && multiset(c) == multiset(a);
  }

  lemma TwoInFront<T>(a: seq<T>, i: nat, j: nat)
    requires i < j < |a|
    ensures var rest := a[..i] + a[i + 1..j] + a[j + 1..];
            multiset([a[i], a[j]] + rest) == multiset(a) && multiset([a[j], a[i]] + rest) == multiset(a)
  {
    var (p, q, r) := (a[..i], a[i + 1..j], a[j + 1..]);
    assert a == p + [a[i]] + q + [a[j]] + r;
    assert multiset([a[i], a[j]]) == multiset([a[j], a[i]]) == multiset{a[i], a[j]};
  }

  lemma FrontDecides<T(!new)>(x: T, y: T, rest: seq<T>, normal: T -> T, key: T -> string)
    requires normal(x) != normal(y) && key(normal(x)) == key(normal(y))
    ensures Canonical([x, y] + rest, normal, key) != Canonical([y, x] + rest, normal, key)
  {
    var (u, v, w, k) := (normal(x), normal(y), MapSeq(rest, normal), key(normal(x)));
    PairMapped(x, y, normal);
    PairMapped(y, x, normal);
    MapConcat([x, y], rest, normal);
    MapConcat([y, x], rest, normal);
    SameFormExactly([x, y] + rest, [y, x] + rest, normal, key);
    assert WithKey([u, v] + w, key, k)[0] == u;
    assert WithKey([v, u] + w, key, k)[0] == v;
  }

  /** For two elements: their order is lost if and only if their keys differ or they normalise alike. */
  lemma OrderOfTwo<T(!new)>(x: T, y: T, normal: T -> T, key: T -> string)
    ensures Canonical([x, y], normal, key) == Canonical([y, x], normal, key) <==>
              key(normal(x)) != key(normal(y)) || normal(x) == normal(y)
  {
    PairMapped(x, y, normal);
    PairMapped(y, x, normal);
    if key(normal(x)) == key(normal(y)) && normal(x) != normal(y) {
      FrontDecides(x, y, [], normal, key);
      assert [x, y] + [] == [x, y] && [y, x] + [] == [y, x];
    } else {
      assert multiset([x, y]) == multiset([y, x]);
      CanonicalOrderIndependent([x, y], [y, x], normal, key);
    }
  }

  lemma PairMapped<T>(x: T, y: T, normal: T -> T)
    ensures MapSeq([x, y], normal) == [normal(x), normal(y)]
  {
    MapOne(x, normal);
    MapOne(y, normal);
    MapConcat([x], [y], normal);
    assert [x] + [y] == [x, y];
  }

  // ----- Locations, circuits and tags; `rest` is the fields each form leaves alone -----

  datatype Location = Location(id: string, deviceGlobs: Strings, rest: string)

  datatype WanCircuit = WanCircuit(name: string, source: string, rest: string)

  datatype DeviceTag = DeviceTag(name: string, devices: Strings, color: string)

  function LocationID(l: Location): string { l.id }

  function CircuitName(c: WanCircuit): string { c.name }

  function TagName(t: DeviceTag): string { t.name }

  function NormalLocation(l: Location): Location {
    l.(deviceGlobs := SortedCopy(l.deviceGlobs))
  }

  function NormalCircuit(c: WanCircuit): WanCircuit {
    c.(source := "")
  }

  /** `strings.ToLower`, for ASCII letters and the two other letters whose lower case is ASCII. */
  function ToLower(s: string): string
    decreases |s|
  {
    if s == "" then ""
    else if |s| >= 2 && s[0] as int == 0xC4 && s[1] as int == 0xB0 then
      "i" + ToLower(s[2..])   // dotted I
    else if |s| >= 3 && s[0] as int == 0xE2 && s[1] as int == 0x84 && s[2] as int == 0xAA then
      "k" + ToLower(s[3..])   // kelvin
    else if 'A' <= s[0] <= 'Z' then [s[0] - 'A' + 'a'] + ToLower(s[1..])
    else [s[0]] + ToLower(s[1..])
  }

  /** A lower-cased text that starts with a byte above ASCII starts with the byte the text itself did. */
  lemma LowerKeepsHighByte(s: string)
    requires ToLower(s) != "" && ToLower(s)[0] as int >= 128
    ensures s != "" && s[0] == ToLower(s)[0] && ToLower(s)[1..] == ToLower(s[1..])
  {
  }

  lemma {:induction false} ToLowerIdempotent(s: string)
    ensures ToLower(ToLower(s)) == ToLower(s)
    decreases |s|
  {
    if s == "" {
    } else if |s| >= 2 && s[0] as int == 0xC4 && s[1] as int == 0xB0 {
      ToLowerIdempotent(s[2..]);
      assert ("i" + ToLower(s[2..]))[1..] == ToLower(s[2..]);
    } else if |s| >= 3 && s[0] as int == 0xE2 && s[1] as int == 0x84 && s[2] as int == 0xAA {
      ToLowerIdempotent(s[3..]);
      assert ("k" + ToLower(s[3..]))[1..] == ToLower(s[3..]);
    } else {
      var rest := ToLower(s[1..]);
      ToLowerIdempotent(s[1..]);
      assert ToLower(s)[1..] == rest;
      if rest != "" && rest[0] as int >= 128 {
        LowerKeepsHighByte(s[1..]);
        if |rest| > 1 && rest[1] as int >= 128 {
          LowerKeepsHighByte(s[1..][1..]);
        }
      }
    }
  }

  function NormalTag(t: DeviceTag): DeviceTag {
    t.(devices := SortedCopy(t.devices), color := ToLower(t.color))
  }

  method CanonicalLocations(locations: seq<Location>) returns (out: seq<Location>)
    ensures out == Canonical(locations, NormalLocation, LocationID)
  {
    out := [];
    MapAt(locations, NormalLocation);
    var mapped := MapSeq(locations, NormalLocation);
    for i := 0 to |locations|
      invariant out == mapped[..i]
    {
      var location := locations[i];
      location := location.(deviceGlobs := SortedCopy(location.deviceGlobs));
      out := out + [location];
    }
    assert out == mapped;
    out := Sort(out, LocationID);
  }

  method CanonicalWanCircuits(circuits: seq<WanCircuit>) returns (out: seq<WanCircuit>)
    ensures out == Canonical(circuits, NormalCircuit, CircuitName)
  {
    out := [];
    MapAt(circuits, NormalCircuit);
    var mapped := MapSeq(circuits, NormalCircuit);
    for i := 0 to |circuits|
      invariant out == mapped[..i]
    {
      var circuit := circuits[i];
      circuit := circuit.(source := "");
      out := out + [circuit];
    }
    assert out == mapped;
    out := Sort(out, CircuitName);
  }

  method CanonicalDeviceTags(tags: seq<DeviceTag>) returns (out: seq<DeviceTag>)
    ensures out == Canonical(tags, NormalTag, TagName)
  {
    out := [];
    MapAt(tags, NormalTag);
    var mapped := MapSeq(tags, NormalTag);
    for i := 0 to |tags|
      invariant out == mapped[..i]
    {
      var tag := tags[i];
      tag := tag.(devices := SortedCopy(tag.devices));
      tag := tag.(color := ToLower(tag.color));
      out := out + [tag];
    }
    assert out == mapped;
    out := Sort(out, TagName);
  }

  /** Applied to their own result, the three forms change nothing. */
  lemma FormsAreIdempotent(locations: seq<Location>, circuits: seq<WanCircuit>, tags: seq<DeviceTag>)
    ensures var once := Canonical(locations, NormalLocation, LocationID);
            Canonical(once, NormalLocation, LocationID) == once
    ensures var once := Canonical(circuits, NormalCircuit, CircuitName);
            Canonical(once, NormalCircuit, CircuitName) == once
    ensures var once := Canonical(tags, NormalTag, TagName); Canonical(once, NormalTag, TagName) == once
  {
    forall l ensures NormalLocation(NormalLocation(l)) == NormalLocation(l) {
      SortedCopyIdempotent(l.deviceGlobs);
    }
    forall t ensures NormalTag(NormalTag(t)) == NormalTag(t) {
      SortedCopyIdempotent(t.devices);
      ToLowerIdempotent(t.color);
    }
    CanonicalIdempotent(locations, NormalLocation, LocationID);
    CanonicalIdempotent(circuits, NormalCircuit, CircuitName);
    CanonicalIdempotent(tags, NormalTag, TagName);
  }

  /** Locations come out in order of their IDs, circuits and tags in order of their names, and each list keeps its
      length. */
  lemma FormsInOrder(locations: seq<Location>, circuits: seq<WanCircuit>, tags: seq<DeviceTag>)
    ensures var out := Canonical(locations, NormalLocation, LocationID);
            |out| == |locations| && forall i, j | 0 <= i < j < |out| :: AtMost(out[i].id, out[j].id)
    ensures var out := Canonical(circuits, NormalCircuit, CircuitName);
            |out| == |circuits| && forall i, j | 0 <= i < j < |out| :: AtMost(out[i].name, out[j].name)
    ensures var out := Canonical(tags, NormalTag, TagName);
            |out| == |tags| && forall i, j | 0 <= i < j < |out| :: AtMost(out[i].name, out[j].name)
  {
    InOrder(locations, NormalLocation, LocationID, (l: Location) => l.id);
    InOrder(circuits, NormalCircuit, CircuitName, (c: WanCircuit) => c.name);
    InOrder(tags, NormalTag, TagName, (t: DeviceTag) => t.name);
  }

  lemma InOrder<T(!new)>(s: seq<T>, normal: T -> T, key: T -> string, field: T -> string)
    requires forall x :: key(x) == field(x)
    ensures var out := Canonical(s, normal, key);
            |out| == |s| && forall i, j | 0 <= i < j < |out| :: AtMost(field(out[i]), field(out[j]))
  {
    var out := Canonical(s, normal, key);
    MapAt(s, normal);
    SortContents(MapSeq(s, normal), key);
    SortSorted(MapSeq(s, normal), key);
    forall i, j | 0 <= i < j < |out| ensures AtMost(field(out[i]), field(out[j])) {
      assert AtMost(key(out[i]), key(out[j]));
    }
  }

  /** The strings of a slice, nil having none. */
  function ItemsOf(s: Strings): seq<string> {
    if s.None? then [] else s.value
  }

  /** Sorted copies agree exactly for permutations; nil and empty are one. */
  lemma SameCopyExactly(s: Strings, t: Strings)
    ensures SortedCopy(s) == SortedCopy(t) <==> multiset(ItemsOf(s)) == multiset(ItemsOf(t))
  {
    var (a, b, key) := (ItemsOf(s), ItemsOf(t), (x: string) => x);
    SortContents(a, key);
    SortContents(b, key);
    EmptyCopy(s);
    EmptyCopy(t);
    if multiset(a) == multiset(b) {
      SortOrderIndependent(a, b, key);
      assert |multiset(a)| == |multiset(b)|;
    }
  }

  lemma EmptyCopy(s: Strings)
    ensures ItemsOf(SortedCopy(s)) == Sort(ItemsOf(s), (x: string) => x) && (Empty(s) <==> ItemsOf(s) == [])
  {
  }

  /** Which differences a canonical form ignores, and no others: the order of a location's globs, a circuit's source,
      the order of a tag's devices and the case of its colour. */
  lemma IgnoredExactly(l: Location, l': Location, c: WanCircuit, c': WanCircuit, t: DeviceTag, t': DeviceTag)
    ensures NormalLocation(l) == NormalLocation(l') <==>
              l.id == l'.id && l.rest == l'.rest &&
                multiset(ItemsOf(l.deviceGlobs)) == multiset(ItemsOf(l'.deviceGlobs))
    ensures NormalCircuit(c) == NormalCircuit(c') <==> c.name == c'.name && c.rest == c'.rest
    ensures NormalTag(t) == NormalTag(t') <==>
              t.name == t'.name && multiset(ItemsOf(t.devices)) == multiset(ItemsOf(t'.devices)) &&
                ToLower(t.color) == ToLower(t'.color)
  {
    SameCopyExactly(l.deviceGlobs, l'.deviceGlobs);
    SameCopyExactly(t.devices, t'.devices);
  }

  /** What each form is made of: the globs and the devices sorted, none being nil, a circuit without its source, a
      colour in lower case, and everything else as it was. */
  lemma NormalExactly(l: Location, c: WanCircuit, t: DeviceTag)
    ensures NormalCircuit(c) == WanCircuit(c.name, "", c.rest)
    ensures var n := NormalLocation(l); n == Location(l.id, n.deviceGlobs, l.rest) && Tidy(l.deviceGlobs, n.deviceGlobs)
    ensures var n := NormalTag(t); n == DeviceTag(t.name, n.devices, ToLower(t.color)) && Tidy(t.devices, n.devices)
  {
    CopyIsTidy(l.deviceGlobs);
    CopyIsTidy(t.devices);
  }

  /** Nil for nothing, and else the same strings in order. */
  predicate Tidy(s: Strings, copy: Strings) {
    if s.None? || |s.value| == 0 then copy.None?
    else
      && copy.Some? && multiset(copy.value) == multiset(s.value)
      && forall i, j | 0 <= i < j < |copy.value| :: AtMost(copy.value[i], copy.value[j])
  }

  lemma CopyIsTidy(s: Strings)
    ensures Tidy(s, SortedCopy(s))
  {
    if !Empty(s) {
      var key := (x: string) => x;
      SortSorted(s.value, key);
      SortContents(s.value, key);
      forall i, j | 0 <= i < j < |s.value| ensures AtMost(Sort(s.value, key)[i], Sort(s.value, key)[j]) {
        assert AtMost(key(Sort(s.value, key)[i]), key(Sort(s.value, key)[j]));
      }
    }
  }

  /** Two circuits of one name keep the order they came in. */
  lemma SameNameKeepsOrder()
    ensures var (c, d) := (WanCircuit("wan", "", "east"), WanCircuit("wan", "", "west"));
            Canonical([c, d], NormalCircuit, CircuitName) != Canonical([d, c], NormalCircuit, CircuitName)
  {
    var (c, d) := (WanCircuit("wan", "", "east"), WanCircuit("wan", "", "west"));
    assert "east"[0] != "west"[0];
    OrderOfTwo(c, d, NormalCircuit, CircuitName);
  }

  // ----- Aliases: converted one by one, the first failure ends it -----

  datatype CanonicalAliasesResult = Builders(builders: seq<Builder>) | FailsAt(index: nat, error: Error)

  function BuilderName(b: Builder): string { b.name }

  predicate Converts(a: Alias, ignore: set<string>) {
    Convert(a, ignore).Builds?
  }

  /** The builder an alias converts to; a blank one stands for a failure. */
  function BuilderOf(ignore: set<string>): Alias -> Builder {
    a => if Converts(a, ignore) then Convert(a, ignore).builder else Blank("", "")
  }

  function CanonicalBuilders(aliases: seq<Alias>, ignore: set<string>): seq<Builder> {
    Sort(MapSeq(aliases, BuilderOf(ignore)), BuilderName)
  }

  function ConvertWith(ignore: set<string>): Alias -> Converted<Builder> {
    a => Convert(a, ignore)
  }

  method ConvertOne(aliases: seq<Alias>, n: nat, ignoreKeys: seq<string>) returns (r: Converted<Builder>)
    requires n < |aliases|
    ensures var results := MapSeq(aliases, ConvertWith(set key | key in ignoreKeys)); n < |results| && r == results[n]
  {
    MapAt(aliases, ConvertWith(set key | key in ignoreKeys));
    r := ToBuilder(aliases[n], ignoreKeys);
  }

  /** The loop: every alias converted in turn, up to the first failure. */
  method ConvertEach(aliases: seq<Alias>, ignoreKeys: seq<string>)
      returns (out: seq<Builder>, failed: Option<(nat, Error)>)
    ensures var results := MapSeq(aliases, ConvertWith(set key | key in ignoreKeys));
            match failed
            case Some((n, error)) =>
              n < |results| && results[n] == Fails(error) && forall i | 0 <= i < n :: results[i].Builds?
            case None => |out| == |results| && forall i | 0 <= i < |results| :: results[i] == Builds(out[i])
  {
    ghost var results := MapSeq(aliases, ConvertWith(set key | key in ignoreKeys));
    MapAt(aliases, ConvertWith(set key | key in ignoreKeys));
    out := [];
    for n := 0 to |aliases|
      invariant |out| == n && forall i | 0 <= i < n :: results[i] == Builds(out[i])
    {
      var converted := ConvertOne(aliases, n, ignoreKeys);
      if converted.Fails? {
        return out, Some((n, converted.error));
      }
      out := out + [converted.builder];
    }
    failed := None;
  }

  lemma BuilderOfResult(aliases: seq<Alias>, ignore: set<string>, out: seq<Builder>)
    requires var results := MapSeq(aliases, ConvertWith(ignore));
             |out| == |results| && forall i | 0 <= i < |results| :: results[i] == Builds(out[i])
    ensures out == MapSeq(aliases, BuilderOf(ignore))
    ensures forall a | a in aliases :: Converts(a, ignore)
  {
    var results, mapped := MapSeq(aliases, ConvertWith(ignore)), MapSeq(aliases, BuilderOf(ignore));
    MapAt(aliases, ConvertWith(ignore));
    MapAt(aliases, BuilderOf(ignore));
    forall i | 0 <= i < |aliases| ensures Converts(aliases[i], ignore) && mapped[i] == out[i] {
      assert results[i] == Convert(aliases[i], ignore);
    }
  }

  /** All the builders sorted by name, or the first alias that does not convert; never a partial list. */
  method CanonicalAliases(aliases: seq<Alias>, ignoreKeys: seq<string>) returns (r: CanonicalAliasesResult)
    ensures var ignore := set key | key in ignoreKeys;
            match r
            case FailsAt(n, error) =>
              && n < |aliases| && Convert(aliases[n], ignore) == Fails(error)
              && forall i | 0 <= i < n :: Converts(aliases[i], ignore)
            case Builders(builders) =>
              && (forall a | a in aliases :: Converts(a, ignore))
              && builders == CanonicalBuilders(aliases, ignore)
  {
    ghost var ignore := set key | key in ignoreKeys;
    var out, failed := ConvertEach(aliases, ignoreKeys);
    if failed.Some? {
      MapAt(aliases, ConvertWith(ignore));
      return FailsAt(failed.value.0, failed.value.1);
    }
    BuilderOfResult(aliases, ignore, out);
    return Builders(Sort(out, BuilderName));
  }

  /** Builders come out in order of their names. */
  lemma BuildersInOrder(aliases: seq<Alias>, ignore: set<string>)
    ensures var out := CanonicalBuilders(aliases, ignore);
            |out| == |aliases| && forall i, j | 0 <= i < j < |out| :: AtMost(out[i].name, out[j].name)
  {
    var mapped, out := MapSeq(aliases, BuilderOf(ignore)), CanonicalBuilders(aliases, ignore);
    MapAt(aliases, BuilderOf(ignore));
    SortContents(mapped, BuilderName);
    SortSorted(mapped, BuilderName);
    forall i, j | 0 <= i < j < |out| ensures AtMost(out[i].name, out[j].name) {
      assert AtMost(BuilderName(out[i]), BuilderName(out[j]));
    }
  }

  /** A builder written, and what was written decoded as an alias. */
  function Reread(b: Builder): Alias {
    if Writable(b) && Marshal(b).Ok? && Unmarshal(Marshal(b).value).Ok? then Unmarshal(Marshal(b).value).value
    else Alias("", "", "", "", None)
  }

  lemma BuilderIsNormal(a: Alias, ignore: set<string>)
    requires Converts(a, ignore)
    ensures var b := BuilderOf(ignore)(a); Writable(b) && Normal(b) == b && b.name == a.name
  {
    var fields := DefinitionFields(a.definition.value).value;
    ReadIsNormal(a.name, a.kind, fields);
  }

  lemma RereadOfBuilder(a: Alias, ignore: set<string>)
    requires Converts(a, ignore)
    ensures var b := BuilderOf(ignore)(a); Converts(Reread(b), ignore) && BuilderOf(ignore)(Reread(b)) == b
  {
    BuilderIsNormal(a, ignore);
    OneTrip(BuilderOf(ignore)(a), ignore);
  }

  /** The canonical builders, written one by one and read back, convert to themselves. */
  lemma RereadOfCanonical(aliases: seq<Alias>, ignore: set<string>)
    requires forall a | a in aliases :: Converts(a, ignore)
    ensures var back := MapSeq(CanonicalBuilders(aliases, ignore), Reread);
            && (forall a | a in back :: Converts(a, ignore))
            && MapSeq(back, BuilderOf(ignore)) == CanonicalBuilders(aliases, ignore)
  {
    var builders := CanonicalBuilders(aliases, ignore);
    var mapped := MapSeq(aliases, BuilderOf(ignore));
    MapAt(aliases, BuilderOf(ignore));
    SortElements(mapped, BuilderName);
    var back := MapSeq(builders, Reread);
    MapAt(builders, Reread);
    MapAt(back, BuilderOf(ignore));
    forall i | 0 <= i < |builders|
      ensures Converts(back[i], ignore) && BuilderOf(ignore)(back[i]) == builders[i]
    {
      assert builders[i] in mapped;
      var k :| 0 <= k < |mapped| && mapped[k] == builders[i];
      RereadOfBuilder(aliases[k], ignore);
    }
    assert MapSeq(back, BuilderOf(ignore)) == builders;
  }

  /** Drift detection across networks: aliases with different names are read, converted, written to another network and
      listed there in any order; the two canonical lists are equal. */
  lemma CopiedAliasesAgree(aliases: seq<Alias>, copied: seq<Alias>, ignore: set<string>)
    requires forall a | a in aliases :: Converts(a, ignore)
    requires DistinctKeys(MapSeq(aliases, BuilderOf(ignore)), BuilderName)
    requires multiset(copied) == multiset(MapSeq(CanonicalBuilders(aliases, ignore), Reread))
    ensures forall a | a in copied :: Converts(a, ignore)
    ensures CanonicalBuilders(copied, ignore) == CanonicalBuilders(aliases, ignore)
  {
    var builders := CanonicalBuilders(aliases, ignore);
    var mapped := MapSeq(aliases, BuilderOf(ignore));
    var back := MapSeq(builders, Reread);
    RereadOfCanonical(aliases, ignore);
    SameElements(copied, back);
    MapPermuted(back, copied, BuilderOf(ignore));
    SortElements(mapped, BuilderName);
    SortOrderIndependent(builders, MapSeq(copied, BuilderOf(ignore)), BuilderName);
    SortSorted(mapped, BuilderName);
    SortIdempotent(builders, BuilderName);
  }
}
