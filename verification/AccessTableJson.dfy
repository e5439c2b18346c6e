/** The private JSON copy of a table: `WriteJSON` and `LoadAccessTableJSON` (access.go), on the document rather than its
    text. */
module AccessTableJson {
  import opened AccessTable
  import opened Sorting

  /** `accessTableJSON`. */
  datatype Document = Document(source: string, operations: seq<Operation>, roles: map<string, seq<string>>)

  datatype Error = NoOperationsOrRoles | InvalidOperation | DuplicateOperation | NoLadderRole | UnknownOperation

  datatype Result = Ok(table: Table) | Err(error: Error)

  // ----- Lists that enumerate a set -----

  /** Strictly increasing, so without repetition. */
  predicate Increasing(s: seq<string>) {
    forall i, j | 0 <= i < j < |s| :: Less(s[i], s[j])
  }

  ghost predicate Lists(s: seq<string>, elements: set<string>) {
    Increasing(s) && forall x :: x in s <==> x in elements
  }

  lemma {:induction false} ListsUnique(a: seq<string>, b: seq<string>, elements: set<string>)
    requires Lists(a, elements) && Lists(b, elements)
    ensures a == b
    decreases |a|
  {
    if a == [] {
      assert forall i | 0 <= i < |b| :: b[i] in b;
    } else {
      assert a[0] in b;
      assert b[0] in a;
      LeastIsFirst(a, b[0]);
      LeastIsFirst(b, a[0]);
      LessIsStrict(a[0], b[0]);
      assert a[0] == b[0];
      TailLists(a, elements);
      TailLists(b, elements);
      ListsUnique(a[1..], b[1..], elements - {a[0]});
      assert a == [a[0]] + a[1..] && b == [b[0]] + b[1..];
    }
  }

  lemma LeastIsFirst(s: seq<string>, x: string)
    requires Increasing(s) && x in s
    ensures s[0] == x || Less(s[0], x)
  {
    var i :| 0 <= i < |s| && s[i] == x;
  }

  lemma TailLists(s: seq<string>, elements: set<string>)
    requires Lists(s, elements) && s != []
    ensures Lists(s[1..], elements - {s[0]})
  {
    forall x ensures x in s[1..] <==> x in elements - {s[0]} {
      if x in s[1..] {
        var i :| 0 <= i < |s[1..]| && s[1..][i] == x;
        assert s[i + 1] == x && Less(s[0], s[i + 1]);
        LessIsStrict(s[0], x);
      }
      if x in elements - {s[0]} {
        var i :| 0 <= i < |s| && s[i] == x;
        assert s[1..][i - 1] == x;
      }
    }
  }

  /** A sorted list without repetition is increasing. */
  lemma SortedIsIncreasing(s: seq<string>, key: string -> string)
    requires (forall x :: key(x) == x) && SortedBy(s, key)
    requires forall i, j | 0 <= i < j < |s| :: s[i] != s[j]
    ensures Increasing(s)
  {
    forall i, j | 0 <= i < j < |s| ensures Less(s[i], s[j]) {
      assert AtMost(key(s[i]), key(s[j]));
    }
  }

  // ----- Writing -----

  function Keys(ops: seq<Operation>): seq<string> {
    seq(|ops|, i requires 0 <= i < |ops| => Qualified(ops[i]))
  }

  /** What `WriteJSON` writes: the operations in order of their qualified names, and each role that holds anything with
      its operations in order. A role that holds nothing is not written. */
  ghost predicate IsDocumentOf(d: Document, t: Table) {
    && d.source == t.source
    && Lists(Keys(d.operations), t.ops.Keys)
    && (forall i | 0 <= i < |d.operations| ::
      Qualified(d.operations[i]) in t.ops && d.operations[i] == t.ops[Qualified(d.operations[i])])
    && (forall role :: role in d.roles <==> role in t.roles && t.roles[role] != {})
    && (forall role | role in d.roles :: Lists(d.roles[role], t.roles[role]))
  }

  /** There is only one such document. */
  lemma DocumentUnique(d: Document, e: Document, t: Table)
    requires IsDocumentOf(d, t) && IsDocumentOf(e, t)
    ensures d == e
  {
    ListsUnique(Keys(d.operations), Keys(e.operations), t.ops.Keys);
    assert |d.operations| == |Keys(d.operations)| == |e.operations|;
    forall i | 0 <= i < |d.operations| ensures d.operations[i] == e.operations[i] {
      assert Keys(d.operations)[i] == Keys(e.operations)[i];
    }
    assert d.roles.Keys == e.roles.Keys;
    forall role | role in d.roles ensures d.roles[role] == e.roles[role] {
      ListsUnique(d.roles[role], e.roles[role], t.roles[role]);
    }
  }

  /** Collect a set in whatever order, then sort. */
  method SortedListing(elements: set<string>) returns (s: seq<string>)
    ensures Lists(s, elements)
  {
    var todo := elements;
    s := [];
    while todo != {}
      invariant todo <= elements
      invariant forall x :: x in s <==> x in elements - todo
      invariant forall i, j | 0 <= i < j < |s| :: s[i] != s[j]
      decreases |todo|
    {
      var x :| x in todo;
      assert x !in s;
      s, todo := s + [x], todo - {x};
    }
    var collected := s;
    s := SortStrings(collected);
    SortKeepsListing(collected, elements);
  }

  lemma SortKeepsListing(s: seq<string>, elements: set<string>)
    requires forall x :: x in s <==> x in elements
    requires forall i, j | 0 <= i < j < |s| :: s[i] != s[j]
    ensures Lists(SortStrings(s), elements)
  {
    var key := (x: string) => x;
    var sorted := Sort(s, key);
    SortSorted(s, key);
    SortContents(s, key);
    SameElements(sorted, s);
    MultisetDistinct(s, sorted);
    SortedIsIncreasing(sorted, key);
  }

  method WriteJSON(t: Table) returns (d: Document)
    requires WellFormed(t)
    ensures IsDocumentOf(d, t)
  {
    var names := SortedListing(t.ops.Keys);
    var operations: seq<Operation> := [];
    for i := 0 to |names|
      invariant |operations| == i
      invariant forall k | 0 <= k < i :: names[k] in t.ops && operations[k] == t.ops[names[k]]
    {
      assert names[i] in names;
      operations := operations + [t.ops[names[i]]];
    }
    assert Keys(operations) == names;
    var roles: map<string, seq<string>> := map[];
    var todo := t.roles.Keys;
    while todo != {}
      invariant todo <= t.roles.Keys
      invariant forall role :: role in roles <==> role in t.roles.Keys - todo && t.roles[role] != {}
      invariant forall role | role in roles :: Lists(roles[role], t.roles[role])
      decreases |todo|
    {
      var role :| role in todo;
      if t.roles[role] != {} {
        var listing := SortedListing(t.roles[role]);
        roles := roles[role := listing];
      }
      todo := todo - {role};
    }
    d := Document(t.source, operations, roles);
  }

  // ----- Loading -----

  datatype Loaded = Operations(ops: map<string, Operation>) | Refused(error: Error)

  /** The operations table after the first `n` of the list. */
  function LoadOperations(operations: seq<Operation>, n: nat): Loaded
    requires n <= |operations|
  {
    if n == 0 then Operations(map[])
    else
      match LoadOperations(operations, n - 1)
      case Refused(e) => Refused(e)
      case Operations(ops) =>
        var op := operations[n - 1];
        if !ValidOperation(op) then Refused(InvalidOperation)
        else if Qualified(op) in ops then Refused(DuplicateOperation)
        else Operations(ops[Qualified(op) := op])
  }

  predicate LadderListed(roles: map<string, seq<string>>) {
    forall role | role in LADDER :: role in roles
  }

  predicate AllKnown(roles: map<string, seq<string>>, ops: map<string, Operation>) {
    forall role | role in roles :: forall q | q in roles[role] :: q in ops
  }

  function AsSets(roles: map<string, seq<string>>): map<string, set<string>> {
    map role | role in roles :: set q | q in roles[role]
  }

  function Load(d: Document): Result {
    if d.operations == [] || d.roles == map[] then Err(NoOperationsOrRoles)
    else
      match LoadOperations(d.operations, |d.operations|)
      case Refused(e) => Err(e)
      case Operations(ops) =>
        if !LadderListed(d.roles) then Err(NoLadderRole)
        else if !AllKnown(d.roles, ops) then Err(UnknownOperation)
        else Ok(Table(d.source, ops, AsSets(d.roles)))
  }

  lemma {:induction false} RefusedStays(operations: seq<Operation>, n: nat)
    requires n <= |operations| && LoadOperations(operations, n).Refused?
    ensures LoadOperations(operations, |operations|) == LoadOperations(operations, n)
    decreases |operations| - n
  {
    if n == |operations| {
    } else {
      RefusedStays(operations, n + 1);
    }
  }

  method ReadOperations(operations: seq<Operation>) returns (r: Loaded)
    ensures r == LoadOperations(operations, |operations|)
  {
    var ops: map<string, Operation> := map[];
    for n := 0 to |operations|
      invariant LoadOperations(operations, n) == Operations(ops)
    {
      var op := operations[n];
      if !ValidOperation(op) {
        RefusedStays(operations, n + 1);
        return Refused(InvalidOperation);
      }
      if Qualified(op) in ops {
        RefusedStays(operations, n + 1);
        return Refused(DuplicateOperation);
      }
      ops := ops[Qualified(op) := op];
    }
    return Operations(ops);
  }

  method ReadRole(listed: seq<string>, ops: map<string, Operation>) returns (known: bool, held: set<string>)
    ensures known <==> forall q | q in listed :: q in ops
    ensures known ==> held == set q | q in listed
  {
    held := {};
    for k := 0 to |listed|
      invariant forall i | 0 <= i < k :: listed[i] in ops
      invariant held == set q | q in listed[..k]
    {
      if listed[k] !in ops {
        return false, held;
      }
      assert listed[..k + 1] == listed[..k] + [listed[k]];
      held := held + {listed[k]};
    }
    assert listed[..|listed|] == listed;
    return true, held;
  }

  method LoadJSON(d: Document) returns (r: Result)
    ensures r == Load(d)
  {
    if |d.operations| == 0 || |d.roles| == 0 {
      return Err(NoOperationsOrRoles);
    }
    var read := ReadOperations(d.operations);
    if read.Refused? {
      return Err(read.error);
    }
    for k := 0 to |LADDER|
      invariant forall i | 0 <= i < k :: LADDER[i] in d.roles
    {
      if LADDER[k] !in d.roles {
        assert LADDER[k] in LADDER;
        return Err(NoLadderRole);
      }
    }
    var roles: map<string, set<string>> := map[];
    var todo := d.roles.Keys;
    while todo != {}
      invariant todo <= d.roles.Keys && roles.Keys == d.roles.Keys - todo
      invariant forall role | role in roles :: (forall q | q in d.roles[role] :: q in read.ops)
      invariant forall role | role in roles :: roles[role] == set q | q in d.roles[role]
      decreases |todo|
    {
      var role :| role in todo;
      var known, held := ReadRole(d.roles[role], read.ops);
      if !known {
        return Err(UnknownOperation);
      }
      roles, todo := roles[role := held], todo - {role};
    }
    assert roles == AsSets(d.roles);
    return Ok(Table(d.source, read.ops, roles));
  }

  // ----- Round trip -----

  lemma {:induction false} LoadedOperations(operations: seq<Operation>, n: nat)
    requires n <= |operations| && LoadOperations(operations, n).Operations?
    ensures var ops := LoadOperations(operations, n).ops;
            forall q | q in ops :: q == Qualified(ops[q]) && ValidOperation(ops[q])
  {
    if n == 0 {
    } else {
      LoadedOperations(operations, n - 1);
    }
  }

  /** Whatever loads is well-formed. */
  lemma LoadIsWellFormed(d: Document)
    requires Load(d).Ok?
    ensures WellFormed(Load(d).table)
  {
    LoadedOperations(d.operations, |d.operations|);
  }

  function Indexed(operations: seq<Operation>, n: nat): map<string, Operation>
    requires n <= |operations|
  {
    if n == 0 then map[] else Indexed(operations, n - 1)[Qualified(operations[n - 1]) := operations[n - 1]]
  }

  lemma {:induction false} IndexedKeys(operations: seq<Operation>, n: nat)
    requires n <= |operations|
    ensures forall q | q in Indexed(operations, n) :: q in Keys(operations)[..n]
    ensures forall q | q in Keys(operations)[..n] :: q in Indexed(operations, n)
  {
    if n == 0 {
    } else {
      var keys := Keys(operations);
      IndexedKeys(operations, n - 1);
      assert keys[..n] == keys[..n - 1] + [keys[n - 1]];
    }
  }

  lemma NewKey(keys: seq<string>, n: nat)
    requires n < |keys| && Increasing(keys)
    ensures keys[n] !in keys[..n]
  {
    forall i | 0 <= i < n ensures keys[i] != keys[n] {
      LessIsStrict(keys[i], keys[n]);
    }
  }

  /** Valid operations in strictly increasing order all load. */
  lemma {:induction false} IncreasingLoads(operations: seq<Operation>, n: nat)
    requires n <= |operations| && Increasing(Keys(operations))
    requires forall i | 0 <= i < |operations| :: ValidOperation(operations[i])
    ensures LoadOperations(operations, n) == Operations(Indexed(operations, n))
  {
    if n == 0 {
    } else {
      IncreasingLoads(operations, n - 1);
      IndexedKeys(operations, n - 1);
      NewKey(Keys(operations), n - 1);
      assert Qualified(operations[n - 1]) == Keys(operations)[n - 1];
    }
  }

  predicate IsStored(ops: map<string, Operation>, op: Operation) {
    Qualified(op) in ops && op == ops[Qualified(op)]
  }

  lemma {:induction false} IndexedWithin(operations: seq<Operation>, n: nat, ops: map<string, Operation>)
    requires n <= |operations|
    requires forall i | 0 <= i < |operations| :: IsStored(ops, operations[i])
    ensures forall q | q in Indexed(operations, n) :: q in ops && Indexed(operations, n)[q] == ops[q]
  {
    if n == 0 {
    } else {
      IndexedWithin(operations, n - 1, ops);
      assert IsStored(ops, operations[n - 1]);
    }
  }

  lemma WrittenTableOfOperations(d: Document, t: Table)
    requires WellFormed(t) && IsDocumentOf(d, t)
    ensures LoadOperations(d.operations, |d.operations|) == Operations(t.ops)
  {
    forall i | 0 <= i < |d.operations| ensures ValidOperation(d.operations[i]) {
      assert Qualified(d.operations[i]) in t.ops;
    }
    IncreasingLoads(d.operations, |d.operations|);
    forall i | 0 <= i < |d.operations| ensures IsStored(t.ops, d.operations[i]) {
      assert Qualified(d.operations[i]) in t.ops;
    }
    IndexedWithin(d.operations, |d.operations|, t.ops);
    AllIndexed(d, t);
  }

  lemma AllIndexed(d: Document, t: Table)
    requires IsDocumentOf(d, t)
    ensures forall q | q in t.ops :: q in Indexed(d.operations, |d.operations|)
  {
    IndexedKeys(d.operations, |d.operations|);
    assert Keys(d.operations)[..|d.operations|] == Keys(d.operations);
  }

  /** Roles that hold nothing are not written. */
  function WithoutEmptyRoles(t: Table): Table {
    t.(roles := map role | role in t.roles && t.roles[role] != {} :: t.roles[role])
  }

  predicate LadderHoldsSomething(t: Table) {
    forall role | role in LADDER :: role in t.roles && t.roles[role] != {}
  }

  /** What loading a written table gives, for every well-formed table: the table without its empty roles when each
      ladder role holds something, and otherwise an error. */
  lemma LoadOfWritten(d: Document, t: Table)
    requires WellFormed(t) && IsDocumentOf(d, t)
    ensures if LadderHoldsSomething(t) then Load(d) == Ok(WithoutEmptyRoles(t)) else Load(d).Err?
  {
    WrittenTableOfOperations(d, t);
    LadderOfWritten(d, t);
    if LadderHoldsSomething(t) {
      RolesOfWritten(d, t);
    }
  }

  lemma LadderOfWritten(d: Document, t: Table)
    requires WellFormed(t) && IsDocumentOf(d, t)
    ensures LadderListed(d.roles) <==> LadderHoldsSomething(t)
    ensures LadderHoldsSomething(t) ==> d.operations != [] && d.roles != map[]
  {
    if LadderHoldsSomething(t) {
      assert LADDER[0] in LADDER && LADDER[0] in d.roles;
      var q :| q in t.roles[LADDER[0]];
      assert q in Keys(d.operations);
    }
  }

  lemma RolesOfWritten(d: Document, t: Table)
    requires WellFormed(t) && IsDocumentOf(d, t)
    ensures AllKnown(d.roles, t.ops) && AsSets(d.roles) == WithoutEmptyRoles(t).roles
  {
    forall role, p | role in d.roles && p in d.roles[role] ensures p in t.ops {
      assert p in t.roles[role];
    }
    forall role | role in d.roles ensures AsSets(d.roles)[role] == t.roles[role] {
    }
    assert AsSets(d.roles).Keys == WithoutEmptyRoles(t).roles.Keys;
  }

  /** The round trip restores the table exactly when every role, the ladder's included, holds at least one operation. */
  lemma RoundTripExactly(d: Document, t: Table)
    requires WellFormed(t) && IsDocumentOf(d, t)
    ensures Load(d) == Ok(t) <==> LadderHoldsSomething(t) && forall role | role in t.roles :: t.roles[role] != {}
  {
    LoadOfWritten(d, t);
    if forall role | role in t.roles :: t.roles[role] != {} {
      assert WithoutEmptyRoles(t).roles == t.roles;
    } else {
      var role :| role in t.roles && t.roles[role] == {};
      assert role !in WithoutEmptyRoles(t).roles;
    }
  }
}
