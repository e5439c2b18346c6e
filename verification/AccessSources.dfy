/** What the two loaders take and give, entry by entry, and why they refuse (access.go). */
module AccessSources {
  import opened AccessTable
  import opened AccessTableJson
  import AccessLoading
  import RoleInheritance

  // ----- The JSON copy -----

  predicate Listed(op: Operation) {
    (op.scope == "NetworkOperation" || op.scope == "OrgOperation") && |op.name| > 0
  }

  /** Two operations have one scope and one name. */
  predicate SameName(a: Operation, b: Operation) {
    a.scope + "." + a.name == b.scope + "." + b.name
  }

  predicate GoodList(operations: seq<Operation>, n: nat)
    requires n <= |operations|
  {
    && (forall i | 0 <= i < n :: Listed(operations[i]))
    && forall i, j | 0 <= i < j < n :: !SameName(operations[i], operations[j])
  }

  /** The table a good list makes. */
  ghost predicate Holds(operations: seq<Operation>, n: nat, ops: map<string, Operation>)
    requires n <= |operations|
  {
    && (forall i | 0 <= i < n :: Qualified(operations[i]) in ops && ops[Qualified(operations[i])] == operations[i])
    && forall q | q in ops :: exists i :: 0 <= i < n && Qualified(operations[i]) == q
  }

  ghost predicate LoadsTo(operations: seq<Operation>, n: nat, r: Loaded)
    requires n <= |operations|
  {
    (r.Operations? <==> GoodList(operations, n)) && (r.Operations? ==> Holds(operations, n, r.ops))
  }

  lemma NothingLoads(operations: seq<Operation>)
    ensures LoadsTo(operations, 0, Operations(map[]))
  {
  }

  lemma {:induction false} ListLoads(operations: seq<Operation>, n: nat)
    requires n <= |operations|
    ensures LoadsTo(operations, n, LoadOperations(operations, n))
  {
    if n == 0 {
      NothingLoads(operations);
    } else {
      ListLoads(operations, n - 1);
      NextLoads(operations, n - 1, LoadOperations(operations, n - 1));
    }
  }

  lemma NextLoads(operations: seq<Operation>, n: nat, r: Loaded)
    requires n < |operations| && LoadsTo(operations, n, r) && LoadOperations(operations, n) == r
    ensures LoadsTo(operations, n + 1, LoadOperations(operations, n + 1))
    ensures r.Operations? ==>
              (GoodList(operations, n + 1) <==> Listed(operations[n]) && Qualified(operations[n]) !in r.ops)
  {
    GoodSnoc(operations, n);
    if r.Operations? {
      IsNew(operations, n, r.ops);
      if GoodList(operations, n + 1) {
        HoldsMore(operations, n, r.ops);
      }
    }
  }

  lemma GoodSnoc(operations: seq<Operation>, n: nat)
    requires n < |operations|
    ensures GoodList(operations, n + 1) <==>
              && GoodList(operations, n) && Listed(operations[n])
              && forall i | 0 <= i < n :: !SameName(operations[i], operations[n])
  {
  }

  lemma IsNew(operations: seq<Operation>, n: nat, ops: map<string, Operation>)
    requires n < |operations| && Holds(operations, n, ops)
    ensures Qualified(operations[n]) !in ops <==> forall i | 0 <= i < n :: !SameName(operations[i], operations[n])
  {
    if Qualified(operations[n]) in ops {
      var i :| 0 <= i < n && Qualified(operations[i]) == Qualified(operations[n]);
      assert SameName(operations[i], operations[n]);
    } else {
      forall i | 0 <= i < n ensures !SameName(operations[i], operations[n]) {
        assert Qualified(operations[i]) in ops;
      }
    }
  }

  lemma HoldsMore(operations: seq<Operation>, n: nat, ops: map<string, Operation>)
    requires n < |operations| && Holds(operations, n, ops)
    requires Qualified(operations[n]) !in ops
    ensures Holds(operations, n + 1, ops[Qualified(operations[n]) := operations[n]])
  {
    var more := ops[Qualified(operations[n]) := operations[n]];
    forall q | q in more ensures exists i :: 0 <= i < n + 1 && Qualified(operations[i]) == q {
      if q == Qualified(operations[n]) {
        assert 0 <= n < n + 1;
      } else {
        assert q in ops;
      }
    }
  }

  predicate LadderNamed(roles: map<string, seq<string>>) {
    forall role | role in {"LIMITED_READ_ONLY", "READ_ONLY", "OPERATOR", "WORKSPACE_OPERATOR", "ADMIN"} :: role in roles
  }

  lemma LadderNamedExactly(roles: map<string, seq<string>>)
    ensures LadderListed(roles) <==> LadderNamed(roles)
  {
    forall role ensures role in LADDER <==>
        role in {"LIMITED_READ_ONLY", "READ_ONLY", "OPERATOR", "WORKSPACE_OPERATOR", "ADMIN"} {
      LadderIsFive(role);
    }
  }

  ghost predicate IsOperation(operations: seq<Operation>, q: string) {
    exists i :: 0 <= i < |operations| && Qualified(operations[i]) == q
  }

  /** Every listed name of every role is an operation of the document. */
  ghost predicate OnlyKnown(d: Document) {
    forall role, q | role in d.roles && q in d.roles[role] :: IsOperation(d.operations, q)
  }

  lemma OnlyKnownExactly(d: Document, ops: map<string, Operation>)
    requires Holds(d.operations, |d.operations|, ops)
    ensures AllKnown(d.roles, ops) <==> OnlyKnown(d)
  {
    forall q ensures q in ops <==> IsOperation(d.operations, q) {
    }
    assert AllKnown(d.roles, ops) <==> forall role, q | role in d.roles && q in d.roles[role] :: q in ops;
  }

  /** A document loads exactly when it has operations and roles, no operation is nameless, of another scope or named
      twice, every ladder role is there, and the roles list only its operations; otherwise the first of these that fails
      is the error. */
  lemma LoadsExactly(d: Document)
    ensures Load(d) == Err(NoOperationsOrRoles) <==> |d.operations| == 0 || |d.roles| == 0
    ensures Load(d).Ok? <==>
              && |d.operations| > 0 && |d.roles| > 0 && GoodList(d.operations, |d.operations|)
              && LadderNamed(d.roles) && OnlyKnown(d)
    ensures |d.operations| > 0 && |d.roles| > 0 && GoodList(d.operations, |d.operations|) && Load(d).Err? ==>
              Load(d).error == if LadderNamed(d.roles) then UnknownOperation else NoLadderRole
  {
    ListLoads(d.operations, |d.operations|);
    ListErrors(d.operations, |d.operations|);
    LadderNamedExactly(d.roles);
    if GoodList(d.operations, |d.operations|) {
      OnlyKnownExactly(d, LoadOperations(d.operations, |d.operations|).ops);
    }
  }

  lemma {:induction false} ListErrors(operations: seq<Operation>, n: nat)
    requires n <= |operations|
    ensures LoadOperations(operations, n) != Refused(NoOperationsOrRoles)
  {
    if n == 0 {
    } else {
      ListErrors(operations, n - 1);
    }
  }

  /** The table has the document's source, each operation under its scope and name, and each role with what it lists. */
  lemma LoadedExactly(d: Document)
    requires Load(d).Ok?
    ensures var t := Load(d).table;
            && t.source == d.source && t.roles.Keys == d.roles.Keys
            && (forall i | 0 <= i < |d.operations| ::
                  var op := d.operations[i]; op.scope + "." + op.name in t.ops && t.ops[op.scope + "." + op.name] == op)
            && (forall q | q in t.ops :: t.ops[q] in d.operations)
            && forall role, q | role in t.roles :: q in t.roles[role] <==> q in d.roles[role]
  {
    ListLoads(d.operations, |d.operations|);
    var t := Load(d).table;
    forall i | 0 <= i < |d.operations|
      ensures var op := d.operations[i]; op.scope + "." + op.name in t.ops && t.ops[op.scope + "." + op.name] == op
    {
      assert Qualified(d.operations[i]) in t.ops;
    }
  }

  /** The first operation of the list that cannot be taken decides the error. */
  lemma FirstBadOperation(d: Document, i: nat)
    requires |d.roles| > 0 && i < |d.operations| && GoodList(d.operations, i) && !GoodList(d.operations, i + 1)
    ensures Load(d) == Err(if Listed(d.operations[i]) then DuplicateOperation else InvalidOperation)
  {
    ListLoads(d.operations, i);
    NextLoads(d.operations, i, LoadOperations(d.operations, i));
    RefusedStays(d.operations, i + 1);
  }

  // ----- The roles of a checkout -----

  /** The first block that cannot be closed decides the error. */
  lemma FirstBadBlock(ops: map<string, Operation>, blocks: seq<RoleInheritance.Block>, i: nat)
    requires i < |blocks| && RoleInheritance.Refused(ops, blocks, i)
    requires forall k | 0 <= k < i :: !RoleInheritance.Refused(ops, blocks, k)
    ensures RoleInheritance.ParseRoles(ops, blocks) ==
              RoleInheritance.Err(if blocks[i].own <= ops.Keys then RoleInheritance.NotDeclaredBefore
                                  else RoleInheritance.UnknownOperation)
  {
    RoleInheritance.PassFailsExactly(ops, blocks, i);
    RoleInheritance.PassFailsExactly(ops, blocks, i + 1);
    RoleInheritance.PassFails(ops, blocks, i + 1);
    assert blocks[i].own <= ops.Keys <==> forall q | q in blocks[i].own :: q in ops;
  }

  /** When every block can be closed: no block at all, or a ladder role that none declares. */
  lemma OtherErrors(ops: map<string, Operation>, blocks: seq<RoleInheritance.Block>)
    requires forall k | 0 <= k < |blocks| :: !RoleInheritance.Refused(ops, blocks, k)
    ensures var r := RoleInheritance.ParseRoles(ops, blocks);
            && (blocks == [] ==> r == RoleInheritance.Err(RoleInheritance.NoRoles))
            && (blocks != [] && r.Err? ==> r.error == RoleInheritance.MissingLadderRole)
  {
    RoleInheritance.PassFailsExactly(ops, blocks, |blocks|);
  }

  // ----- The lines of a checkout -----

  /** Under each name, the last line with that name: its flag and its facet. */
  lemma {:induction false} LastLineWins(ops: map<string, Operation>, scope: string, lines: seq<AccessLoading.Line>,
          k: nat)
    requires k < |lines| && forall j | k < j < |lines| :: lines[j].name != lines[k].name
    ensures var q := scope + "." + lines[k].name;
            && q in AccessLoading.Filled(ops, scope, lines)
            && AccessLoading.Filled(ops, scope, lines)[q] ==
                 Operation(scope, lines[k].name, lines[k].write, lines[k].facet, "")
  {
    var n := |lines| - 1;
    if k < n {
      LastLineWins(ops, scope, lines[..n], k);
      DifferentNames(scope, lines[n].name, lines[k].name);
    }
  }

  lemma DifferentNames(scope: string, a: string, b: string)
    requires a != b
    ensures scope + "." + a != scope + "." + b
  {
    var (p, q) := (scope + "." + a, scope + "." + b);
    assert p[|scope| + 1..] == a && q[|scope| + 1..] == b;
  }

  lemma {:induction false} OthersStay(ops: map<string, Operation>, scope: string, lines: seq<AccessLoading.Line>,
          q: string)
    requires forall i | 0 <= i < |lines| :: q != scope + "." + lines[i].name
    ensures var r := AccessLoading.Filled(ops, scope, lines);
            (q in r <==> q in ops) && (q in ops ==> r[q] == ops[q])
  {
    if lines == [] {
    } else {
      OthersStay(ops, scope, lines[..|lines| - 1], q);
    }
  }

  predicate SameButLowest(op: Operation, scope: string, l: AccessLoading.Line) {
    op.scope == scope && op.name == l.name && op.write == l.write && op.facet == l.facet
  }

  predicate LastOfName(lines: seq<AccessLoading.Line>, k: nat) {
    k < |lines| && forall j | k < j < |lines| :: lines[j].name != lines[k].name
  }

  lemma LinesAreThere(net: seq<AccessLoading.Line>, org: seq<AccessLoading.Line>, k: nat)
    ensures LastOfName(net, k) ==>
              var (q, ops) := (NETWORK + "." + net[k].name, AccessLoading.OperationTables(net, org));
              q in ops && SameButLowest(ops[q], NETWORK, net[k])
    ensures LastOfName(org, k) ==>
              var (q, ops) := (ORG + "." + org[k].name, AccessLoading.OperationTables(net, org));
              q in ops && SameButLowest(ops[q], ORG, org[k])
  {
    if LastOfName(net, k) {
      LastLineWins(map[], NETWORK, net, k);
      forall i | 0 <= i < |org| ensures NETWORK + "." + net[k].name != ORG + "." + org[i].name {
        ScopesDiffer(net[k].name, org[i].name);
      }
      OthersStay(AccessLoading.Filled(map[], NETWORK, net), ORG, org, NETWORK + "." + net[k].name);
    }
    if LastOfName(org, k) {
      LastLineWins(AccessLoading.Filled(map[], NETWORK, net), ORG, org, k);
    }
  }

  /** A checkout without lines of one of the scopes is refused, and one whose roles do not parse; otherwise the table
      has the last line of each name, under its own scope. */
  lemma ReadsBothScopes(source: string, net: seq<AccessLoading.Line>, org: seq<AccessLoading.Line>,
          blocks: seq<RoleInheritance.Block>, k: nat)
    ensures var r := AccessLoading.FromSource(source, net, org, blocks);
            && (r == AccessLoading.Unreadable(AccessLoading.NoOperations) <==> |net| == 0 || |org| == 0)
            && (r.Read? ==> r.table.source == source)
            && (r.Read? && LastOfName(net, k) ==>
                  var q := "NetworkOperation" + "." + net[k].name;
                  q in r.table.ops && SameButLowest(r.table.ops[q], "NetworkOperation", net[k]))
            && (r.Read? && LastOfName(org, k) ==>
                  var q := "OrgOperation" + "." + org[k].name;
                  q in r.table.ops && SameButLowest(r.table.ops[q], "OrgOperation", org[k]))
  {
    LinesAreThere(net, org, k);
  }

  lemma ScopesDiffer(a: string, b: string)
    ensures NETWORK + "." + a != ORG + "." + b
  {
    assert (NETWORK + "." + a)[0] == 'N' && (ORG + "." + b)[0] == 'O';
  }
}
