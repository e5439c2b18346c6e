/** The two ways to a table, and what the JSON copy of a table answers (access.go). */
module AccessLoading {
  import opened AccessTable
  import opened AccessTableJson
  import opened AccessDecision
  import RoleInheritance
  import LowestRole

  // ----- A checkout -----

  /** One match in an operation table's Java source. */
  datatype Line = Line(name: string, write: bool, facet: string)

  /** What the pattern always yields. */
  predicate Matched(lines: seq<Line>) {
    forall l | l in lines :: l.name != ""
  }

  function OperationOf(scope: string, l: Line): Operation {
    Operation(scope, l.name, l.write, l.facet, "")
  }

  /** The table after the lines of one scope; a later line replaces an earlier one of the same name. */
  function Filled(ops: map<string, Operation>, scope: string, lines: seq<Line>): map<string, Operation> {
    if lines == [] then ops
    else
      var op := OperationOf(scope, lines[|lines| - 1]);
      Filled(ops, scope, lines[..|lines| - 1])[Qualified(op) := op]
  }

  function OperationTables(net: seq<Line>, org: seq<Line>): map<string, Operation> {
    Filled(Filled(map[], NETWORK, net), ORG, org)
  }

  datatype SourceError = NoOperations | BadRoles(cause: RoleInheritance.Error)

  datatype FromCheckout = Read(table: Table) | Unreadable(error: SourceError)

  /** `LoadAccessTable` once the Java sources are matched. */
  function FromSource(source: string, net: seq<Line>, org: seq<Line>,
          blocks: seq<RoleInheritance.Block>): FromCheckout
  {
    if net == [] || org == [] then Unreadable(NoOperations)
    else
      var ops := OperationTables(net, org);
      match RoleInheritance.ParseRoles(ops, blocks)
      case Err(e) => Unreadable(BadRoles(e))
      case Ok(roles) => Read(LowestRole.SetLowestRoles(Table(source, ops, roles)))
  }

  method FillTable(ops: map<string, Operation>, scope: string, lines: seq<Line>) returns (r: map<string, Operation>)
    ensures r == Filled(ops, scope, lines)
  {
    r := ops;
    for n := 0 to |lines|
      invariant r == Filled(ops, scope, lines[..n])
    {
      var op := OperationOf(scope, lines[n]);
      r := r[Qualified(op) := op];
      assert lines[..n + 1][..n] == lines[..n];
    }
    assert lines[..|lines|] == lines;
  }

  method LoadAccessTable(source: string, net: seq<Line>, org: seq<Line>, blocks: seq<RoleInheritance.Block>)
      returns (r: FromCheckout)
    ensures r == FromSource(source, net, org, blocks)
  {
    if |net| == 0 {
      return Unreadable(NoOperations);
    }
    var ops := FillTable(map[], NETWORK, net);
    if |org| == 0 {
      return Unreadable(NoOperations);
    }
    ops := FillTable(ops, ORG, org);
    var roles := RoleInheritance.Parse(ops, blocks);
    if roles.Err? {
      return Unreadable(BadRoles(roles.error));
    }
    var table := LowestRole.FillLowestRoles(Table(source, ops, roles.value));
    return Read(table);
  }

  /** Keyed by qualified name, no lowest roles yet. */
  predicate Extracted(ops: map<string, Operation>) {
    forall q | q in ops :: q == Qualified(ops[q]) && ValidOperation(ops[q]) && ops[q].lowestRole == ""
  }

  lemma {:induction false} FilledIsExtracted(ops: map<string, Operation>, scope: string, lines: seq<Line>)
    requires Extracted(ops) && Matched(lines) && (scope == NETWORK || scope == ORG)
    ensures Extracted(Filled(ops, scope, lines))
    ensures forall q :: q in Filled(ops, scope, lines) <==>
              q in ops || exists l | l in lines :: q == Qualified(OperationOf(scope, l))
  {
    if lines == [] {
    } else {
      var front, last := lines[..|lines| - 1], lines[|lines| - 1];
      FilledIsExtracted(ops, scope, front);
      assert lines == front + [last] && last in lines;
    }
  }

  /** A table read from source is well-formed, has exactly the operations of the two sources, at least one of each
      scope, and holds per role what inheritance reaches. */
  lemma SourceTableIsWellFormed(source: string, net: seq<Line>, org: seq<Line>, blocks: seq<RoleInheritance.Block>)
    requires Matched(net) && Matched(org) && FromSource(source, net, org, blocks).Read?
    ensures var t := FromSource(source, net, org, blocks).table;
            && WellFormed(t) && Extracted(OperationTables(net, org)) && t.ops.Keys == OperationTables(net, org).Keys
            && Qualified(OperationOf(NETWORK, net[0])) in t.ops && Qualified(OperationOf(ORG, org[0])) in t.ops
            && (forall role | role in LADDER :: role in t.roles)
            && forall role, q :: Holds(t, role, q) <==>
                 RoleInheritance.Reaches(blocks, RoleInheritance.Latest(blocks, |blocks|, role), q)
  {
    var ops := OperationTables(net, org);
    FilledIsExtracted(map[], NETWORK, net);
    FilledIsExtracted(Filled(map[], NETWORK, net), ORG, org);
    assert net[0] in net && org[0] in org;
    ParsedTable(source, ops, blocks);
  }

  lemma ParsedTable(source: string, ops: map<string, Operation>, blocks: seq<RoleInheritance.Block>)
    requires Extracted(ops) && RoleInheritance.ParseRoles(ops, blocks).Ok?
    ensures var t := LowestRole.SetLowestRoles(Table(source, ops, RoleInheritance.ParseRoles(ops, blocks).value));
            && WellFormed(t) && t.ops.Keys == ops.Keys
            && (forall role | role in LADDER :: role in t.roles)
            && forall role, q :: Holds(t, role, q) <==>
                 RoleInheritance.Reaches(blocks, RoleInheritance.Latest(blocks, |blocks|, role), q)
  {
    RoleInheritance.PassWithin(ops, blocks, |blocks|);
    var t := LowestRole.SetLowestRoles(Table(source, ops, RoleInheritance.ParseRoles(ops, blocks).value));
    forall role, q
      ensures Holds(t, role, q) <==>
                RoleInheritance.Reaches(blocks, RoleInheritance.Latest(blocks, |blocks|, role), q)
    {
      RoleInheritance.HoldsExactlyWhatIsReachable(ops, blocks, role, q);
    }
  }

  // ----- The JSON copy -----

  /** A network role, not blank, that counts here and that the table knows to hold nothing. */
  predicate EmptyRoleCounts(t: Table, r: SessionRoles, op: Operation, id: string) {
    exists n | n in Relevant(r, op, id) :: n in r.network && KnownEmpty(t, r.network[n]) && !Blank(r.network[n])
  }

  predicate KnownEmpty(t: Table, role: string) {
    Fold(role) in t.roles && t.roles[Fold(role)] == {}
  }

  lemma DroppedRolesGrantNothing(t: Table, r: SessionRoles, op: Operation, id: string)
    ensures NetworkGrants(WithoutEmptyRoles(t), r, op, id) <==> NetworkGrants(t, r, op, id)
  {
    forall role ensures Held(WithoutEmptyRoles(t), role, op) <==> Held(t, role, op) {
    }
  }

  lemma DroppedRolesAreUnknown(t: Table, r: SessionRoles, op: Operation, id: string)
    ensures SomethingUnknown(WithoutEmptyRoles(t), r, op, id) <==>
              SomethingUnknown(t, r, op, id) || EmptyRoleCounts(t, r, op, id)
  {
    forall role
      ensures UnknownNetworkRole(WithoutEmptyRoles(t), role) <==>
                UnknownNetworkRole(t, role) || (KnownEmpty(t, role) && !Blank(role))
    {
    }
  }

  lemma WithoutEmptyRolesDecides(t: Table, r: SessionRoles, impersonated: bool, op: Operation, id: string)
    ensures Decide(WithoutEmptyRoles(t), r, impersonated, op, id) ==
              var v := Decide(t, r, impersonated, op, id);
              if v == No && EmptyRoleCounts(t, r, op, id) then Unknown else v
  {
    DroppedRolesGrantNothing(t, r, op, id);
    DroppedRolesAreUnknown(t, r, op, id);
  }

  /** A JSON copy that loads never contradicts the table it was made from. It answers a session differently exactly when
      the table says No and a role that counts is one the table knows to hold nothing; the copy then leaves it open. */
  lemma CopyDiffersExactly(d: Document, t: Table, r: SessionRoles, impersonated: bool, op: Operation, id: string)
    requires WellFormed(t) && IsDocumentOf(d, t) && Load(d).Ok?
    ensures Load(d).table.ops == t.ops
    ensures var (copied, v) := (Decide(Load(d).table, r, impersonated, op, id), Decide(t, r, impersonated, op, id));
            && (copied != v <==> v == No && EmptyRoleCounts(t, r, op, id))
            && (copied != v ==> copied == Unknown)
  {
    LoadOfWritten(d, t);
    WithoutEmptyRolesDecides(t, r, impersonated, op, id);
  }
}
