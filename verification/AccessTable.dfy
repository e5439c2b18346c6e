/** The operation table and the ladder of network roles (access.go). */
module AccessTable {
  import GoBytes
  import opened Wrappers

  datatype Verdict = Unknown | Yes | No

  const NETWORK := "NetworkOperation"
  const ORG := "OrgOperation"
  const LADDER: seq<string> := ["LIMITED_READ_ONLY", "READ_ONLY", "OPERATOR", "WORKSPACE_OPERATOR", "ADMIN"]

  lemma LadderIsFive(role: string)
    ensures role in LADDER <==> role in {"LIMITED_READ_ONLY", "READ_ONLY", "OPERATOR", "WORKSPACE_OPERATOR", "ADMIN"}
  {
    assert LADDER[0] in LADDER && LADDER[1] in LADDER && LADDER[2] in LADDER;
    assert LADDER[3] in LADDER && LADDER[4] in LADDER;
  }

  datatype Operation = Operation(scope: string, name: string, write: bool, facet: string, lowestRole: string)

  function Qualified(op: Operation): string {
    op.scope + "." + op.name
  }

  /** `ops` by qualified name; `roles` maps a role to the qualified operations it holds, inheritance applied. */
  datatype Table = Table(source: string, ops: map<string, Operation>, roles: map<string, set<string>>)

  predicate ValidOperation(op: Operation) {
    (op.scope == NETWORK || op.scope == ORG) && op.name != ""
  }

  /** What both loaders establish. */
  predicate WellFormed(t: Table) {
    && (forall q | q in t.ops :: q == Qualified(t.ops[q]) && ValidOperation(t.ops[q]))
    && (forall role, q | role in t.roles && q in t.roles[role] :: q in t.ops)
  }

  predicate Holds(t: Table, role: string, q: string) {
    role in t.roles && q in t.roles[role]
  }

  // ----- Role names -----

  /** `strings.ToUpper`, for ASCII letters and the two other letters whose upper case is ASCII. */
  function ToUpper(s: string): string
    decreases |s|
  {
    if s == "" then ""
    else if |s| >= 2 && s[0] as int == 0xC4 && s[1] as int == 0xB1 then "I" + ToUpper(s[2..])   // dotless i
    else if |s| >= 2 && s[0] as int == 0xC5 && s[1] as int == 0xBF then "S" + ToUpper(s[2..])   // long s
    else if 'a' <= s[0] <= 'z' then [s[0] - 'a' + 'A'] + ToUpper(s[1..])
    else [s[0]] + ToUpper(s[1..])
  }

  function Fold(role: string): string {
    ToUpper(GoBytes.TrimSpace(role))
  }

  predicate Blank(role: string) {
    GoBytes.TrimSpace(role) == ""
  }

  /** Where a role stands on the ladder, -1 when it does not. */
  function LadderIndex(role: string): (i: int)
    ensures -1 <= i < |LADDER|
    ensures i >= 0 ==> LADDER[i] == Fold(role)
    ensures i < 0 ==> Fold(role) !in LADDER
  {
    IndexIn(LADDER, Fold(role))
  }

  function IndexIn(names: seq<string>, name: string): (i: int)
    ensures -1 <= i < |names|
    ensures i >= 0 ==> names[i] == name
    ensures i < 0 ==> name !in names
  {
    if names == [] then -1
    else if names[0] == name then 0
    else if IndexIn(names[1..], name) < 0 then -1
    else 1 + IndexIn(names[1..], name)
  }

  function NetworkRoleAtLeast(have: string, want: string): Verdict {
    var (h, w) := (LadderIndex(have), LadderIndex(want));
    if h < 0 || w < 0 then Unknown else if h >= w then Yes else No
  }

  // ----- Looking an operation up -----

  datatype LookupError = NoTable | Ambiguous | NoSuchOperation

  datatype Lookup = Found(op: Operation) | Failed(error: LookupError)

  /** The operation stored under a key, if it has a name. */
  function Named(t: Table, q: string): Option<Operation> {
    if q in t.ops && t.ops[q].name != "" then Some(t.ops[q]) else None
  }

  function FindOperation(t: Table, text: string): Lookup {
    var name := GoBytes.TrimSpace(text);
    if name in t.ops then Found(t.ops[name])
    else if '.' !in name then
      var network, org := Named(t, "NetworkOperation." + name), Named(t, "OrgOperation." + name);
      if network.Some? && org.Some? then Failed(Ambiguous)
      else if network.Some? then Found(network.value)
      else if org.Some? then Found(org.value)
      else Failed(NoSuchOperation)
    else Failed(NoSuchOperation)
  }

  lemma {:induction false} SplitAtDot(scope1: string, name1: string, scope2: string, name2: string)
    requires '.' !in scope1 && '.' !in scope2
    requires scope1 + "." + name1 == scope2 + "." + name2
    ensures scope1 == scope2 && name1 == name2
    decreases |scope1|
  {
    var q := scope1 + "." + name1;
    if scope1 == "" || scope2 == "" {
      assert q[0] == '.' ==> scope1 == "" && scope2 == "";
      assert name1 == q[1..] == name2;
    } else {
      assert q[1..] == scope1[1..] + "." + name1 == scope2[1..] + "." + name2;
      SplitAtDot(scope1[1..], name1, scope2[1..], name2);
      assert scope1 == [q[0]] + scope1[1..] && scope2 == [q[0]] + scope2[1..];
    }
  }

  lemma ScopesHaveNoDot()
    ensures '.' !in NETWORK && '.' !in ORG
  {
  }

  /** In a well-formed table a lookup finds exactly what its text, trimmed, can mean: a qualified name that operation,
      and a bare name the one operation of that name when there is only one. */
  lemma FindOperationExactly(t: Table, text: string, op: Operation)
    requires WellFormed(t)
    ensures var name := GoBytes.TrimSpace(text);
            FindOperation(t, text) == Found(op) <==>
              if '.' in name then name in t.ops && Qualified(op) == name && t.ops[name] == op
              else
                && op.name == name && op in t.ops.Values
                && forall q | q in t.ops && t.ops[q].name == name :: t.ops[q] == op
  {
    var name := GoBytes.TrimSpace(text);
    if '.' !in name {
      BareName(t, name, op);
    }
  }

  lemma BareName(t: Table, name: string, op: Operation)
    requires WellFormed(t) && '.' !in name
    ensures name !in t.ops
    ensures var net, org := NETWORK + "." + name, ORG + "." + name;
            && net == "NetworkOperation." + name && org == "OrgOperation." + name
            && (forall q | q in t.ops && t.ops[q].name == name :: q == net || q == org)
            && (net in t.ops ==> t.ops[net].name == name)
            && (org in t.ops ==> t.ops[org].name == name)
  {
    ScopesHaveNoDot();
    var net, org := NETWORK + "." + name, ORG + "." + name;
    assert net == "NetworkOperation." + name && org == "OrgOperation." + name;
    forall q | q in t.ops ensures q != name && (t.ops[q].name == name ==> q == net || q == org) {
      assert q == t.ops[q].scope + "." + t.ops[q].name;
    }
    if net in t.ops {
      SplitAtDot(NETWORK, name, t.ops[net].scope, t.ops[net].name);
    }
    if org in t.ops {
      SplitAtDot(ORG, name, t.ops[org].scope, t.ops[org].name);
    }
  }
}
