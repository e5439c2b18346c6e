/** `Access.Can` (access.go): the three-valued answer to "may this account do X?". */
module AccessDecision {
  import opened AccessTable
  import GoBytes
  import opened Wrappers

  datatype SessionRoles = SessionRoles(
    system: seq<string>, org: seq<string>, network: map<string, string>, supportedOrgIDs: seq<string>)

  datatype Access = Access(table: Option<Table>, roles: SessionRoles, impersonated: bool)

  datatype Answer = Answer(verdict: Verdict, operation: string, facet: string, write: bool, lowestRole: string)

  const NO_ANSWER := Answer(Unknown, "", "", false, "")

  datatype Error = NoOperation(cause: LookupError) | NetworkRequired

  datatype Result = Ok(answer: Answer) | Err(answer: Answer, error: Error)

  // ----- The declarative answer -----

  /** The roles say nothing that can be checked. */
  predicate OutOfModel(r: SessionRoles, impersonated: bool) {
    impersonated || r.supportedOrgIDs != [] || r.system != [] || (r.org == [] && r.network == map[])
  }

  /** An org role that grants the operation by itself. */
  predicate OrgGrants(r: SessionRoles, op: Operation) {
    || (exists role | role in r.org :: Fold(role) == "ADMIN")
    || (!op.write && exists role | role in r.org :: Fold(role) == "READ_ONLY")
  }

  predicate UnknownOrgRole(r: SessionRoles) {
    exists role | role in r.org :: Fold(role) != "ADMIN" && Fold(role) != "READ_ONLY"
  }

  predicate Held(t: Table, role: string, op: Operation) {
    Holds(t, Fold(role), Qualified(op))
  }

  predicate UnknownNetworkRole(t: Table, role: string) {
    Fold(role) !in t.roles && !Blank(role)
  }

  /** The networks whose role counts: the one asked about for a network operation, all of them for an org operation. */
  function Relevant(r: SessionRoles, op: Operation, networkID: string): set<string> {
    if op.scope == NETWORK then (if networkID in r.network then {networkID} else {}) else r.network.Keys
  }

  /** A network operation on a network for which Forward gave a blank role. */
  predicate BlankRole(r: SessionRoles, op: Operation, networkID: string) {
    op.scope == NETWORK && networkID in r.network && Blank(r.network[networkID])
  }

  predicate NetworkGrants(t: Table, r: SessionRoles, op: Operation, networkID: string) {
    exists n | n in Relevant(r, op, networkID) :: n in r.network && Held(t, r.network[n], op)
  }

  predicate SomethingUnknown(t: Table, r: SessionRoles, op: Operation, networkID: string) {
    UnknownOrgRole(r)
    || exists n | n in Relevant(r, op, networkID) :: n in r.network && UnknownNetworkRole(t, r.network[n])
  }

  function Decide(t: Table, r: SessionRoles, impersonated: bool, op: Operation, networkID: string): Verdict {
    if OutOfModel(r, impersonated) then Unknown
    else if OrgGrants(r, op) then Yes
    else if BlankRole(r, op, networkID) then Unknown
    else if NetworkGrants(t, r, op, networkID) then Yes
    else if SomethingUnknown(t, r, op, networkID) then Unknown
    else No
  }

  function Describe(op: Operation): Answer {
    Answer(Unknown, Qualified(op), op.facet, op.write, op.lowestRole)
  }

  function CanSpec(a: Access, operation: string, networkID: string): Result {
    if a.table.None? then Ok(NO_ANSWER)
    else
      match FindOperation(a.table.value, operation)
      case Failed(e) => Err(NO_ANSWER, NoOperation(e))
      case Found(op) =>
        var id := GoBytes.TrimSpace(networkID);
        if op.scope == NETWORK && id == "" then Err(Describe(op), NetworkRequired)
        else Ok(Describe(op).(verdict := Decide(a.table.value, a.roles, a.impersonated, op, id)))
  }

  // ----- The decision as written: loops over org roles, in order, and over network roles, in any order -----

  method Can(a: Access, operation: string, networkID: string) returns (result: Result)
    ensures result == CanSpec(a, operation, networkID)
  {
    if a.table.None? {
      return Ok(NO_ANSWER);
    }
    var t, found := a.table.value, FindOperation(a.table.value, operation);
    if found.Failed? {
      return Err(NO_ANSWER, NoOperation(found.error));
    }
    var op, id := found.op, GoBytes.TrimSpace(networkID);
    if op.scope == NETWORK && id == "" {
      return Err(Describe(op), NetworkRequired);
    }
    var verdict := Judge(t, a.roles, a.impersonated, op, id);
    return Ok(Describe(op).(verdict := verdict));
  }

  method Judge(t: Table, r: SessionRoles, impersonated: bool, op: Operation, id: string) returns (v: Verdict)
    ensures v == Decide(t, r, impersonated, op, id)
  {
    if impersonated || |r.supportedOrgIDs| > 0 || |r.system| > 0 || (|r.org| == 0 && |r.network| == 0) {
      return Unknown;
    }
    var granted, unknownRole := JudgeOrg(r, op);
    if granted {
      return Yes;
    }
    if op.scope == NETWORK {
      if id in r.network {
        var role := r.network[id];
        if Blank(role) {
          return Unknown;
        } else if Held(t, role, op) {
          assert id in Relevant(r, op, id);
          return Yes;
        } else if Fold(role) !in t.roles {
          assert id in Relevant(r, op, id);
          unknownRole := true;
        }
      }
    } else {
      var todo := r.network.Keys;
      while todo != {}
        invariant todo <= r.network.Keys
        invariant forall n | n in r.network.Keys - todo :: !Held(t, r.network[n], op)
        invariant unknownRole <==>
                  UnknownOrgRole(r) || exists n | n in r.network.Keys - todo :: UnknownNetworkRole(t, r.network[n])
        decreases |todo|
      {
        var network :| network in todo;
        var role := r.network[network];
        if Held(t, role, op) {
          assert network in Relevant(r, op, id);
          return Yes;
        } else if Fold(role) !in t.roles && !Blank(role) {
          unknownRole := true;
        }
        todo := todo - {network};
      }
    }
    return if unknownRole then Unknown else No;
  }

  /** The loop over org roles, which stops at the first that grants. */
  method JudgeOrg(r: SessionRoles, op: Operation) returns (granted: bool, unknownRole: bool)
    ensures granted <==> OrgGrants(r, op)
    ensures !granted ==> (unknownRole <==> UnknownOrgRole(r))
  {
    unknownRole := false;
    for k := 0 to |r.org|
      invariant forall i | 0 <= i < k :: Fold(r.org[i]) != "ADMIN" && (Fold(r.org[i]) == "READ_ONLY" ==> op.write)
      invariant unknownRole <==> exists i | 0 <= i < k :: Fold(r.org[i]) != "ADMIN" && Fold(r.org[i]) != "READ_ONLY"
    {
      var role := Fold(r.org[k]);
      if role == "ADMIN" {
        return true, unknownRole;
      } else if role == "READ_ONLY" {
        if !op.write {
          return true, unknownRole;
        }
      } else {
        unknownRole := true;
      }
    }
    return false, unknownRole;
  }

  // ----- What the answer does not depend on -----

  /** The same org roles in any order and number give the same verdict. */
  lemma OrderOfOrgRolesIsIrrelevant(t: Table, r: SessionRoles, org: seq<string>, impersonated: bool, op: Operation,
          id: string)
    requires forall role :: role in r.org <==> role in org
    ensures Decide(t, r, impersonated, op, id) == Decide(t, r.(org := org), impersonated, op, id)
  {
    assert r.org == [] <==> org == [] by {
      if r.org != [] { assert r.org[0] in org; }
      if org != [] { assert org[0] in r.org; }
    }
  }

  /** `u` knows every role `t` knows, as `t` knows it, and maybe more. */
  predicate Extends(t: Table, u: Table) {
    t.ops == u.ops && forall role | role in t.roles :: role in u.roles && u.roles[role] == t.roles[role]
  }

  /** A role with an empty name that only `u` declares, holding an org operation. */
  predicate AddsBlankGrant(t: Table, u: Table, op: Operation) {
    op.scope != NETWORK && "" !in t.roles && Holds(u, "", Qualified(op))
  }

  predicate Settled(v: Verdict) {
    v != Unknown
  }

  /** More known roles only resolve doubt: for a given operation, adding roles to the table never changes a Yes or a No
      of any session, exactly unless it adds a nameless role holding that org operation. */
  lemma MoreRolesOnlyResolve(t: Table, u: Table, op: Operation)
    requires Extends(t, u)
    ensures !AddsBlankGrant(t, u, op) <==>
              forall r, impersonated, id | Settled(Decide(t, r, impersonated, op, id)) ::
                Decide(u, r, impersonated, op, id) == Decide(t, r, impersonated, op, id)
  {
    if AddsBlankGrant(t, u, op) {
      BlankGrantFlips(t, u, op);
    } else {
      forall r, impersonated, id | Settled(Decide(t, r, impersonated, op, id))
        ensures Decide(u, r, impersonated, op, id) == Decide(t, r, impersonated, op, id)
      {
        KnownStays(t, u, r, op, id);
      }
    }
  }

  /** Forward's own rule, over the table it really has: org ADMIN holds everything, org READ_ONLY every read, and the
      network roles that count grant what they hold. */
  predicate Enforced(u: Table, r: SessionRoles, op: Operation, id: string) {
    OrgGrants(r, op) || NetworkGrants(u, r, op, id)
  }

  /** A settled verdict is what a deployment enforces, even one whose table knows roles this one does not; and a verdict
      is left open only when the session is outside the model, the network's role is blank, or a role is unknown. */
  lemma SettledVerdictIsEnforced(t: Table, u: Table, r: SessionRoles, impersonated: bool, op: Operation, id: string)
    requires Extends(t, u) && !AddsBlankGrant(t, u, op)
    ensures var v := Decide(t, r, impersonated, op, id);
            && (Settled(v) ==> (v == Yes <==> Enforced(u, r, op, id)))
            && (!Settled(v) ==> OutOfModel(r, impersonated) || BlankRole(r, op, id) || SomethingUnknown(t, r, op, id))
  {
    KnownStays(t, u, r, op, id);
  }

  lemma KnownStays(t: Table, u: Table, r: SessionRoles, op: Operation, id: string)
    requires Extends(t, u) && !AddsBlankGrant(t, u, op)
    ensures NetworkGrants(t, r, op, id) ==> NetworkGrants(u, r, op, id)
    ensures !SomethingUnknown(t, r, op, id) && !BlankRole(r, op, id) ==>
              (NetworkGrants(u, r, op, id) <==> NetworkGrants(t, r, op, id)) && !SomethingUnknown(u, r, op, id)
  {
    if !SomethingUnknown(t, r, op, id) && !BlankRole(r, op, id) {
      forall n | n in Relevant(r, op, id) && n in r.network && Held(u, r.network[n], op)
        ensures Held(t, r.network[n], op)
      {
        var role := r.network[n];
        assert !UnknownNetworkRole(t, role);
        if Blank(role) {
          assert Fold(role) == "";
        }
      }
    }
  }

  /** No org role, and one network with a blank role. */
  const BLANK_SESSION: SessionRoles := SessionRoles([], [], map["n" := ""], [])

  lemma BlankGrantFlips(t: Table, u: Table, op: Operation)
    requires AddsBlankGrant(t, u, op)
    ensures Decide(t, BLANK_SESSION, false, op, "") == No && Decide(u, BLANK_SESSION, false, op, "") == Yes
  {
    var r := BLANK_SESSION;
    assert GoBytes.TrimSpace("") == "" && Fold("") == "";
    assert "n" in Relevant(r, op, "");
    assert r.network["n"] == "";
    assert r.network != map[];
  }
}
