/** The decision of `Access.Can` as a table (access.go): for each kind of session and operation, which verdict, by the
    names of the roles alone. */
module AccessVerdicts {
  import opened AccessTable
  import opened AccessDecision
  import opened Wrappers
  import GoBytes

  /** Impersonated sessions, support users, system roles and sessions without roles are not decided. */
  lemma NotModelled(t: Table, r: SessionRoles, impersonated: bool, op: Operation, id: string)
    requires impersonated || r.supportedOrgIDs != [] || r.system != [] || (r.org == [] && r.network.Keys == {})
    ensures Decide(t, r, impersonated, op, id) == Unknown
  {
  }

  /** Roles are known, and nothing else is. */
  predicate InModel(r: SessionRoles) {
    r.supportedOrgIDs == [] && r.system == [] && (r.org != [] || r.network.Keys != {})
  }

  /** An org administrator may do everything, a reader of the org read everything. */
  lemma OrgRolesGrant(t: Table, r: SessionRoles, op: Operation, id: string, role: string)
    requires InModel(r) && role in r.org
    ensures Fold(role) == "ADMIN" ==> Decide(t, r, false, op, id) == Yes
    ensures Fold(role) == "READ_ONLY" && !op.write ==> Decide(t, r, false, op, id) == Yes
  {
  }

  /** No org role decides: none is an administrator, and none reads unless the operation writes. */
  predicate OrgLeavesOpen(r: SessionRoles, op: Operation) {
    forall role | role in r.org :: Fold(role) != "ADMIN" && (Fold(role) == "READ_ONLY" ==> op.write)
  }

  /** Every org role has a name the rules know. */
  predicate OrgRolesKnown(r: SessionRoles) {
    forall role | role in r.org :: Fold(role) == "ADMIN" || Fold(role) == "READ_ONLY"
  }

  /** The table's set for a role name has the operation "Scope.Name". */
  predicate Lists(t: Table, role: string, op: Operation) {
    Fold(role) in t.roles && op.scope + "." + op.name in t.roles[Fold(role)]
  }

  /** A network operation, when no org role decides: only the role on that network counts. */
  lemma NetworkOperations(t: Table, r: SessionRoles, op: Operation, id: string)
    requires InModel(r) && OrgLeavesOpen(r, op) && op.scope == "NetworkOperation"
    ensures var v := Decide(t, r, false, op, id);
            && (id !in r.network ==> v == if OrgRolesKnown(r) then No else Unknown)
            && (id in r.network && GoBytes.TrimSpace(r.network[id]) == "" ==> v == Unknown)
            && (id in r.network && GoBytes.TrimSpace(r.network[id]) != "" ==>
                  v == if Lists(t, r.network[id], op) then Yes
                       else if OrgRolesKnown(r) && Fold(r.network[id]) in t.roles then No else Unknown)
  {
    if id in r.network {
      assert Relevant(r, op, id) == {id};
    }
  }

  /** An org operation, when no org role decides: the role on any network may grant it, and a role nobody knows leaves
      it open, unless it is blank. */
  lemma OrgOperations(t: Table, r: SessionRoles, op: Operation, id: string)
    requires InModel(r) && OrgLeavesOpen(r, op) && op.scope != "NetworkOperation"
    ensures var v := Decide(t, r, false, op, id);
            if exists n | n in r.network :: Lists(t, r.network[n], op) then v == Yes
            else if OrgRolesKnown(r)
                    && forall n | n in r.network ::
                         Fold(r.network[n]) in t.roles || GoBytes.TrimSpace(r.network[n]) == ""
            then v == No
            else v == Unknown
  {
  }

  /** A session whose org roles only read, asking to write, is told Yes only by a network role that lists it. */
  lemma ReadersNeedANetworkRole(t: Table, r: SessionRoles, op: Operation, id: string)
    requires op.write && forall role | role in r.org :: Fold(role) == "READ_ONLY"
    requires Decide(t, r, false, op, id) == Yes
    ensures exists n | n in r.network :: Lists(t, r.network[n], op) && (op.scope == "NetworkOperation" ==> n == id)
  {
  }

  /** Around the decision: no table, no such operation, no network named; else the operation's own data come with the
      verdict. */
  lemma CanExactly(a: Access, operation: string, networkID: string)
    ensures a.table.None? ==> CanSpec(a, operation, networkID) == Ok(Answer(Unknown, "", "", false, ""))
    ensures a.table.Some? && FindOperation(a.table.value, operation).Failed? ==>
              CanSpec(a, operation, networkID) ==
                Err(Answer(Unknown, "", "", false, ""), NoOperation(FindOperation(a.table.value, operation).error))
    ensures a.table.Some? && FindOperation(a.table.value, operation).Found? ==>
              var (op, id) := (FindOperation(a.table.value, operation).op, GoBytes.TrimSpace(networkID));
              var r := CanSpec(a, operation, networkID);
              && r.answer.operation == op.scope + "." + op.name && r.answer.facet == op.facet
              && r.answer.write == op.write && r.answer.lowestRole == op.lowestRole
              && (r.Err? <==> op.scope == "NetworkOperation" && id == "")
              && (r.Err? ==> r.error == NetworkRequired && r.answer.verdict == Unknown)
              && (r.Ok? ==> r.answer.verdict == Decide(a.table.value, a.roles, a.impersonated, op, id))
  {
  }
}
