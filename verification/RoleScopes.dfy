/** Inheritance by the scope an operation was declared in (access.go), without looking at how its name begins. */
module RoleScopes {
  import opened AccessTable
  import opened RoleInheritance

  /** With distinct names, a role holds an org operation exactly when it declares it or a role whose org operations it
      inherits holds it; and likewise for network operations. */
  lemma InheritsByScope(ops: map<string, Operation>, blocks: seq<Block>, i: nat, q: string)
    requires DistinctNames(blocks) && ParseRoles(ops, blocks).Ok? && i < |blocks|
    requires q in ops && q == ops[q].scope + "." + ops[q].name
    ensures var (roles, b) := (ParseRoles(ops, blocks).value, blocks[i]);
            && b.name in roles
            && (ops[q].scope == "OrgOperation" ==>
                  (q in roles[b.name] <==> q in b.own || exists p | p in b.inheritOrg :: p in roles && q in roles[p]))
            && (ops[q].scope == "NetworkOperation" ==>
                  (q in roles[b.name] <==> q in b.own || exists p | p in b.inheritNet :: p in roles && q in roles[p]))
  {
    var (roles, b) := (ParseRoles(ops, blocks).value, blocks[i]);
    DeclaredIsKept(ops, blocks, i);
    FixedAt(ops, blocks, i, q);
    ScopeOfName(ops[q].scope, ops[q].name, b);
    if ops[q].scope == "OrgOperation" || ops[q].scope == "NetworkOperation" {
      assert q in roles[b.name] <==> q in b.own || exists p | p in ParentsFor(b, q) :: q in Meaning(roles)(p);
    }
  }

  lemma ScopeOfName(scope: string, name: string, b: Block)
    ensures scope == "OrgOperation" ==> ParentsFor(b, scope + "." + name) == b.inheritOrg
    ensures scope == "NetworkOperation" ==> ParentsFor(b, scope + "." + name) == b.inheritNet
  {
    var q := scope + "." + name;
    if scope == "OrgOperation" {
      assert q[..13] == "OrgOperation.";
      assert "NetworkOperation."[0] != q[0];
    } else if scope == "NetworkOperation" {
      assert q[..17] == "NetworkOperation.";
      assert "OrgOperation."[0] != q[0];
    }
  }

  lemma DeclaredIsKept(ops: map<string, Operation>, blocks: seq<Block>, i: nat)
    requires ParseRoles(ops, blocks).Ok? && i < |blocks|
    ensures blocks[i].name in ParseRoles(ops, blocks).value
  {
    PassCloses(ops, blocks, |blocks|);
    LatestExactly(blocks, |blocks|, blocks[i].name);
  }

  predicate SameButNetwork(a: Block, b: Block) {
    a.name == b.name && a.own == b.own && a.inheritOrg == b.inheritOrg
  }

  /** What a role inherits of an operation in one scope says nothing about the other: two sets of blocks that differ
      only in the network parents agree on every org operation. */
  lemma ScopesAreIndependent(ops: map<string, Operation>, a: seq<Block>, b: seq<Block>, role: string, q: string)
    requires ParseRoles(ops, a).Ok? && ParseRoles(ops, b).Ok? && |a| == |b|
    requires forall i | 0 <= i < |a| :: SameButNetwork(a[i], b[i])
    requires q in ops && q == ops[q].scope + "." + ops[q].name && ops[q].scope == "OrgOperation"
    ensures Holds(Table("", ops, ParseRoles(ops, a).value), role, q) <==>
              Holds(Table("", ops, ParseRoles(ops, b).value), role, q)
  {
    HoldsExactlyWhatIsReachable(ops, a, role, q);
    HoldsExactlyWhatIsReachable(ops, b, role, q);
    SameLatest(a, b, |a|, role);
    var n := Latest(a, |a|, role);
    if n >= 0 {
      SameReach(a, b, n, q, ops[q].name);
    } else {
      NothingReached(a, n, q);
      NothingReached(b, n, q);
    }
  }

  predicate NamedBefore(blocks: seq<Block>, n: nat, name: string)
    requires n <= |blocks|
  {
    exists j :: 0 <= j < n && blocks[j].name == name
  }

  /** One block that can be closed. */
  ghost predicate GoodBlock(ops: map<string, Operation>, blocks: seq<Block>, i: nat)
    requires i < |blocks|
  {
    && (forall q | q in blocks[i].own :: q in ops)
    && forall p | p in blocks[i].inheritOrg || p in blocks[i].inheritNet :: NamedBefore(blocks, i, p)
  }

  /** The roles of a checkout parse exactly when there are any, each owns known operations only and inherits, in either
      scope, from roles declared before it, and the five ladder roles are among them. */
  lemma ParsesExactly(ops: map<string, Operation>, blocks: seq<Block>)
    ensures ParseRoles(ops, blocks).Ok? <==>
              && |blocks| > 0 && (forall i | 0 <= i < |blocks| :: GoodBlock(ops, blocks, i))
              && forall role | role in {"LIMITED_READ_ONLY", "READ_ONLY", "OPERATOR", "WORKSPACE_OPERATOR", "ADMIN"} ::
                   NamedBefore(blocks, |blocks|, role)
  {
    ParseFailsExactly(ops, blocks);
    forall i | 0 <= i < |blocks| ensures Refused(ops, blocks, i) <==> !GoodBlock(ops, blocks, i) {
      RefusedExactly(ops, blocks, i);
    }
    LadderDeclared(blocks);
  }

  lemma LadderDeclared(blocks: seq<Block>)
    ensures (exists role | role in LADDER :: forall i | 0 <= i < |blocks| :: blocks[i].name != role) <==>
              exists role | role in {"LIMITED_READ_ONLY", "READ_ONLY", "OPERATOR", "WORKSPACE_OPERATOR", "ADMIN"} ::
                !NamedBefore(blocks, |blocks|, role)
  {
    forall role ensures role in LADDER <==>
        role in {"LIMITED_READ_ONLY", "READ_ONLY", "OPERATOR", "WORKSPACE_OPERATOR", "ADMIN"} {
      LadderIsFive(role);
    }
    if role :| role in LADDER && forall i | 0 <= i < |blocks| :: blocks[i].name != role {
      assert !NamedBefore(blocks, |blocks|, role);
    }
    if role :| role in LADDER && !NamedBefore(blocks, |blocks|, role) {
      assert forall i | 0 <= i < |blocks| :: blocks[i].name != role;
    }
  }

  lemma RefusedExactly(ops: map<string, Operation>, blocks: seq<Block>, i: nat)
    requires i < |blocks|
    ensures Refused(ops, blocks, i) <==> !GoodBlock(ops, blocks, i)
  {
    forall p ensures Latest(blocks, i, p) < 0 <==> !NamedBefore(blocks, i, p) {
      LatestExactly(blocks, i, p);
    }
  }

  lemma NothingReached(blocks: seq<Block>, n: int, q: string)
    requires n < 0
    ensures !Reaches(blocks, n, q)
  {
  }

  lemma {:induction false} SameLatest(a: seq<Block>, b: seq<Block>, n: nat, role: string)
    requires |a| == |b| && n <= |a| && forall i | 0 <= i < |a| :: a[i].name == b[i].name
    ensures Latest(a, n, role) == Latest(b, n, role)
  {
    if n == 0 {
    } else {
      SameLatest(a, b, n - 1, role);
    }
  }

  lemma {:induction false} SameReach(a: seq<Block>, b: seq<Block>, i: nat, q: string, name: string)
    requires |a| == |b| && i < |a| && q == "OrgOperation" + "." + name
    requires forall k | 0 <= k < |a| :: SameButNetwork(a[k], b[k])
    ensures Reaches(a, i, q) <==> Reaches(b, i, q)
    decreases i
  {
    ReachesStep(a, i, q);
    ReachesStep(b, i, q);
    ScopeOfName("OrgOperation", name, a[i]);
    ScopeOfName("OrgOperation", name, b[i]);
    forall p | p in a[i].inheritOrg && Latest(a, i, p) >= 0
      ensures Latest(b, i, p) == Latest(a, i, p)
      ensures Reaches(a, Latest(a, i, p), q) <==> Reaches(b, Latest(a, i, p), q)
    {
      SameLatest(a, b, i, p);
      SameReach(a, b, Latest(a, i, p), q, name);
    }
    forall p | p in a[i].inheritOrg ensures Latest(b, i, p) == Latest(a, i, p) {
      SameLatest(a, b, i, p);
    }
  }
}
