/** `parseRoles` from the extracted blocks on (access.go): one pass in declaration order closes each role's operations
    under inheritance, separately for the two scopes. */
module RoleInheritance {
  import opened AccessTable

  /** A role as declared: its own operations, and the roles whose operations of each scope it inherits. */
  datatype Block = Block(name: string, own: set<string>, inheritOrg: set<string>, inheritNet: set<string>)

  type Roles = map<string, set<string>>

  datatype Error = NoRoles | UnknownOperation | NotDeclaredBefore | MissingLadderRole

  datatype Result<+T> = Ok(value: T) | Err(error: Error)

  predicate IsOrg(q: string) {
    "OrgOperation." <= q
  }

  predicate IsNet(q: string) {
    "NetworkOperation." <= q
  }

  function Parents(b: Block): set<string> {
    b.inheritOrg + b.inheritNet
  }

  /** The roles a block inherits this operation from, when they hold it. */
  function ParentsFor(b: Block, q: string): set<string> {
    (if IsOrg(q) then b.inheritOrg else {}) + (if IsNet(q) then b.inheritNet else {})
  }

  // ----- The pass -----

  predicate InScope(org: bool, q: string) {
    if org then IsOrg(q) else IsNet(q)
  }

  /** The operations of one scope that these parents hold. */
  function Inherited(roles: Roles, parents: set<string>, org: bool): set<string> {
    set p, q | p in parents && p in roles && q in roles[p] && InScope(org, q) :: q
  }

  predicate Declared(roles: Roles, parents: set<string>) {
    forall p | p in parents :: p in roles
  }

  function RoleSet(ops: map<string, Operation>, roles: Roles, b: Block): Result<set<string>> {
    if exists q | q in b.own :: q !in ops then Err(UnknownOperation)
    else if !Declared(roles, b.inheritOrg) || !Declared(roles, b.inheritNet) then Err(NotDeclaredBefore)
    else Ok(b.own + Inherited(roles, b.inheritOrg, true) + Inherited(roles, b.inheritNet, false))
  }

  /** The roles after the first `n` blocks. A later block of the same name replaces the earlier one's entry. */
  function Pass(ops: map<string, Operation>, blocks: seq<Block>, n: nat): Result<Roles>
    requires n <= |blocks|
  {
    if n == 0 then Ok(map[])
    else
      match Pass(ops, blocks, n - 1)
      case Err(e) => Err(e)
      case Ok(roles) =>
        match RoleSet(ops, roles, blocks[n - 1])
        case Err(e) => Err(e)
        case Ok(held) => Ok(roles[blocks[n - 1].name := held])
  }

  function ParseRoles(ops: map<string, Operation>, blocks: seq<Block>): Result<Roles> {
    if blocks == [] then Err(NoRoles)
    else
      match Pass(ops, blocks, |blocks|)
      case Err(e) => Err(e)
      case Ok(roles) => if exists role | role in LADDER :: role !in roles then Err(MissingLadderRole) else Ok(roles)
  }

  // ----- The pass as written: loops over blocks, operations and parents, in any order -----

  method AddInherited(roles: Roles, parents: set<string>, org: bool, held: set<string>) returns (r: Result<set<string>>)
    ensures r == if Declared(roles, parents) then Ok(held + Inherited(roles, parents, org)) else Err(NotDeclaredBefore)
  {
    var todo, out := parents, held;
    while todo != {}
      invariant todo <= parents && Declared(roles, parents - todo)
      invariant out == held + Inherited(roles, parents - todo, org)
      decreases |todo|
    {
      var parent :| parent in todo;
      if parent !in roles {
        return Err(NotDeclaredBefore);
      }
      var more := set q | q in roles[parent] && InScope(org, q);
      assert Inherited(roles, parents - (todo - {parent}), org) == Inherited(roles, parents - todo, org) + more;
      out, todo := out + more, todo - {parent};
    }
    assert parents - todo == parents;
    return Ok(out);
  }

  /** The body of the loop over blocks. */
  method CloseBlock(ops: map<string, Operation>, roles: Roles, b: Block) returns (r: Result<set<string>>)
    ensures r == RoleSet(ops, roles, b)
  {
    var held, todo := {}, b.own;
    while todo != {}
      invariant todo <= b.own && held == b.own - todo
      invariant forall q | q in held :: q in ops
      decreases |todo|
    {
      var q :| q in todo;
      if q !in ops {
        return Err(UnknownOperation);
      }
      held, todo := held + {q}, todo - {q};
    }
    assert held == b.own;
    var withOrg := AddInherited(roles, b.inheritOrg, true, held);
    if withOrg.Err? {
      return withOrg;
    }
    r := AddInherited(roles, b.inheritNet, false, withOrg.value);
  }

  method Parse(ops: map<string, Operation>, blocks: seq<Block>) returns (r: Result<Roles>)
    ensures r == ParseRoles(ops, blocks)
  {
    if blocks == [] {
      return Err(NoRoles);
    }
    var roles: Roles := map[];
    for n := 0 to |blocks|
      invariant Pass(ops, blocks, n) == Ok(roles)
    {
      var held := CloseBlock(ops, roles, blocks[n]);
      if held.Err? {
        PassFails(ops, blocks, n + 1);
        return Err(held.error);
      }
      roles := roles[blocks[n].name := held.value];
    }
    for k := 0 to |LADDER|
      invariant forall i | 0 <= i < k :: LADDER[i] in roles
    {
      if LADDER[k] !in roles {
        return Err(MissingLadderRole);
      }
    }
    return Ok(roles);
  }

  lemma {:induction false} PassFails(ops: map<string, Operation>, blocks: seq<Block>, n: nat)
    requires n <= |blocks| && Pass(ops, blocks, n).Err?
    ensures Pass(ops, blocks, |blocks|) == Err(Pass(ops, blocks, n).error)
    decreases |blocks| - n
  {
    if n == |blocks| {
    } else {
      PassFails(ops, blocks, n + 1);
    }
  }

  // ----- What the pass computes -----

  /** The last of the first `n` blocks with this name, -1 when none has it. */
  function Latest(blocks: seq<Block>, n: nat, name: string): (i: int)
    requires n <= |blocks|
    ensures -1 <= i < n
    ensures i >= 0 ==> blocks[i].name == name
  {
    if n == 0 then -1
    else if blocks[n - 1].name == name then n - 1
    else Latest(blocks, n - 1, name)
  }

  /** One inheritance edge for operation `q`: block `i` names a parent of that scope, and `j` is the block that name
      stands for where `i` is declared. */
  predicate Edge(blocks: seq<Block>, i: nat, j: nat, q: string)
    requires i < |blocks|
  {
    exists p | p in ParentsFor(blocks[i], q) :: Latest(blocks, i, p) == j
  }

  /** A chain of inheritance edges for `q` that ends in a block declaring it. */
  predicate Chain(blocks: seq<Block>, c: seq<nat>, q: string) {
    && c != [] && c[0] < |blocks|
    && (if |c| == 1 then q in blocks[c[0]].own
        else Edge(blocks, c[0], c[1], q) && Chain(blocks, c[1..], q))
  }

  ghost predicate Reaches(blocks: seq<Block>, i: int, q: string) {
    exists c: seq<nat> :: c != [] && c[0] == i && Chain(blocks, c, q)
  }

  lemma ReachesStep(blocks: seq<Block>, i: nat, q: string)
    requires i < |blocks|
    ensures Reaches(blocks, i, q) <==>
              || q in blocks[i].own
              || exists p | p in ParentsFor(blocks[i], q) ::
                Latest(blocks, i, p) >= 0 && Reaches(blocks, Latest(blocks, i, p), q)
  {
    if q in blocks[i].own {
      assert Chain(blocks, [i], q);
    }
    forall p | p in ParentsFor(blocks[i], q) && Latest(blocks, i, p) >= 0 && Reaches(blocks, Latest(blocks, i, p), q)
      ensures Reaches(blocks, i, q)
    {
      var c: seq<nat> :| c != [] && c[0] == Latest(blocks, i, p) && Chain(blocks, c, q);
      assert ([i] + c)[1..] == c;
      assert Chain(blocks, [i] + c, q);
    }
    if Reaches(blocks, i, q) && q !in blocks[i].own {
      var c: seq<nat> :| c != [] && c[0] == i && Chain(blocks, c, q);
      assert Chain(blocks, c[1..], q);
      var p :| p in ParentsFor(blocks[i], q) && Latest(blocks, i, p) == c[1];
      assert Reaches(blocks, Latest(blocks, i, p), q);
    }
  }

  /** After `n` blocks the roles are those declared so far, each holding what its latest block reaches. */
  ghost predicate Closed(blocks: seq<Block>, n: nat, roles: Roles)
    requires n <= |blocks|
  {
    && (forall name :: name in roles <==> Latest(blocks, n, name) >= 0)
    && (forall name, q | name in roles :: q in roles[name] <==> Reaches(blocks, Latest(blocks, n, name), q))
  }

  lemma InheritedExactly(ops: map<string, Operation>, roles: Roles, b: Block, q: string)
    requires RoleSet(ops, roles, b).Ok?
    ensures forall p | p in ParentsFor(b, q) :: p in roles
    ensures q in RoleSet(ops, roles, b).value <==> q in b.own || exists p | p in ParentsFor(b, q) :: q in roles[p]
  {
    var held := RoleSet(ops, roles, b).value;
    forall p | p in ParentsFor(b, q) && q in roles[p]
      ensures q in held
    {
      if IsOrg(q) && p in b.inheritOrg {
        assert InScope(true, q) && q in Inherited(roles, b.inheritOrg, true);
      } else {
        assert p in b.inheritNet && InScope(false, q) && q in Inherited(roles, b.inheritNet, false);
      }
    }
    if q in Inherited(roles, b.inheritOrg, true) {
      var p :| p in b.inheritOrg && p in roles && q in roles[p] && InScope(true, q);
      assert p in ParentsFor(b, q);
    }
    if q in Inherited(roles, b.inheritNet, false) {
      var p :| p in b.inheritNet && p in roles && q in roles[p] && InScope(false, q);
      assert p in ParentsFor(b, q);
    }
  }

  lemma BlockReaches(ops: map<string, Operation>, blocks: seq<Block>, n: nat, roles: Roles, q: string)
    requires n < |blocks| && Closed(blocks, n, roles) && RoleSet(ops, roles, blocks[n]).Ok?
    ensures q in RoleSet(ops, roles, blocks[n]).value <==> Reaches(blocks, n, q)
  {
    InheritedExactly(ops, roles, blocks[n], q);
    ReachesStep(blocks, n, q);
  }

  lemma ClosedStep(blocks: seq<Block>, n: nat, before: Roles, held: set<string>)
    requires n < |blocks| && Closed(blocks, n, before)
    requires forall q :: q in held <==> Reaches(blocks, n, q)
    ensures Closed(blocks, n + 1, before[blocks[n].name := held])
  {
    var after := before[blocks[n].name := held];
    forall name
      ensures name in after <==> Latest(blocks, n + 1, name) >= 0
      ensures name in after ==> forall q :: q in after[name] <==> Reaches(blocks, Latest(blocks, n + 1, name), q)
    {
      if name == blocks[n].name {
        assert Latest(blocks, n + 1, name) == n;
      } else {
        assert Latest(blocks, n + 1, name) == Latest(blocks, n, name);
      }
    }
  }

  lemma {:induction false} PassCloses(ops: map<string, Operation>, blocks: seq<Block>, n: nat)
    requires n <= |blocks| && Pass(ops, blocks, n).Ok?
    ensures Closed(blocks, n, Pass(ops, blocks, n).value)
  {
    if n == 0 {
    } else {
      PassCloses(ops, blocks, n - 1);
      PassStepCloses(ops, blocks, n - 1);
    }
  }

  lemma PassStepCloses(ops: map<string, Operation>, blocks: seq<Block>, n: nat)
    requires n < |blocks| && Pass(ops, blocks, n + 1).Ok?
    requires Pass(ops, blocks, n).Ok? && Closed(blocks, n, Pass(ops, blocks, n).value)
    ensures Closed(blocks, n + 1, Pass(ops, blocks, n + 1).value)
  {
    var before := Pass(ops, blocks, n).value;
    var held := RoleSet(ops, before, blocks[n]).value;
    forall q ensures q in held <==> Reaches(blocks, n, q) {
      BlockReaches(ops, blocks, n, before, q);
    }
    ClosedStep(blocks, n, before, held);
  }

  /** The declaration-order pass computes exactly the inheritance closure: a role holds an operation if and only if some
      chain of inheritance edges of that operation's own scope leads from the role's block to one that declares it. */
  lemma HoldsExactlyWhatIsReachable(ops: map<string, Operation>, blocks: seq<Block>, role: string, q: string)
    requires ParseRoles(ops, blocks).Ok?
    ensures var roles := ParseRoles(ops, blocks).value;
            (role in roles && q in roles[role]) <==> Reaches(blocks, Latest(blocks, |blocks|, role), q)
  {
    PassCloses(ops, blocks, |blocks|);
    if Reaches(blocks, Latest(blocks, |blocks|, role), q) {
      var c: seq<nat> :| c != [] && c[0] == Latest(blocks, |blocks|, role) && Chain(blocks, c, q);
    }
  }

  /** Roles only ever hold operations of the tables. */
  lemma {:induction false} PassWithin(ops: map<string, Operation>, blocks: seq<Block>, n: nat)
    requires n <= |blocks| && Pass(ops, blocks, n).Ok?
    ensures var roles := Pass(ops, blocks, n).value;
            forall role, q | role in roles && q in roles[role] :: q in ops
  {
    if n == 0 {
    } else {
      PassWithin(ops, blocks, n - 1);
    }
  }

  // ----- When it fails -----

  /** A block the pass refuses: it owns an operation the tables do not have, or inherits from a role that no earlier
      block declares. */
  predicate Refused(ops: map<string, Operation>, blocks: seq<Block>, i: nat)
    requires i < |blocks|
  {
    || (exists q | q in blocks[i].own :: q !in ops)
    || (exists p | p in Parents(blocks[i]) :: Latest(blocks, i, p) < 0)
  }

  lemma {:induction false} PassFailsExactly(ops: map<string, Operation>, blocks: seq<Block>, n: nat)
    requires n <= |blocks|
    ensures Pass(ops, blocks, n).Err? <==> exists i | 0 <= i < n :: Refused(ops, blocks, i)
  {
    if n == 0 {
    } else {
      PassFailsExactly(ops, blocks, n - 1);
      if Pass(ops, blocks, n - 1).Ok? {
        PassCloses(ops, blocks, n - 1);
        assert Refused(ops, blocks, n - 1) <==> RoleSet(ops, Pass(ops, blocks, n - 1).value, blocks[n - 1]).Err?;
      }
    }
  }

  /** The parse fails exactly when there is no block, some block is refused, or a ladder role is never declared. */
  lemma ParseFailsExactly(ops: map<string, Operation>, blocks: seq<Block>)
    ensures ParseRoles(ops, blocks).Err? <==>
              || blocks == []
              || (exists i | 0 <= i < |blocks| :: Refused(ops, blocks, i))
              || (exists role | role in LADDER :: forall i | 0 <= i < |blocks| :: blocks[i].name != role)
  {
    PassFailsExactly(ops, blocks, |blocks|);
    if Pass(ops, blocks, |blocks|).Ok? {
      PassCloses(ops, blocks, |blocks|);
      forall role | role in LADDER
        ensures Latest(blocks, |blocks|, role) < 0 <==> forall i | 0 <= i < |blocks| :: blocks[i].name != role
      {
        LatestExactly(blocks, |blocks|, role);
      }
    }
  }

  lemma {:induction false} LatestExactly(blocks: seq<Block>, n: nat, name: string)
    requires n <= |blocks|
    ensures Latest(blocks, n, name) < 0 <==> forall i | 0 <= i < n :: blocks[i].name != name
    ensures forall i | 0 <= i < n && blocks[i].name == name :: i <= Latest(blocks, n, name)
  {
    if n == 0 {
    } else {
      LatestExactly(blocks, n - 1, name);
    }
  }

  // ----- Least fixed point, when no name is declared twice -----

  predicate DistinctNames(blocks: seq<Block>) {
    forall i, j | 0 <= i < j < |blocks| :: blocks[i].name != blocks[j].name
  }

  /** What the declarations of one block demand of `m` at one operation. */
  ghost predicate Demanded(m: string -> iset<string>, b: Block, q: string) {
    q in b.own || exists p | p in ParentsFor(b, q) :: q in m(p)
  }

  /** `m` has everything the declarations demand. */
  ghost predicate PreFixedPoint(blocks: seq<Block>, m: string -> iset<string>) {
    forall i, q | 0 <= i < |blocks| && Demanded(m, blocks[i], q) :: q in m(blocks[i].name)
  }

  lemma {:induction false} ChainWithin(blocks: seq<Block>, c: seq<nat>, q: string, m: string -> iset<string>)
    requires PreFixedPoint(blocks, m) && Chain(blocks, c, q)
    ensures q in m(blocks[c[0]].name)
    decreases |c|
  {
    if |c| > 1 {
      ChainWithin(blocks, c[1..], q, m);
      var p :| p in ParentsFor(blocks[c[0]], q) && Latest(blocks, c[0], p) == c[1];
      assert p == blocks[c[1]].name;
      assert Demanded(m, blocks[c[0]], q);
    } else {
      assert Demanded(m, blocks[c[0]], q);
    }
  }

  /** The parsed roles as a total function, empty where no role is declared. */
  ghost function Meaning(roles: Roles): string -> iset<string> {
    name => if name in roles then iset q | q in roles[name] else iset{}
  }

  /** With distinct names the result is the least fixed point of the declarations: it satisfies each of them with
      equality, and it lies within everything else that satisfies them. */
  lemma LeastFixedPoint(ops: map<string, Operation>, blocks: seq<Block>)
    requires DistinctNames(blocks) && ParseRoles(ops, blocks).Ok?
    ensures var roles := ParseRoles(ops, blocks).value;
            && (forall i, q | 0 <= i < |blocks| :: q in Meaning(roles)(blocks[i].name) <==>
              Demanded(Meaning(roles), blocks[i], q))
            && (forall m, name, q | PreFixedPoint(blocks, m) && q in Meaning(roles)(name) :: q in m(name))
  {
    var roles := ParseRoles(ops, blocks).value;
    forall i, q | 0 <= i < |blocks|
      ensures q in Meaning(roles)(blocks[i].name) <==> Demanded(Meaning(roles), blocks[i], q)
    {
      FixedAt(ops, blocks, i, q);
    }
    forall m, name, q | PreFixedPoint(blocks, m) && q in Meaning(roles)(name)
      ensures q in m(name)
    {
      HoldsExactlyWhatIsReachable(ops, blocks, name, q);
      var c: seq<nat> :| c != [] && c[0] == Latest(blocks, |blocks|, name) && Chain(blocks, c, q);
      ChainWithin(blocks, c, q, m);
    }
  }

  lemma FixedAt(ops: map<string, Operation>, blocks: seq<Block>, i: nat, q: string)
    requires DistinctNames(blocks) && ParseRoles(ops, blocks).Ok? && i < |blocks|
    ensures var m := Meaning(ParseRoles(ops, blocks).value);
            q in m(blocks[i].name) <==> Demanded(m, blocks[i], q)
  {
    var b, n := blocks[i], |blocks|;
    LatestExactly(blocks, n, b.name);
    assert Latest(blocks, n, b.name) == i;
    HoldsExactlyWhatIsReachable(ops, blocks, b.name, q);
    ReachesStep(blocks, i, q);
    PassFailsExactly(ops, blocks, n);
    assert !Refused(ops, blocks, i);
    forall p | p in ParentsFor(b, q)
      ensures Latest(blocks, n, p) == Latest(blocks, i, p) >= 0
    {
      LatestExactly(blocks, i, p);
      LatestExactly(blocks, n, p);
      var j := Latest(blocks, i, p);
      assert blocks[j].name == blocks[Latest(blocks, n, p)].name;
    }
    forall p | p in ParentsFor(b, q)
      ensures q in Meaning(ParseRoles(ops, blocks).value)(p) <==> Reaches(blocks, Latest(blocks, i, p), q)
    {
      HoldsExactlyWhatIsReachable(ops, blocks, p, q);
    }
  }
}
