/** `setLowestRoles` (access.go): the compressed form of the ladder's part of the table, and when it says the same. */
module LowestRole {
  import opened AccessTable
  import GoBytes

  /** The first ladder role from `i` on that holds `q`, |LADDER| when none does. */
  function FirstHolder(t: Table, q: string, i: nat): (k: nat)
    requires i <= |LADDER|
    ensures i <= k <= |LADDER|
    ensures forall j | i <= j < k :: !Holds(t, LADDER[j], q)
    ensures k < |LADDER| ==> Holds(t, LADDER[k], q)
    decreases |LADDER| - i
  {
    if i == |LADDER| || Holds(t, LADDER[i], q) then i else FirstHolder(t, q, i + 1)
  }

  /** An operation with its lowest role filled in; one no ladder role holds is left as it was. */
  function WithLowest(t: Table, q: string): Operation
    requires q in t.ops
  {
    var k := FirstHolder(t, q, 0);
    if k == |LADDER| then t.ops[q] else t.ops[q].(lowestRole := LADDER[k])
  }

  function SetLowestRoles(t: Table): Table {
    t.(ops := map q | q in t.ops :: WithLowest(t, q))
  }

  method FillLowestRoles(t: Table) returns (r: Table)
    ensures r == SetLowestRoles(t)
  {
    var ops, todo := t.ops, t.ops.Keys;
    while todo != {}
      invariant todo <= t.ops.Keys == ops.Keys
      invariant forall q | q in t.ops :: ops[q] == if q in todo then t.ops[q] else WithLowest(t, q)
      decreases |todo|
    {
      var q :| q in todo;
      var op := FillLowest(t, q);
      ops, todo := ops[q := op], todo - {q};
    }
    return t.(ops := ops);
  }

  /** The loop up the ladder for one operation. */
  method FillLowest(t: Table, q: string) returns (op: Operation)
    requires q in t.ops
    ensures op == WithLowest(t, q)
  {
    op := t.ops[q];
    for k := 0 to |LADDER|
      invariant op == t.ops[q] && FirstHolder(t, q, k) == FirstHolder(t, q, 0)
    {
      if Holds(t, LADDER[k], q) {
        op := op.(lowestRole := LADDER[k]);
        return;
      }
    }
  }

  // ----- What the compressed form says -----

  lemma {:induction false} UpperStays(s: string)
    requires forall i | 0 <= i < |s| :: s[i] as int < 128 && !('a' <= s[i] <= 'z')
    ensures ToUpper(s) == s
  {
    if s == "" {
    } else {
      assert s == [s[0]] + s[1..];
      UpperStays(s[1..]);
    }
  }

  predicate RoleName(s: string) {
    forall c | c in s :: 'A' <= c <= 'Z' || c == '_'
  }

  lemma FoldStays(s: string)
    requires RoleName(s)
    ensures Fold(s) == s
  {
    GoBytes.NoSpaceToTrim(s);
    assert forall i | 0 <= i < |s| :: s[i] in s;
    UpperStays(s);
  }

  lemma LadderNames()
    ensures forall i | 0 <= i < |LADDER| :: RoleName(LADDER[i])
    ensures forall i, j | 0 <= i < j < |LADDER| :: LADDER[i] != LADDER[j]
  {
    assert |LADDER[0]| == 17 && |LADDER[1]| == 9 && |LADDER[2]| == 8 && |LADDER[3]| == 18 && |LADDER[4]| == 5;
  }

  /** Comparing two ladder roles compares their places; the empty name is below nothing and above nothing. */
  lemma LadderComparison(i: nat, j: nat)
    requires i < |LADDER| && j < |LADDER|
    ensures NetworkRoleAtLeast(LADDER[i], LADDER[j]) == if i >= j then Yes else No
    ensures NetworkRoleAtLeast(LADDER[i], "") == Unknown
  {
    LadderNames();
    FoldStays(LADDER[i]);
    FoldStays(LADDER[j]);
    FoldStays("");
    assert "" !in LADDER;
  }

  /** Each ladder role holds what the one below it holds. */
  predicate Monotone(t: Table) {
    forall i, j, q | 0 <= i <= j < |LADDER| && q in t.ops && Holds(t, LADDER[i], q) :: Holds(t, LADDER[j], q)
  }

  /** As `LoadAccessTable` leaves the operations before this pass. */
  predicate NoLowestYet(t: Table) {
    forall q | q in t.ops :: t.ops[q].lowestRole == ""
  }

  predicate Says(t: Table, i: nat, q: string)
    requires i < |LADDER| && q in t.ops
  {
    NetworkRoleAtLeast(LADDER[i], SetLowestRoles(t).ops[q].lowestRole) == Yes
  }

  lemma SaysAtOrAboveFirst(t: Table, i: nat, q: string)
    requires i < |LADDER| && q in t.ops && NoLowestYet(t)
    ensures Says(t, i, q) <==> FirstHolder(t, q, 0) <= i
  {
    var k := FirstHolder(t, q, 0);
    LadderComparison(i, if k < |LADDER| then k else 0);
  }

  predicate Faithful(t: Table) {
    forall i, q | 0 <= i < |LADDER| && q in t.ops :: Holds(t, LADDER[i], q) <==> Says(t, i, q)
  }

  lemma MonotoneIsFaithful(t: Table)
    requires NoLowestYet(t) && Monotone(t)
    ensures Faithful(t)
  {
    forall i, q | 0 <= i < |LADDER| && q in t.ops ensures Holds(t, LADDER[i], q) <==> Says(t, i, q) {
      SaysAtOrAboveFirst(t, i, q);
      var k := FirstHolder(t, q, 0);
      if k <= i {
        assert Holds(t, LADDER[k], q);
      }
    }
  }

  lemma FaithfulIsMonotone(t: Table)
    requires NoLowestYet(t) && Faithful(t)
    ensures Monotone(t)
  {
    forall i, j, q | 0 <= i <= j < |LADDER| && q in t.ops && Holds(t, LADDER[i], q) ensures Holds(t, LADDER[j], q) {
      SaysAtOrAboveFirst(t, i, q);
      SaysAtOrAboveFirst(t, j, q);
      assert Says(t, i, q) && Says(t, j, q);
    }
  }

  /** The lowest role is a faithful compression exactly when the ladder is cumulative: then, and only then, every ladder
      role holds an operation if and only if it is at least the operation's lowest role. */
  lemma FaithfulExactly(t: Table)
    requires NoLowestYet(t)
    ensures Monotone(t) <==> Faithful(t)
  {
    if Monotone(t) {
      MonotoneIsFaithful(t);
    } else if Faithful(t) {
      FaithfulIsMonotone(t);
    }
  }

  /** It is empty exactly when no ladder role holds the operation, and otherwise names the lowest that does. */
  lemma LowestExactly(t: Table, q: string)
    requires NoLowestYet(t) && q in t.ops
    ensures var lowest := SetLowestRoles(t).ops[q].lowestRole;
            && (lowest == "" <==> forall i | 0 <= i < |LADDER| :: !Holds(t, LADDER[i], q))
            && (lowest != "" ==>
                  exists k | 0 <= k < |LADDER| ::
                    lowest == LADDER[k] && Holds(t, LADDER[k], q) && forall i | 0 <= i < k :: !Holds(t, LADDER[i], q))
  {
    var k := FirstHolder(t, q, 0);
    assert "" !in LADDER;
    if k < |LADDER| {
      assert LADDER[k] in LADDER;
      assert SetLowestRoles(t).ops[q].lowestRole == LADDER[k];
    }
  }
}
