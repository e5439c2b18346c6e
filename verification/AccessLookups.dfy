/** The ladder and the lookup of an operation by their names (access.go). */
module AccessLookups {
  import opened AccessTable
  import GoBytes

  /** How high a network role stands, by its name in capitals; 0 for a name that is not on the ladder. */
  function Rank(name: string): nat {
    match name
    case "LIMITED_READ_ONLY" => 1
    case "READ_ONLY" => 2
    case "OPERATOR" => 3
    case "WORKSPACE_OPERATOR" => 4
    case "ADMIN" => 5
    case _ => 0
  }

  lemma RankAt(i: nat)
    requires i < |LADDER|
    ensures Rank(LADDER[i]) == i + 1
  {
  }

  lemma RankedIsListed(name: string)
    ensures Rank(name) > 0 ==> name in LADDER
  {
    LadderIsFive(name);
  }

  lemma IndexIsRank(role: string)
    ensures LadderIndex(role) == Rank(Fold(role)) - 1
  {
    RankedIsListed(Fold(role));
    if LadderIndex(role) >= 0 {
      RankAt(LadderIndex(role));
    }
  }

  /** A role is at least another exactly when both are on the ladder and it stands as high. */
  lemma AtLeastExactly(have: string, want: string)
    ensures var (h, w) := (Rank(Fold(have)), Rank(Fold(want)));
            NetworkRoleAtLeast(have, want) == if h == 0 || w == 0 then Unknown else if h >= w then Yes else No
  {
    IndexIsRank(have);
    IndexIsRank(want);
  }

  /** Why a lookup in a well-formed table fails: a bare name both scopes have is ambiguous, anything else is unknown. */
  lemma FindFailsExactly(t: Table, text: string)
    requires WellFormed(t)
    ensures var (name, r) := (GoBytes.TrimSpace(text), FindOperation(t, text));
            if '.' in name then r.Failed? <==> name !in t.ops
            else
              var (net, org) := ("NetworkOperation." + name in t.ops, "OrgOperation." + name in t.ops);
              && (r == Failed(Ambiguous) <==> net && org)
              && (r.Failed? <==> net == org)
    ensures FindOperation(t, text).Failed? ==> FindOperation(t, text).error in {Ambiguous, NoSuchOperation}
    ensures '.' in GoBytes.TrimSpace(text) ==> FindOperation(t, text) != Failed(Ambiguous)
  {
    var name := GoBytes.TrimSpace(text);
    if '.' !in name {
      BareName(t, name, Operation("", "", false, "", ""));
    }
  }
}
