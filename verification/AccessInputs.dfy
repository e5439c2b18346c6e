/** Inputs the program accepts at which an access table does not do what one might expect (access.go). */
module AccessInputs {
  import opened AccessTable
  import opened AccessTableJson
  import opened AccessDecision
  import opened AccessLoading
  import opened RoleInheritance
  import opened Sorting
  import LowestRole

  const EDIT_LINE: Line := Line("EDIT", true, "BASE")
  const VIEW_LINE: Line := Line("VIEW", false, "BASE")
  const EDIT: Operation := OperationOf(NETWORK, EDIT_LINE)
  const VIEW: Operation := OperationOf(ORG, VIEW_LINE)
  const EDIT_NAME: string := Qualified(EDIT)
  const VIEW_NAME: string := Qualified(VIEW)
  const OPS: map<string, Operation> := map[EDIT_NAME := EDIT, VIEW_NAME := VIEW]
  const AUDITOR: string := "AUDITOR"

  // ----- A checkout -----

  function RoleAt(i: nat): string {
    if i < |LADDER| then LADDER[i] else AUDITOR
  }

  /** The ladder's roles and an auditor, inheriting nothing; the first `holders` of them own the operation. */
  function Blocks(holders: nat): seq<Block> {
    seq(6, i requires 0 <= i < 6 => Block(RoleAt(i), if i < holders then {VIEW_NAME} else {}, {}, {}))
  }

  lemma RolesAreDistinct()
    ensures forall i, j | 0 <= i < j < 6 :: RoleAt(i) != RoleAt(j)
  {
    LowestRole.LadderNames();
    assert |LADDER[0]| == 17 && |LADDER[1]| == 9 && |LADDER[2]| == 8 && |LADDER[3]| == 18 && |LADDER[4]| == 5;
    assert |AUDITOR| == 7;
  }

  lemma BlocksParse(holders: nat)
    ensures ParseRoles(OPS, Blocks(holders)).Ok?
  {
    var blocks := Blocks(holders);
    forall i | 0 <= i < 6 ensures !RoleInheritance.Refused(OPS, blocks, i) {
      assert Parents(blocks[i]) == {};
    }
    forall role | role in LADDER ensures exists i :: 0 <= i < 6 && blocks[i].name == role {
      var i :| 0 <= i < |LADDER| && LADDER[i] == role;
      assert blocks[i].name == role;
    }
    ParseFailsExactly(OPS, blocks);
  }

  lemma LatestIsOnly(holders: nat, i: nat)
    requires i < 6
    ensures Latest(Blocks(holders), 6, RoleAt(i)) == i
  {
    RolesAreDistinct();
    LatestExactly(Blocks(holders), 6, RoleAt(i));
    var j := Latest(Blocks(holders), 6, RoleAt(i));
    assert Blocks(holders)[i].name == RoleAt(i) && Blocks(holders)[j].name == RoleAt(j);
  }

  /** Each role holds the operation exactly when it is among the holders. */
  lemma RolesHold(holders: nat, i: nat)
    requires i < 6
    ensures ParseRoles(OPS, Blocks(holders)).Ok?
    ensures var roles := ParseRoles(OPS, Blocks(holders)).value;
            RoleAt(i) in roles && roles[RoleAt(i)] == if i < holders then {VIEW_NAME} else {}
  {
    var blocks := Blocks(holders);
    BlocksParse(holders);
    var roles := ParseRoles(OPS, blocks).value;
    PassCloses(OPS, blocks, 6);
    LatestIsOnly(holders, i);
    PassWithin(OPS, blocks, 6);
    forall q ensures q in roles[RoleAt(i)] <==> q in blocks[i].own {
      ReachesStep(blocks, i, q);
      assert ParentsFor(blocks[i], q) == {};
    }
  }

  lemma NamesDiffer()
    ensures EDIT_NAME != VIEW_NAME && Less(EDIT_NAME, VIEW_NAME)
  {
    assert EDIT_NAME[0] == 'N' && VIEW_NAME[0] == 'O';
  }

  lemma OpsAreExtracted()
    ensures OperationTables([EDIT_LINE], [VIEW_LINE]) == OPS && Extracted(OPS)
  {
    NamesDiffer();
    assert Filled(map[], NETWORK, []) == map[];
    assert Filled(map[], NETWORK, [EDIT_LINE]) == map[EDIT_NAME := EDIT];
    var net := map[EDIT_NAME := EDIT];
    assert Filled(net, ORG, []) == net;
    assert Filled(net, ORG, [VIEW_LINE]) == net[VIEW_NAME := VIEW];
  }

  /** One network and one org operation, and these blocks. */
  function Sourced(holders: nat): FromCheckout {
    FromSource("", [EDIT_LINE], [VIEW_LINE], Blocks(holders))
  }

  lemma SourcedIs(holders: nat)
    ensures ParseRoles(OPS, Blocks(holders)).Ok? && Sourced(holders).Read?
    ensures Sourced(holders).table ==
              LowestRole.SetLowestRoles(Table("", OPS, ParseRoles(OPS, Blocks(holders)).value))
  {
    OpsAreExtracted();
    BlocksParse(holders);
  }

  /** A ladder that is not cumulative is accepted, and then the lowest role misleads: the bottom role alone declares the
      operation, the next one up does not hold it, and yet compares as high enough. */
  lemma LadderMayNotBeCumulative()
    ensures Sourced(1).Read? && VIEW_NAME in Sourced(1).table.ops
    ensures var t := Sourced(1).table;
            !Holds(t, LADDER[1], VIEW_NAME) && NetworkRoleAtLeast(LADDER[1], t.ops[VIEW_NAME].lowestRole) == Yes
  {
    SourcedIs(1);
    OpsAreExtracted();
    RolesHold(1, 0);
    RolesHold(1, 1);
    var t := Table("", OPS, ParseRoles(OPS, Blocks(1)).value);
    assert Holds(t, LADDER[0], VIEW_NAME);
    assert LowestRole.FirstHolder(t, VIEW_NAME, 0) == 0;
    LowestRole.SaysAtOrAboveFirst(t, 1, VIEW_NAME);
  }

  // ----- Its JSON copy -----

  function LadderLists(): map<string, seq<string>> {
    map role | role in LADDER :: [VIEW_NAME]
  }

  function Copy(edit: Operation, view: Operation): Document {
    Document("", [edit, view], LadderLists())
  }

  /** The copy of a table of the two operations. */
  function CopyOf(t: Table): Document
    requires EDIT_NAME in t.ops && VIEW_NAME in t.ops
  {
    Copy(t.ops[EDIT_NAME], t.ops[VIEW_NAME])
  }

  lemma OneListed(q: string)
    ensures Lists([q], {q})
  {
  }

  /** Every ladder role holds the operation. */
  function AllHold(): Roles {
    BlocksParse(5);
    ParseRoles(OPS, Blocks(5)).value
  }

  lemma OnlyTheseRoles(role: string)
    ensures var roles := AllHold(); role in roles <==> role in LADDER || role == AUDITOR
  {
    var blocks := Blocks(5);
    BlocksParse(5);
    PassCloses(OPS, blocks, 6);
    LatestExactly(blocks, 6, role);
    if role in LADDER {
      var i :| 0 <= i < |LADDER| && LADDER[i] == role;
      assert blocks[i].name == role;
    }
    assert blocks[5].name == AUDITOR;
    assert forall i | 0 <= i < 5 :: blocks[i].name in LADDER;
  }

  lemma CopyIsWritten()
    ensures Sourced(5).Read? && EDIT_NAME in Sourced(5).table.ops && VIEW_NAME in Sourced(5).table.ops
    ensures IsDocumentOf(CopyOf(Sourced(5).table), Sourced(5).table)
  {
    SourcedIs(5);
    TwoOperations(AllHold());
    assert Sourced(5).table.roles == AllHold();
    IsWritten(Sourced(5).table);
  }

  lemma IsWritten(t: Table)
    requires t.source == "" && t.roles == AllHold() && t.ops.Keys == {EDIT_NAME, VIEW_NAME}
    requires Qualified(t.ops[EDIT_NAME]) == EDIT_NAME && Qualified(t.ops[VIEW_NAME]) == VIEW_NAME
    ensures IsDocumentOf(CopyOf(t), t)
  {
    NamesDiffer();
    BothListed(t);
    var d := CopyOf(t);
    forall role
      ensures role in d.roles <==> role in t.roles && t.roles[role] != {}
      ensures role in d.roles ==> Lists(d.roles[role], t.roles[role])
    {
      RoleListed(role);
    }
    AreWritten(d, t);
  }

  lemma TwoOperations(roles: Roles)
    ensures var ops := LowestRole.SetLowestRoles(Table("", OPS, roles)).ops;
            && ops.Keys == {EDIT_NAME, VIEW_NAME}
            && Qualified(ops[EDIT_NAME]) == EDIT_NAME && Qualified(ops[VIEW_NAME]) == VIEW_NAME
  {
  }

  lemma AreWritten(d: Document, t: Table)
    requires t.ops.Keys == {EDIT_NAME, VIEW_NAME} && Lists(Keys(d.operations), t.ops.Keys) && d.source == t.source
    requires d.operations == [t.ops[EDIT_NAME], t.ops[VIEW_NAME]]
    requires Qualified(t.ops[EDIT_NAME]) == EDIT_NAME && Qualified(t.ops[VIEW_NAME]) == VIEW_NAME
    requires forall role :: role in d.roles <==> role in t.roles && t.roles[role] != {}
    requires forall role | role in d.roles :: Lists(d.roles[role], t.roles[role])
    ensures IsDocumentOf(d, t)
  {
  }

  lemma RoleListed(role: string)
    ensures role in LadderLists() <==> role in AllHold() && AllHold()[role] != {}
    ensures role in LadderLists() ==> Lists(LadderLists()[role], AllHold()[role])
  {
    OneListed(VIEW_NAME);
    RolesHold(5, 5);
    OnlyTheseRoles(role);
    LadderHolds(role);
  }

  lemma BothListed(t: Table)
    requires t.ops.Keys == {EDIT_NAME, VIEW_NAME} && Less(EDIT_NAME, VIEW_NAME)
    requires Qualified(t.ops[EDIT_NAME]) == EDIT_NAME && Qualified(t.ops[VIEW_NAME]) == VIEW_NAME
    ensures Lists(Keys(CopyOf(t).operations), t.ops.Keys)
  {
    assert Keys(CopyOf(t).operations) == [EDIT_NAME, VIEW_NAME];
  }

  lemma LadderHolds(role: string)
    ensures var roles := AllHold(); role in LADDER ==> role in roles && roles[role] == {VIEW_NAME}
  {
    if role in LADDER {
      var i :| 0 <= i < |LADDER| && LADDER[i] == role;
      RolesHold(5, i);
    }
  }

  const AUDITOR_SESSION: SessionRoles := SessionRoles([], [], map["n" := AUDITOR], [])

  /** A role that declares no operation is lost in a JSON copy, and its session's No becomes Unknown. */
  lemma EmptyRoleIsLost()
    ensures Sourced(5).Read? && EDIT_NAME in Sourced(5).table.ops && VIEW_NAME in Sourced(5).table.ops
    ensures var (t, d) := (Sourced(5).table, CopyOf(Sourced(5).table));
            && IsDocumentOf(d, t) && Load(d).Ok? && Load(d).table != t
            && Decide(t, AUDITOR_SESSION, false, VIEW, "") == No
            && Decide(Load(d).table, AUDITOR_SESSION, false, VIEW, "") == Unknown
  {
    CopyIsWritten();
    OpsAreExtracted();
    SourcedIs(5);
    ParsedTable("", OPS, Blocks(5));
    var (t, d) := (Sourced(5).table, CopyOf(Sourced(5).table));
    RolesHold(5, 5);
    forall role | role in LADDER ensures role in t.roles && t.roles[role] != {} {
      LadderHolds(role);
    }
    RoundTripExactly(d, t);
    LoadOfWritten(d, t);
    AuditorIsDenied(t);
    assert "n" in Relevant(AUDITOR_SESSION, VIEW, "");
    assert EmptyRoleCounts(t, AUDITOR_SESSION, VIEW, "");
    CopyDiffersExactly(d, t, AUDITOR_SESSION, false, VIEW, "");
  }

  lemma AuditorName()
    ensures Fold(AUDITOR) == AUDITOR && !Blank(AUDITOR)
  {
    LowestRole.FoldStays(AUDITOR);
    assert Fold("") == "";
  }

  lemma AuditorIsDenied(t: Table)
    requires AUDITOR in t.roles && t.roles[AUDITOR] == {}
    ensures Decide(t, AUDITOR_SESSION, false, VIEW, "") == No
    ensures KnownEmpty(t, AUDITOR) && !Blank(AUDITOR)
  {
    AuditorName();
    var r := AUDITOR_SESSION;
    assert r.network["n"] == AUDITOR && r.network.Keys == {"n"};
    assert !OutOfModel(r, false) && !OrgGrants(r, VIEW);
    assert !NetworkGrants(t, r, VIEW, "");
    assert !SomethingUnknown(t, r, VIEW, "");
  }

  // ----- A nameless role -----

  function NamelessCopy(): Document {
    Copy(EDIT, VIEW).(roles := LadderLists()["" := [VIEW_NAME]])
  }

  lemma CopiesLoad()
    ensures Load(Copy(EDIT, VIEW)).Ok? && Load(NamelessCopy()).Ok?
    ensures var (t, u) := (Load(Copy(EDIT, VIEW)).table, Load(NamelessCopy()).table);
            Extends(t, u) && AddsBlankGrant(t, u, VIEW)
  {
    NamesDiffer();
    var both := [EDIT, VIEW];
    assert LoadOperations(both, 0) == Operations(map[]);
    assert LoadOperations(both, 1) == Operations(map[EDIT_NAME := EDIT]);
    assert LoadOperations(both, 2) == Operations(map[EDIT_NAME := EDIT][VIEW_NAME := VIEW]);
    assert LADDER[0] in LADDER && LADDER[0] in LadderLists();
    assert "" !in LADDER;
    assert VIEW_NAME in [VIEW_NAME];
  }

  /** A JSON table may name a role with the empty name; it flips the No of a session with a blank network role to Yes.
      */
  lemma NamelessRoleFlips()
    ensures Load(Copy(EDIT, VIEW)).Ok? && Load(NamelessCopy()).Ok?
    ensures var (t, u) := (Load(Copy(EDIT, VIEW)).table, Load(NamelessCopy()).table);
            && Extends(t, u)
            && Decide(t, BLANK_SESSION, false, VIEW, "") == No && Decide(u, BLANK_SESSION, false, VIEW, "") == Yes
  {
    CopiesLoad();
    BlankGrantFlips(Load(Copy(EDIT, VIEW)).table, Load(NamelessCopy()).table, VIEW);
  }
}
