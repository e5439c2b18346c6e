/** What a deployment is known to support (capabilities.go): the evidence rules as steps over values, and their runs. */
module Capabilities {
  import opened Sorting
  import opened Wrappers

  const UNKNOWN := "unknown"
  const SUPPORTED := "supported"
  const UNSUPPORTED := "unsupported"
  const CONFIGURED := "configured profile"
  const RESPONSE := "successful API response"

  datatype Status = Status(capability: string, support: string, source: string)

  /** The registry's contents. A profile without features (a nil map) is told apart from one with none. */
  datatype State = State(
    track: string, build: string, release: string,
    features: Option<map<string, string>>, status: map<string, Status>)

  function ConfiguredStatus(features: Option<map<string, string>>): map<string, Status> {
    if features.None? then map[]
    else
      var f := features.value;
      map c | c in f :: Status(c, if f[c] == "" then UNKNOWN else f[c], CONFIGURED)
  }

  function Initial(track: string, build: string, release: string, features: Option<map<string, string>>): State {
    State(track, build, release, features, ConfiguredStatus(features))
  }

  /** `Support`: a capability nobody mentioned is unknown. */
  function Entry(s: State, c: string): Status {
    if c in s.status then s.status[c] else Status(c, UNKNOWN, "")
  }

  /** What a registry knows from its profile: the support stated for a capability, unknown when none is, and where it
      comes from. */
  lemma ConfiguredReads(track: string, build: string, release: string, features: map<string, string>, c: string)
    ensures var s := Entry(Initial(track, build, release, Some(features)), c);
            && s.capability == c && (s.support == "unknown" <==> c !in features || features[c] in {"", "unknown"})
            && (c in features && features[c] != "" ==> s.support == features[c])
            && s.source == if c in features then "configured profile" else ""
    ensures Entry(Initial(track, build, release, None), c) == Status(c, "unknown", "")
  {
  }

  /** The profile decided, so evidence does not count. */
  predicate Settled(s: State, c: string) {
    c in s.status && s.status[c].source == CONFIGURED && s.status[c].support != UNKNOWN
  }

  function Observe(s: State, c: string): State {
    if Settled(s, c) then s else s.(status := s.status[c := Status(c, SUPPORTED, RESPONSE)])
  }

  function FirstOf(a: string, b: string): string {
    if a != "" then a else b
  }

  function RecordVersion(s: State, build: string, release: string): State {
    s.(build := FirstOf(s.build, build), release := FirstOf(s.release, release))
  }

  // ----- Runs -----

  /** What any goroutine may do under the write lock. */
  datatype Event = Observed(capability: string) | Versioned(build: string, release: string)

  function Step(s: State, e: Event): State {
    match e
    case Observed(c) => Observe(s, c)
    case Versioned(build, release) => RecordVersion(s, build, release)
  }

  function Run(s: State, events: seq<Event>): State
    decreases |events|
  {
    if events == [] then s else Run(Step(s, events[0]), events[1..])
  }

  lemma {:induction false} RunConcat(s: State, a: seq<Event>, b: seq<Event>)
    ensures Run(s, a + b) == Run(Run(s, a), b)
    decreases |a|
  {
    if a == [] {
      assert a + b == b;
    } else {
      assert (a + b)[0] == a[0] && (a + b)[1..] == a[1..] + b;
      RunConcat(Step(s, a[0]), a[1..], b);
    }
  }

  /** A run's effect on one capability: evidence wins exactly where the profile did not decide. */
  lemma {:induction false} EntryAfter(s: State, events: seq<Event>, c: string)
    ensures Settled(Run(s, events), c) <==> Settled(s, c)
    ensures c in Run(s, events).status <==> c in s.status || Observed(c) in events
    ensures Entry(Run(s, events), c) ==
              if Observed(c) in events && !Settled(s, c) then Status(c, SUPPORTED, RESPONSE) else Entry(s, c)
    decreases |events|
  {
    if events == [] {
    } else {
      var e, rest := events[0], events[1..];
      assert events == [e] + rest;
      EntryAfter(Step(s, e), rest, c);
      assert Observed(c) in events <==> e == Observed(c) || Observed(c) in rest;
      StepEntry(s, e, c);
    }
  }

  lemma StepEntry(s: State, e: Event, c: string)
    ensures Settled(Step(s, e), c) <==> Settled(s, c)
    ensures c in Step(s, e).status <==> c in s.status || e == Observed(c)
    ensures Entry(Step(s, e), c) ==
              if e == Observed(c) && !Settled(s, c) then Status(c, SUPPORTED, RESPONSE) else Entry(s, c)
  {
  }

  /** Only the set of observations matters: not their order, their number, or the versions in between. */
  lemma ObservationsCommute(s: State, a: seq<Event>, b: seq<Event>)
    requires forall c :: Observed(c) in a <==> Observed(c) in b
    ensures Run(s, a).status == Run(s, b).status
  {
    forall c ensures c in Run(s, a).status <==> c in Run(s, b).status {
      EntryAfter(s, a, c);
      EntryAfter(s, b, c);
    }
    forall c | c in Run(s, a).status ensures Run(s, a).status[c] == Run(s, b).status[c] {
      EntryAfter(s, a, c);
      EntryAfter(s, b, c);
      assert Run(s, a).status[c] == Entry(Run(s, a), c);
    }
  }

  /** What is known of a capability after any run from a profile: what the profile says when it decides; and else
      "supported" once a response showed it, "unknown" until then. */
  lemma SupportExactly(track: string, build: string, release: string, features: map<string, string>,
          events: seq<Event>, c: string)
    ensures var s := Entry(Run(Initial(track, build, release, Some(features)), events), c);
            if c in features && features[c] !in {"", "unknown"}
            then s == Status(c, features[c], "configured profile")
            else if Observed(c) in events then s == Status(c, "supported", "successful API response")
            else s == Status(c, "unknown", if c in features then "configured profile" else "")
    ensures var s := Entry(Run(Initial(track, build, release, None), events), c);
            s == if Observed(c) in events then Status(c, "supported", "successful API response")
                 else Status(c, "unknown", "")
  {
    EntryAfter(Initial(track, build, release, Some(features)), events, c);
    EntryAfter(Initial(track, build, release, None), events, c);
  }

  /** From the profile on, support only ever moves from unknown to supported. */
  lemma SupportOnlyGrows(p: State, before: seq<Event>, after: seq<Event>, c: string)
    requires p == Initial(p.track, p.build, p.release, p.features)
    ensures var (x, y) := (Entry(Run(p, before), c).support, Entry(Run(p, before + after), c).support);
            y == x || (x == UNKNOWN && y == SUPPORTED)
  {
    EntryAfter(p, before, c);
    EntryAfter(p, before + after, c);
    assert Observed(c) in before ==> Observed(c) in before + after;
  }

  // ----- The refusal before a request -----

  predicate Refused(s: State, c: string) {
    Entry(s, c).support == UNSUPPORTED
  }

  predicate MarkedUnsupported(features: Option<map<string, string>>, c: string) {
    features.Some? && c in features.value && features.value[c] == UNSUPPORTED
  }

  /** The verdict is the profile's for the whole life of the registry. */
  lemma VerdictNeverChanges(p: State, events: seq<Event>, c: string)
    requires p == Initial(p.track, p.build, p.release, p.features)
    ensures Refused(Run(p, events), c) <==> MarkedUnsupported(p.features, c)
  {
    EntryAfter(p, events, c);
  }

  datatype Unsupported = Unsupported(capability: string, track: string, build: string)

  /** `requireCapability`: the support is read, others take steps, and only then is the profile read. */
  function Require(s: State, between: seq<Event>, c: string): Option<Unsupported> {
    if Refused(s, c) then Some(Unsupported(c, Run(s, between).track, Run(s, between).build)) else None
  }

  /** A request is refused, after any run, exactly when the profile says "unsupported", and the refusal carries the
      capability, the profile's track and the build known when the profile is read. */
  lemma RefusesExactly(track: string, build: string, release: string, features: map<string, string>,
          before: seq<Event>, between: seq<Event>, c: string)
    ensures var s := Run(Initial(track, build, release, Some(features)), before);
            Require(s, between, c) ==
              if c in features && features[c] == "unsupported" then Some(Unsupported(c, track, Run(s, between).build))
              else None
  {
    var p := Initial(track, build, release, Some(features));
    VerdictNeverChanges(p, before, c);
    VersionsStick(p, before);
    VersionsStick(Run(p, before), between);
  }

  /** The two reads act as one, made where the second is; and as one made where the first is exactly when nothing was
      refused, the build was known by then, or no build was learned in between. */
  lemma TwoReadsActAsOne(p: State, before: seq<Event>, between: seq<Event>, c: string)
    requires p == Initial(p.track, p.build, p.release, p.features)
    ensures var s := Run(p, before);
            && Require(s, between, c) == Require(Run(s, between), [], c)
            && (Require(s, between, c) == Require(s, [], c) <==>
                  !MarkedUnsupported(p.features, c) || s.build != "" || FirstBuild(between) == "")
  {
    var s := Run(p, before);
    VerdictNeverChanges(p, before, c);
    VerdictNeverChanges(p, before + between, c);
    RunConcat(p, before, between);
    VersionsStick(s, between);
  }

  // ----- The profile -----

  /** The first build that is not empty. */
  function FirstBuild(events: seq<Event>): string {
    if events == [] then ""
    else if events[0].Versioned? && events[0].build != "" then events[0].build
    else FirstBuild(events[1..])
  }

  function FirstRelease(events: seq<Event>): string {
    if events == [] then ""
    else if events[0].Versioned? && events[0].release != "" then events[0].release
    else FirstRelease(events[1..])
  }

  /** The first build and the first release that are not empty stay, each on its own; track and features never change.
      */
  lemma {:induction false} VersionsStick(s: State, events: seq<Event>)
    ensures Run(s, events).build == FirstOf(s.build, FirstBuild(events))
    ensures Run(s, events).release == FirstOf(s.release, FirstRelease(events))
    ensures Run(s, events).track == s.track && Run(s, events).features == s.features
    decreases |events|
  {
    if events == [] {
    } else {
      VersionsStick(Step(s, events[0]), events[1..]);
    }
  }

  /** The build after any run, by position: the one there was, if any, and else that of the first version recorded with
      one. */
  lemma {:induction false} BuildExactly(s: State, events: seq<Event>, k: nat)
    requires k <= |events| && forall i | 0 <= i < k && events[i].Versioned? :: events[i].build == ""
    ensures s.build != "" ==> Run(s, events).build == s.build
    ensures s.build == "" && k == |events| ==> Run(s, events).build == ""
    ensures s.build == "" && k < |events| && events[k].Versioned? ==>
              events[k].build != "" ==> Run(s, events).build == events[k].build
    decreases |events|
  {
    if events == [] {
    } else {
      BuildExactly(Step(s, events[0]), events[1..], if k == 0 then 0 else k - 1);
    }
  }

  lemma {:induction false} ReleaseExactly(s: State, events: seq<Event>, k: nat)
    requires k <= |events| && forall i | 0 <= i < k && events[i].Versioned? :: events[i].release == ""
    ensures s.release != "" ==> Run(s, events).release == s.release
    ensures s.release == "" && k == |events| ==> Run(s, events).release == ""
    ensures s.release == "" && k < |events| && events[k].Versioned? ==>
              events[k].release != "" ==> Run(s, events).release == events[k].release
    decreases |events|
  {
    if events == [] {
    } else {
      ReleaseExactly(Step(s, events[0]), events[1..], if k == 0 then 0 else k - 1);
    }
  }

  // ----- Listing -----

  function StatusName(x: Status): string { x.capability }

  /** Every entry is filed under its own name. */
  predicate Keyed(status: map<string, Status>) {
    forall c | c in status :: status[c].capability == c
  }

  /** Every status once, in order of name. */
  ghost predicate Listing(list: seq<Status>, status: map<string, Status>) {
    SortedBy(list, StatusName) && Collected(list, status, {})
  }

  /** Each status once, but for the names not yet reached. */
  ghost predicate Collected(list: seq<Status>, status: map<string, Status>, todo: set<string>) {
    forall x :: multiset(list)[x] == if x.capability in status.Keys - todo && status[x.capability] == x then 1 else 0
  }

  /** A listing is determined by the statuses, whatever order the map was walked in. */
  lemma ListingUnique(a: seq<Status>, b: seq<Status>, status: map<string, Status>)
    requires Listing(a, status) && Listing(b, status)
    ensures a == b
  {
    assert multiset(a) == multiset(b);
    forall x, y | x in a && y in a && StatusName(x) == StatusName(y) ensures x == y {
      assert x in multiset(a) && y in multiset(a);
    }
    SortedUnique(a, b, StatusName);
  }

  lemma ListingInOrder(list: seq<Status>, status: map<string, Status>)
    requires Listing(list, status)
    ensures forall i, j | 0 <= i < j < |list| :: Less(list[i].capability, list[j].capability)
    ensures forall x :: x in list <==> x.capability in status && status[x.capability] == x
  {
    forall i, j | 0 <= i < j < |list| ensures Less(list[i].capability, list[j].capability) {
      assert AtMost(StatusName(list[i]), StatusName(list[j]));
      assert list[i] in multiset(list) && list[j] in multiset(list);
      TwiceCounts(list, i, j);
    }
    forall x ensures x in list <==> x.capability in status && status[x.capability] == x {
      assert x in list <==> multiset(list)[x] > 0;
    }
  }

  /** So it is from the profile on. */
  lemma ReachableIsKeyed(p: State, events: seq<Event>)
    requires p == Initial(p.track, p.build, p.release, p.features)
    ensures Keyed(Run(p, events).status)
  {
    RunKeyed(p, events);
  }

  lemma {:induction false} RunKeyed(s: State, events: seq<Event>)
    requires Keyed(s.status)
    ensures Keyed(Run(s, events).status)
    decreases |events|
  {
    if events == [] {
    } else {
      RunKeyed(Step(s, events[0]), events[1..]);
    }
  }
}
