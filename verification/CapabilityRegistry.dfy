/** The capability registry as an object (capabilities.go): its feature map is its own, so no caller's map can reach it.
    */
module CapabilityRegistry {
  import opened Sorting
  import opened Capabilities
  import opened Wrappers

  /** A Go map: shared by everyone who holds it. */
  class FeatureMap {
    var m: map<string, string>

    constructor (m: map<string, string>)
      ensures this.m == m
    {
      this.m := m;
    }
  }

  function FeaturesIn(f: FeatureMap?): Option<map<string, string>>
    reads f
  {
    if f == null then None else Some(f.m)
  }

  datatype Profile = Profile(track: string, build: string, release: string, features: FeatureMap?)

  /** `cloneCapabilityFeatures`. */
  method Clone(source: FeatureMap?) returns (r: FeatureMap?)
    ensures r == null <==> source == null
    ensures FeaturesIn(r) == FeaturesIn(source)
    ensures r != null ==> fresh(r)
  {
    if source == null {
      return null;
    }
    var copied: map<string, string>, todo := map[], source.m.Keys;
    while todo != {}
      invariant todo <= source.m.Keys && copied.Keys == source.m.Keys - todo
      invariant forall c | c in copied :: copied[c] == source.m[c]
      decreases |todo|
    {
      var c :| c in todo;
      copied, todo := copied[c := source.m[c]], todo - {c};
    }
    assert copied == source.m;
    r := new FeatureMap(copied);
  }

  method FillStatus(features: FeatureMap?) returns (status: map<string, Status>)
    ensures status == ConfiguredStatus(FeaturesIn(features))
  {
    status := map[];
    if features != null {
      var todo := features.m.Keys;
      while todo != {}
        invariant todo <= features.m.Keys && status.Keys == features.m.Keys - todo
        invariant forall c | c in status :: status[c] == ConfiguredStatus(Some(features.m))[c]
        decreases |todo|
      {
        var c :| c in todo;
        var support := features.m[c];
        if support == "" {
          support := UNKNOWN;
        }
        status, todo := status[c := Status(c, support, CONFIGURED)], todo - {c};
      }
    }
  }

  class Registry {
    var profile: Profile
    var status: map<string, Status>

    ghost function View(): State
      reads this, profile.features
    {
      State(profile.track, profile.build, profile.release, FeaturesIn(profile.features), status)
    }

    constructor (p: Profile)
      ensures View() == Initial(p.track, p.build, p.release, FeaturesIn(p.features))
      ensures profile.features != null ==> fresh(profile.features)
      ensures Keyed(status)
    {
      var features := Clone(p.features);
      var filled := FillStatus(features);
      profile := p.(features := features);
      status := filled;
    }

    /** The caller gets a map of its own. */
    method GetProfile() returns (p: Profile)
      ensures p.track == profile.track && p.build == profile.build && p.release == profile.release
      ensures FeaturesIn(p.features) == FeaturesIn(profile.features)
      ensures p.features != null ==> fresh(p.features)
    {
      var features := Clone(profile.features);
      p := profile.(features := features);
    }

    method Support(c: string) returns (s: Status)
      ensures s == Entry(View(), c)
    {
      if c in status {
        return status[c];
      }
      return Status(c, UNKNOWN, "");
    }

    /** `requireCapability`, with no step of another goroutine between its two reads. */
    method RequireCapability(c: string) returns (r: Option<Unsupported>)
      ensures r == Require(View(), [], c)
    {
      var s := Support(c);
      if s.support != UNSUPPORTED {
        return None;
      }
      var p := GetProfile();
      return Some(Unsupported(c, p.track, p.build));
    }

    method ObserveCapability(c: string)
      modifies this`status
      ensures View() == Observe(old(View()), c)
      ensures old(Keyed(status)) ==> Keyed(status)
    {
      if c in status && status[c].source == CONFIGURED && status[c].support != UNKNOWN {
        return;
      }
      status := status[c := Status(c, SUPPORTED, RESPONSE)];
    }

    method RecordVersion(build: string, release: string)
      modifies this`profile
      ensures profile.features == old(profile.features)
      ensures View() == Capabilities.RecordVersion(old(View()), build, release)
    {
      if profile.build == "" {
        profile := profile.(build := build);
      }
      if profile.release == "" {
        profile := profile.(release := release);
      }
    }

    /** The map's values in any order, then sorted by name. */
    method All() returns (list: seq<Status>)
      requires Keyed(status)
      ensures Listing(list, status)
    {
      list := [];
      var todo := status.Keys;
      while todo != {}
        invariant todo <= status.Keys && Collected(list, status, todo)
        decreases |todo|
      {
        var c :| c in todo;
        list, todo := list + [status[c]], todo - {c};
      }
      SortSorted(list, StatusName);
      SortContents(list, StatusName);
      list := Sort(list, StatusName);
    }
  }

  // ----- Isolation over a whole session -----

  /** What a program holding the registry can do: the events, asking for the profile, and writing into any feature map
      it holds: the one it configured with and every one it was handed. */
  datatype Op = Do(event: Event) | AskProfile | Write(held: nat, capability: string, support: string)

  function Events(ops: seq<Op>): seq<Event> {
    if ops == [] then []
    else
      var init := Events(ops[..|ops| - 1]);
      if ops[|ops| - 1].Do? then init + [ops[|ops| - 1].event] else init
  }

  lemma EventsSnoc(ops: seq<Op>, n: nat)
    requires n < |ops|
    ensures Events(ops[..n + 1]) == if ops[n].Do? then Events(ops[..n]) + [ops[n].event] else Events(ops[..n])
  {
    assert ops[..n + 1][..n] == ops[..n];
  }

  lemma RunSnoc(s: State, events: seq<Event>, e: Event)
    ensures Run(s, events + [e]) == Step(Run(s, events), e)
  {
    RunConcat(s, events, [e]);
    assert [e][1..] == [];
  }

  method Perform(r: Registry, e: Event)
    modifies r
    ensures r.profile.features == old(r.profile.features)
    ensures r.View() == Step(old(r.View()), e)
  {
    match e {
      case Observed(c) => r.ObserveCapability(c);
      case Versioned(build, release) => r.RecordVersion(build, release);
    }
  }

  /** Heap isolation: after any session the registry is where its events alone lead from the profile it was given. */
  method Session(p: Profile, ops: seq<Op>) returns (r: Registry)
    modifies p.features
    ensures fresh(r)
    ensures r.View() == Run(Initial(p.track, p.build, p.release, old(FeaturesIn(p.features))), Events(ops))
    ensures Keyed(r.status)
  {
    ghost var start := Initial(p.track, p.build, p.release, FeaturesIn(p.features));
    r := new Registry(p);
    var held: seq<FeatureMap> := if p.features == null then [] else [p.features];
    for n := 0 to |ops|
      invariant fresh(r) && (r.profile.features != null ==> fresh(r.profile.features) && r.profile.features !in held)
      invariant forall k | 0 <= k < |held| :: held[k] == p.features || fresh(held[k])
      invariant r.View() == Run(start, Events(ops[..n]))
    {
      EventsSnoc(ops, n);
      match ops[n] {
        case Do(e) =>
          RunSnoc(start, Events(ops[..n]), e);
          Perform(r, e);
        case AskProfile =>
          var mine := r.GetProfile();
          if mine.features != null {
            held := held + [mine.features];
          }
        case Write(k, c, support) =>
          if k < |held| {
            assert held[k] in held;
            held[k].m := held[k].m[c := support];
          }
      }
    }
    assert ops[..|ops|] == ops;
    ReachableIsKeyed(start, Events(ops));
  }

  /** Any session may end by listing what is known. */
  method SessionThenAll(p: Profile, ops: seq<Op>) returns (list: seq<Status>)
    modifies p.features
    ensures Listing(list, Run(Initial(p.track, p.build, p.release, old(FeaturesIn(p.features))), Events(ops)).status)
  {
    var r := Session(p, ops);
    list := r.All();
  }
}
