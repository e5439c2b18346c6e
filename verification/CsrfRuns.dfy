/** Safety and progress of the token cache over every run (browser_csrf.go, browser.go, client.go). */
module CsrfRuns {
  import opened CsrfCache
  import opened CsrfInvariant
  import opened Wrappers

  // ----- Safety -----

  /** At most one token fetch is in flight, at any point of any run, and it is the lock holder's. */
  lemma OneFetchInFlight(acts: seq<Action>, s: Session, i: nat, j: nat)
    requires Runs(FRESH, acts, s)
    requires i in s.calls && s.calls[i].pc.InnerSent? && j in s.calls && s.calls[j].pc.InnerSent?
    ensures i == j && s.lock == Some(i)
  {
    RunKeepsInv(FRESH, acts, s);
    assert CallOk(s, i) && CallOk(s, j);
  }

  /** Successful fetches never exceed completed resets plus one; a cached token was fetched after the last completed
      reset, whether or not that sign-in changed the principal, and is never older than the newest completed sign-in;
      and when no sign-in is between its answer and its reset, it is the current principal's. */
  lemma CachedTokenIsFresh(acts: seq<Action>, s: Session)
    requires Runs(FRESH, acts, s)
    ensures s.stores <= s.resets + 1
    ensures s.cache.Some? ==> s.cache.value.epoch == s.resets
    ensures s.cache.Some? ==> s.cache.value.principal >= s.floor
    ensures s.cache.Some? && (forall id | id in s.calls :: !Pending(s.calls[id].pc)) ==>
              s.cache.value.principal == s.principal
  {
    RunKeepsInv(FRESH, acts, s);
  }

  lemma {:induction false} RunKeepsFloor(s: Session, acts: seq<Action>, t: Session)
    requires Runs(s, acts, t)
    ensures s.floor <= t.floor && s.resets <= t.resets
    ensures forall id | id in s.calls ::
              id in t.calls && t.calls[id].floor == s.calls[id].floor && t.calls[id].since == s.calls[id].since
    decreases |acts|
  {
    if acts == [] {
    } else {
      StepKeepsFloor(s, acts[0]);
      RunKeepsFloor(Apply(s, acts[0]), acts[1..], t);
    }
  }

  lemma StepKeepsFloor(s: Session, a: Action)
    requires Enabled(s, a)
    ensures s.floor <= Apply(s, a).floor && s.resets <= Apply(s, a).resets
    ensures var t := Apply(s, a);
            forall id | id in s.calls ::
              id in t.calls && t.calls[id].floor == s.calls[id].floor && t.calls[id].since == s.calls[id].since
  {
  }

  lemma {:induction false} RunsJoin(r: Session, before: seq<Action>, s: Session, after: seq<Action>, t: Session)
    requires Runs(r, before, s) && Runs(s, after, t)
    ensures Runs(r, before + after, t)
    decreases |before|
  {
    if before == [] {
      assert before + after == after;
    } else {
      RunsJoin(Apply(r, before[0]), before[1..], s, after, t);
      assert (before + after)[1..] == before[1..] + after;
    }
  }

  lemma RunStep(r: Session, before: seq<Action>, s: Session, a: Action)
    requires Runs(r, before, s) && Enabled(s, a)
    ensures Runs(r, before + [a], Apply(s, a))
  {
    assert [a][1..] == [];
    assert Runs(s, [a], Apply(s, a));
    RunsJoin(r, before, s, [a], Apply(s, a));
  }

  /** No stale token: once a sign-in's reset has completed, a request begun afterwards, whatever else runs in between
      and beside it, never carries a token of an earlier principal, nor one fetched before that reset. */
  lemma NoStaleToken(before: seq<Action>, s0: Session, signIn: nat,
                     between: seq<Action>, s1: Session, id: nat, request: Request,
                     after: seq<Action>, s2: Session)
    requires Runs(FRESH, before, s0) && Enabled(s0, ReleaseReset(signIn))
    requires Runs(Apply(s0, ReleaseReset(signIn)), between, s1) && Enabled(s1, Begin(id, request, false))
    requires Runs(Apply(s1, Begin(id, request, false)), after, s2)
    ensures id in s2.calls
    ensures InHand(s2.calls[id].pc).Some? ==>
              && InHand(s2.calls[id].pc).value.principal >= s0.calls[signIn].pc.seen
              && InHand(s2.calls[id].pc).value.epoch > s0.resets
  {
    var reset, begun := Apply(s0, ReleaseReset(signIn)), Apply(s1, Begin(id, request, false));
    RunKeepsFloor(reset, between, s1);
    RunKeepsFloor(begun, after, s2);
    RunStep(FRESH, before, s0, ReleaseReset(signIn));
    RunsJoin(FRESH, before + [ReleaseReset(signIn)], reset, between, s1);
    RunStep(FRESH, before + [ReleaseReset(signIn)] + between, s1, Begin(id, request, false));
    RunsJoin(FRESH, before + [ReleaseReset(signIn)] + between + [Begin(id, request, false)], begun, after, s2);
    RunKeepsInv(FRESH, before + [ReleaseReset(signIn)] + between + [Begin(id, request, false)] + after, s2);
    assert CallOk(s2, id);
    assert s2.calls[id].floor == s1.floor && s2.calls[id].since == s1.resets;
  }

  // ----- Nothing gets stuck -----

  predicate Finished(pc: Pc) {
    pc.Done? || pc.Failed?
  }

  /** The step a call takes next, when nobody else holds the lock. */
  function NextAction(s: Session, id: nat): Action
    requires id in s.calls && !Finished(s.calls[id].pc)
  {
    match s.calls[id].pc
    case Start => Decide(id)
    case WantLock => Acquire(id)
    case Locked => if s.cache.Some? then UseCached(id) else StartFetch(id)
    case InnerStart => DecideInner(id)
    case InnerWantLock => AcquireInner(id)
    case InnerSent => Answer(id, true)
    case Fetched(answer) => if answer.Some? then Store(id) else Release(id)
    case Stored(_) => Release(id)
    case Ready(_) => Send(id)
    case Sent(_) => Respond(id, false)
    case WantReset(_) => AcquireReset(id)
    case ResetHeld(_) => Clear(id)
    case ResetCleared(_) => ReleaseReset(id)
  }

  /** No deadlock: in every reachable state with an unfinished call, some call can take its next step; while the lock is
      held, its holder can. */
  lemma NoDeadlock(acts: seq<Action>, s: Session, id: nat)
    requires Runs(FRESH, acts, s)
    requires id in s.calls && !Finished(s.calls[id].pc)
    ensures var mover := if s.lock.Some? then s.lock.value else id;
            && mover in s.calls && !Finished(s.calls[mover].pc)
            && Enabled(s, NextAction(s, mover))
  {
    RunKeepsInv(FRESH, acts, s);
    NextIsEnabled(s, if s.lock.Some? then s.lock.value else id);
  }

  lemma NextIsEnabled(s: Session, id: nat)
    requires Inv(s) && id in s.calls && (s.lock == None || s.lock == Some(id))
    requires s.lock == None ==> !Finished(s.calls[id].pc)
    ensures !Finished(s.calls[id].pc) && Enabled(s, NextAction(s, id))
  {
    assert CallOk(s, id);
  }

  /** How many steps of its own a lock holder is from releasing it. */
  function StepsToRelease(pc: Pc): nat {
    match pc
    case Locked => 6
    case InnerStart => 5
    case InnerSent => 4
    case Fetched(_) => 3
    case ResetHeld(_) => 3
    case Stored(_) => 2
    case ResetCleared(_) => 2
    case _ => 0
  }

  /** The lock is always released: no step of another call disturbs its holder, and each step of the holder releases it
      or brings the release nearer. */
  lemma LockIsReleased(s: Session, a: Action, holder: nat)
    requires Inv(s) && Enabled(s, a) && s.lock == Some(holder)
    ensures var t := Apply(s, a);
            if a.id == holder
            then t.lock == None ||
              (t.lock == s.lock && StepsToRelease(t.calls[holder].pc) < StepsToRelease(s.calls[holder].pc))
            else t.lock == s.lock && t.calls[holder] == s.calls[holder] && t.cache == s.cache
  {
    assert CallOk(s, holder);
    if !a.Begin? {
      assert CallOk(s, a.id);
    }
  }
}
