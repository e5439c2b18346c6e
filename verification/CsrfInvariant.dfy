/** What every step of the token cache keeps (browser_csrf.go, browser.go, client.go). */
module CsrfInvariant {
  import opened CsrfCache
  import opened Wrappers

  predicate Holds(pc: Pc) {
    pc.Locked? || pc.InnerStart? || pc.InnerWantLock? || pc.InnerSent? || pc.Fetched? || pc.Stored?
    || pc.ResetHeld? || pc.ResetCleared?
  }

  predicate Fetching(pc: Pc) {
    pc.InnerStart? || pc.InnerSent? || pc.Fetched?
  }

  /** A sign-in the server has answered and whose reset has not completed. */
  predicate Pending(pc: Pc) {
    pc.WantReset? || pc.ResetHeld? || pc.ResetCleared?
  }

  function InHand(pc: Pc): Option<Token> {
    match pc
    case Fetched(answer) => answer
    case Stored(token) => Some(token)
    case Ready(carried) => carried
    case Sent(carried) => carried
    case Done(carried) => carried
    case _ => None
  }

  predicate CallOk(s: Session, id: nat)
    requires id in s.calls
  {
    var c := s.calls[id];
    && (Holds(c.pc) <==> s.lock == Some(id))
    && !c.pc.InnerWantLock?
    && c.floor <= s.floor
    && (Fetching(c.pc) || c.pc.ResetCleared? ==> s.cache == None)
    && (InHand(c.pc).Some? ==> c.floor <= InHand(c.pc).value.principal <= s.principal)
    && (InHand(c.pc).Some? && Holds(c.pc) ==> s.floor <= InHand(c.pc).value.principal)
    && c.since <= s.resets
    && (InHand(c.pc).Some? ==> c.since <= InHand(c.pc).value.epoch)
    && (InHand(c.pc).Some? && Holds(c.pc) ==> InHand(c.pc).value.epoch == s.resets)
    && (Pending(c.pc) ==> c.pc.seen <= s.principal)
    && (c.signIn ==> SignInRequest(c.request))
  }

  predicate AllCallsOk(s: Session) {
    forall id | id in s.calls :: CallOk(s, id)
  }

  predicate Clearing(s: Session) {
    s.lock.Some? && s.lock.value in s.calls && s.calls[s.lock.value].pc.ResetCleared?
  }

  /** Some sign-in still has to reset the cache for the current principal. */
  predicate ResetOutstanding(s: Session) {
    exists id | id in s.calls :: Pending(s.calls[id].pc) && s.calls[id].pc.seen == s.principal
  }

  predicate SharedOk(s: Session) {
    && (s.lock.Some? ==> s.lock.value in s.calls)
    && s.floor <= s.principal
    && (s.cache.Some? ==> s.floor <= s.cache.value.principal <= s.principal)
    && (s.cache.Some? ==> s.cache.value.epoch == s.resets)
    && s.stores <= s.resets + (if s.cache.Some? || Clearing(s) then 1 else 0)
  }

  predicate Inv(s: Session) {
    AllCallsOk(s) && SharedOk(s) && (s.floor < s.principal ==> ResetOutstanding(s))
  }

  /** The token fetch never needs a token itself, so it never asks for the lock its caller holds. */
  lemma FetchNeedsNoToken()
    ensures !NeedsCSRF(TOKEN_FETCH)
  {
  }

  lemma StepKeepsCalls(s: Session, a: Action)
    requires Inv(s) && Enabled(s, a)
    ensures AllCallsOk(Apply(s, a))
  {
    var t := Apply(s, a);
    forall id | id in t.calls
      ensures CallOk(t, id)
    {
      if id != a.id {
        assert CallOk(s, id) && t.calls[id] == s.calls[id];
        OtherCall(s, a, id);
      } else if !a.Begin? {
        assert CallOk(s, id);
        OwnCall(s, a);
      }
    }
  }

  lemma OtherCall(s: Session, a: Action, id: nat)
    requires Inv(s) && Enabled(s, a) && id in s.calls && id != a.id
    ensures CallOk(Apply(s, a), id)
  {
    assert CallOk(s, id);
    if !a.Begin? {
      assert CallOk(s, a.id);
    }
  }

  predicate OfTheFetch(a: Action) {
    a.StartFetch? || a.DecideInner? || a.AcquireInner? || a.Answer? || a.Store? || a.Release?
  }

  lemma OwnCall(s: Session, a: Action)
    requires Inv(s) && Enabled(s, a) && !a.Begin?
    ensures CallOk(Apply(s, a), a.id)
  {
    assert CallOk(s, a.id);
    if OfTheFetch(a) {
      OwnFetchStep(s, a);
    } else if OfAReset(a) {
      OwnResetStep(s, a);
    } else {
      OwnOtherStep(s, a);
    }
  }

  lemma OwnFetchStep(s: Session, a: Action)
    requires Inv(s) && Enabled(s, a) && OfTheFetch(a)
    requires CallOk(s, a.id)
    ensures CallOk(Apply(s, a), a.id)
  {
  }

  predicate OfAReset(a: Action) {
    a.AcquireReset? || a.Clear? || a.ReleaseReset?
  }

  lemma OwnResetStep(s: Session, a: Action)
    requires Inv(s) && Enabled(s, a) && OfAReset(a)
    requires CallOk(s, a.id)
    ensures CallOk(Apply(s, a), a.id)
  {
  }

  lemma OwnOtherStep(s: Session, a: Action)
    requires Inv(s) && Enabled(s, a) && !a.Begin? && !OfTheFetch(a) && !OfAReset(a)
    requires CallOk(s, a.id)
    ensures CallOk(Apply(s, a), a.id)
  {
  }

  lemma StepKeepsShared(s: Session, a: Action)
    requires Inv(s) && Enabled(s, a)
    ensures SharedOk(Apply(s, a))
  {
    if !a.Begin? {
      assert CallOk(s, a.id);
    }
  }

  lemma StepKeepsOutstanding(s: Session, a: Action)
    requires Inv(s) && Enabled(s, a)
    ensures var t := Apply(s, a); t.floor < t.principal ==> ResetOutstanding(t)
  {
    var t := Apply(s, a);
    if t.floor < t.principal {
      if a.Respond? && s.calls[a.id].signIn {
        assert Pending(t.calls[a.id].pc) && t.calls[a.id].pc.seen == t.principal;
      } else {
        assert s.floor < s.principal == t.principal;
        var id :| id in s.calls && Pending(s.calls[id].pc) && s.calls[id].pc.seen == s.principal;
        assert Pending(t.calls[id].pc) && t.calls[id].pc.seen == t.principal;
      }
    }
  }

  lemma StepKeepsInv(s: Session, a: Action)
    requires Inv(s) && Enabled(s, a)
    ensures Inv(Apply(s, a))
  {
    StepKeepsCalls(s, a);
    StepKeepsShared(s, a);
    StepKeepsOutstanding(s, a);
  }

  lemma {:induction false} RunKeepsInv(s: Session, acts: seq<Action>, t: Session)
    requires Inv(s) && Runs(s, acts, t)
    ensures Inv(t)
    decreases |acts|
  {
    if acts == [] {
    } else {
      StepKeepsInv(s, acts[0]);
      RunKeepsInv(Apply(s, acts[0]), acts[1..], t);
    }
  }
}
