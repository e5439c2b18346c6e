/** Which calls are sent with a token, over every run (browser_csrf.go, the first step of `Client.do` in client.go). */
module CsrfCarry {
  import opened CsrfCache
  import opened CsrfInvariant
  import opened Wrappers

  /** A browser request that writes, that is not part of a sign-in, and that brings no token of its own. */
  predicate MustCarry(r: Request) {
    && r.mode == Browser && (r.verb == Post || r.verb == Put || r.verb == Patch || r.verb == Delete)
    && !r.skip && !r.tokenHeader
  }

  predicate CarryOk(c: Call) {
    match c.pc
    case Start => true
    case Ready(carried) => carried.Some? <==> MustCarry(c.request)
    case Sent(carried) => carried.Some? <==> MustCarry(c.request)
    case Done(carried) => if c.signIn then carried.None? else carried.Some? <==> MustCarry(c.request)
    case WantReset(_) => c.signIn
    case ResetHeld(_) => c.signIn
    case ResetCleared(_) => c.signIn
    case _ => MustCarry(c.request)
  }

  lemma StepKeepsCarry(s: Session, a: Action)
    requires Enabled(s, a) && forall id | id in s.calls :: CarryOk(s.calls[id])
    ensures forall id | id in Apply(s, a).calls :: CarryOk(Apply(s, a).calls[id])
  {
    var t := Apply(s, a);
    forall id | id in t.calls ensures CarryOk(t.calls[id]) {
      if id == a.id {
        OwnStepKeepsCarry(s, a);
      } else {
        assert t.calls[id] == s.calls[id];
      }
    }
  }

  lemma OwnStepKeepsCarry(s: Session, a: Action)
    requires Enabled(s, a) && (a.id in s.calls ==> CarryOk(s.calls[a.id]))
    ensures a.id in Apply(s, a).calls && CarryOk(Apply(s, a).calls[a.id])
  {
  }

  lemma {:induction false} RunKeepsCarry(s: Session, acts: seq<Action>, t: Session)
    requires Runs(s, acts, t) && forall id | id in s.calls :: CarryOk(s.calls[id])
    ensures forall id | id in t.calls :: CarryOk(t.calls[id])
    decreases |acts|
  {
    if acts == [] {
    } else {
      StepKeepsCarry(s, acts[0]);
      RunKeepsCarry(Apply(s, acts[0]), acts[1..], t);
    }
  }

  /** In every run, a call that has been sent carries a token exactly when its request must; one that need not never
      holds the lock before it is sent, never fails for want of a token, and no sign-in ever carries one. */
  lemma CarriesExactly(acts: seq<Action>, s: Session, id: nat)
    requires Runs(FRESH, acts, s) && id in s.calls
    ensures var c := s.calls[id];
            && (c.pc.Sent? ==> (c.pc.carried.Some? <==> MustCarry(c.request)))
            && (c.pc.Done? && !c.signIn ==> (c.pc.carried.Some? <==> MustCarry(c.request)))
            && (s.lock == Some(id) && !MustCarry(c.request) ==> c.signIn && Pending(c.pc))
            && (c.pc.Failed? ==> MustCarry(c.request))
            && (c.signIn && c.pc.Sent? ==> c.pc.carried.None?)
  {
    RunKeepsCarry(FRESH, acts, s);
    RunKeepsInv(FRESH, acts, s);
    assert CarryOk(s.calls[id]) && CallOk(s, id);
  }

  // ----- What the state counts -----

  function Stores(acts: seq<Action>): nat {
    if acts == [] then 0 else (if acts[0].Store? then 1 else 0) + Stores(acts[1..])
  }

  function Resets(acts: seq<Action>): nat {
    if acts == [] then 0 else (if acts[0].ReleaseReset? then 1 else 0) + Resets(acts[1..])
  }

  /** A session counts the tokens stored and the resets completed, each once. */
  lemma {:induction false} CountsExactly(s: Session, acts: seq<Action>, t: Session)
    requires Runs(s, acts, t)
    ensures t.stores == s.stores + Stores(acts) && t.resets == s.resets + Resets(acts)
    decreases |acts|
  {
    if acts == [] {
    } else {
      CountsExactly(Apply(s, acts[0]), acts[1..], t);
    }
  }

  /** The principal changes when a sign-in is answered and says so, and at no other step. */
  lemma PrincipalChanges(s: Session, a: Action)
    requires Enabled(s, a)
    ensures Apply(s, a).principal ==
              if a.Respond? && a.changed && s.calls[a.id].signIn then s.principal + 1 else s.principal
  {
  }

  /** No step takes a lock that is held, or changes the call of another. */
  lemma OnlyAFreeLockIsTaken(s: Session, a: Action)
    requires Enabled(s, a)
    ensures Apply(s, a).lock == s.lock || Apply(s, a).lock == None || (s.lock == None && Apply(s, a).lock == Some(a.id))
    ensures forall id | id in s.calls && id != a.id :: id in Apply(s, a).calls && Apply(s, a).calls[id] == s.calls[id]
  {
  }

  /** Which requests sign in: form login and SAML assertion, posted without a token in browser mode, and the
      impersonation, got in browser or service mode. Each starts a call like any other, and none needs a token. */
  lemma SignInsExactly(s: Session, id: nat, r: Request)
    ensures Enabled(s, Begin(id, r, true)) <==>
              && Enabled(s, Begin(id, r, false))
              && (r.verb == Post || r.verb == Get) && (r.mode == Browser || r.mode == Service)
              && (r.verb == Post ==> r.mode == Browser && r.skip)
    ensures Enabled(s, Begin(id, r, true)) ==> !MustCarry(r)
    ensures Enabled(s, Begin(id, r, false)) <==> id !in s.calls
  {
  }

  /** What a call asks for stays what it was begun with. */
  lemma {:induction false} RequestStays(s: Session, acts: seq<Action>, t: Session, id: nat)
    requires Runs(s, acts, t) && id in s.calls
    ensures id in t.calls && t.calls[id].request == s.calls[id].request && t.calls[id].signIn == s.calls[id].signIn
    decreases |acts|
  {
    if acts == [] {
    } else {
      RequestStays(Apply(s, acts[0]), acts[1..], t, id);
    }
  }
}
