/** The session CSRF token cache (browser_csrf.go, browser.go, the first step of `Client.do`) as interleaved atomic
    steps of any number of requests and sign-ins over one browser session. The server's side is reduced to a counter of
    principal changes: a token belongs to the principal current when it was answered. */
module CsrfCache {
  import opened Wrappers

  // ----- Which requests need a token -----

  datatype Method = Get | Head | Options | Trace | Post | Put | Patch | Delete

  datatype AuthMode = User | Service | Collector | Browser | NoAuth

  /** What `browserRequestNeedsCSRF` looks at; `tokenHeader` says the request already carries X-CSRF-TOKEN. */
  datatype Request = Request(verb: Method, mode: AuthMode, skip: bool, tokenHeader: bool)

  predicate NeedsCSRF(r: Request) {
    r.mode == Browser && !(r.verb.Get? || r.verb.Head? || r.verb.Options? || r.verb.Trace?) && !r.skip && !r.tokenHeader
  }

  /** The requests that establish a session: the form login and the SAML assertion, which skip the token, and the
      impersonation, which is a GET in browser or service mode. */
  predicate SignInRequest(r: Request) {
    (r.verb.Post? && r.mode == Browser && r.skip) || (r.verb.Get? && (r.mode == Browser || r.mode == Service))
  }

  /** The request `fetchPublicCSRF` makes while the lock is held. */
  const TOKEN_FETCH: Request := Request(Get, NoAuth, false, false)

  // ----- State -----

  /** A token, the principal, by number, it was issued for, and how many resets had completed when it was answered. */
  datatype Token = Token(principal: nat, epoch: nat)

  datatype Pc =
    | Start                            // in `do`, before the CSRF decision
    | WantLock                         // in `browserCSRFToken`, before mu.Lock
    | Locked                           // about to read the cached token
    | InnerStart                       // the token fetch is in `do`, before its own decision
    | InnerWantLock                    // the token fetch wants the lock its own caller holds
    | InnerSent                        // the token fetch is on the wire
    | Fetched(answer: Option<Token>)   // answered, or failed
    | Stored(token: Token)             // cached, lock not yet released
    | Ready(carried: Option<Token>)    // about to be sent
    | Sent(carried: Option<Token>)
    | WantReset(seen: nat)             // a sign-in was answered, before mu.Lock in `resetBrowserCSRF`
    | ResetHeld(seen: nat)
    | ResetCleared(seen: nat)          // token cleared, lock not yet released
    | Done(carried: Option<Token>)
    | Failed

  /** One call of `Do`. `floor` is the newest principal whose sign-in had completed when the call began, `since` how
      many resets had. */
  datatype Call = Call(request: Request, signIn: bool, floor: nat, since: nat, pc: Pc)

  /** A session: the mutex and token that all clones of a client share, the calls in flight, and the server's principal
      counter. `floor` is the newest principal among completed resets; `stores` and `resets` count completed ones. */
  datatype Session = Session(
    lock: Option<nat>, cache: Option<Token>, calls: map<nat, Call>,
    principal: nat, floor: nat, stores: nat, resets: nat)

  const FRESH: Session := Session(None, None, map[], 0, 0, 0, 0)

  // ----- Steps -----

  datatype Action =
    | Begin(id: nat, request: Request, signIn: bool)
    | Decide(id: nat)
    | Acquire(id: nat)
    | UseCached(id: nat)
    | StartFetch(id: nat)
    | DecideInner(id: nat)
    | AcquireInner(id: nat)
    | Answer(id: nat, ok: bool)
    | Store(id: nat)
    | Release(id: nat)
    | Send(id: nat)
    | Respond(id: nat, changed: bool)   // the server answers; a sign-in may have changed the principal
    | AcquireReset(id: nat)
    | Clear(id: nat)
    | ReleaseReset(id: nat)

  /** Whether the program can take this step here. */
  predicate Enabled(s: Session, a: Action) {
    if a.Begin? then a.id !in s.calls && (a.signIn ==> SignInRequest(a.request))
    else
      && a.id in s.calls
      && var pc := s.calls[a.id].pc;
         match a
         case Begin(_, _, _) => false
         case Decide(_) => pc.Start?
         case Acquire(_) => pc.WantLock? && s.lock == None
         case UseCached(_) => pc.Locked? && s.cache.Some?
         case StartFetch(_) => pc.Locked? && s.cache.None?
         case DecideInner(_) => pc.InnerStart?
         case AcquireInner(_) => pc.InnerWantLock? && s.lock == None
         case Answer(_, _) => pc.InnerSent?
         case Store(_) => pc.Fetched? && pc.answer.Some?
         case Release(_) => pc.Stored? || (pc.Fetched? && pc.answer.None?)
         case Send(_) => pc.Ready?
         case Respond(_, _) => pc.Sent?
         case AcquireReset(_) => pc.WantReset? && s.lock == None
         case Clear(_) => pc.ResetHeld?
         case ReleaseReset(_) => pc.ResetCleared?
  }

  function At(s: Session, id: nat, pc: Pc): Session
    requires id in s.calls
  {
    s.(calls := s.calls[id := s.calls[id].(pc := pc)])
  }

  function Max(a: nat, b: nat): nat {
    if a < b then b else a
  }

  function Apply(s: Session, a: Action): Session
    requires Enabled(s, a)
  {
    if a.Begin? then s.(calls := s.calls[a.id := Call(a.request, a.signIn, s.floor, s.resets, Start)])
    else
      var call := s.calls[a.id];
      match a
      case Decide(id) => At(s, id, if NeedsCSRF(call.request) then WantLock else Ready(None))
      case Acquire(id) => At(s.(lock := Some(id)), id, Locked)
      case UseCached(id) => At(s.(lock := None), id, Ready(s.cache))
      case StartFetch(id) => At(s, id, InnerStart)
      case DecideInner(id) => At(s, id, if NeedsCSRF(TOKEN_FETCH) then InnerWantLock else InnerSent)
      case AcquireInner(id) => At(s.(lock := Some(id)), id, Locked)
      case Answer(id, ok) => At(s, id, Fetched(if ok then Some(Token(s.principal, s.resets)) else None))
      case Store(id) => At(s.(cache := call.pc.answer, stores := s.stores + 1), id, Stored(call.pc.answer.value))
      case Release(id) => At(s.(lock := None), id, if call.pc.Stored? then Ready(Some(call.pc.token)) else Failed)
      case Send(id) => At(s, id, Sent(call.pc.carried))
      case Respond(id, changed) =>
        if call.signIn then
          var principal := if changed then s.principal + 1 else s.principal;
          At(s.(principal := principal), id, WantReset(principal))
        else At(s, id, Done(call.pc.carried))
      case AcquireReset(id) => At(s.(lock := Some(id)), id, ResetHeld(call.pc.seen))
      case Clear(id) => At(s.(cache := None), id, ResetCleared(call.pc.seen))
      case ReleaseReset(id) =>
        At(s.(lock := None, floor := Max(s.floor, call.pc.seen), resets := s.resets + 1), id, Done(None))
  }

  /** `acts` is a run of the program from `s` to `t`. */
  predicate Runs(s: Session, acts: seq<Action>, t: Session)
    decreases |acts|
  {
    if acts == [] then s == t else Enabled(s, acts[0]) && Runs(Apply(s, acts[0]), acts[1..], t)
  }
}
