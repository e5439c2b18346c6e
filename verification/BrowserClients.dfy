/** The cache object itself, and which clients share one: `ForNetwork` clones keep their parent's, `ImpersonatedClient`
    starts a session of its own (browser_csrf.go, client.go, browser.go). */
module BrowserClients {
  import opened CsrfCache
  import opened CsrfInvariant
  import GoBytes
  import opened Wrappers

  // ----- The cached value under the lock -----

  /** A token as the server describes it. */
  datatype TokenRecord = TokenRecord(headerName: string, token: string)

  const DEFAULT_HEADER := "X-CSRF-TOKEN"

  /** What a fetch leaves: the answer when it came with a token that is not blank. */
  function Usable(answer: Option<TokenRecord>): Option<TokenRecord> {
    if answer.Some? && GoBytes.TrimSpace(answer.value.token) == "" then None else answer
  }

  /** `browserCSRFState`; callers hold the lock. */
  class BrowserCSRFState {
    var token: Option<TokenRecord>

    constructor ()
      ensures token == None
    {
      token := None;
    }

    /** `browserCSRFToken` inside the lock, where `answer` is what the fetch would return: a cached token is returned
        without using it, an empty cache is filled only by a usable answer. */
    method BrowserCSRFToken(answer: Option<TokenRecord>) returns (r: Option<TokenRecord>)
      modifies this
      ensures r == (if old(token).Some? then old(token) else Usable(answer))
      ensures token == r
    {
      if token.Some? {
        return token;
      }
      if answer.None? || GoBytes.TrimSpace(answer.value.token) == "" {
        return None;
      }
      token := answer;
      return answer;
    }

    method Reset()
      modifies this
      ensures token == None
    {
      token := None;
    }
  }

  /** `attachBrowserCSRF`: the header and value a request gets. */
  function Attached(t: TokenRecord): (string, string) {
    var header := GoBytes.TrimSpace(t.headerName);
    (if header == "" then DEFAULT_HEADER else header, GoBytes.TrimSpace(t.token))
  }

  /** A usable answer always yields a header with a name and a value. */
  lemma AttachedIsNotBlank(t: TokenRecord)
    requires Usable(Some(t)).Some?
    ensures Attached(t).0 != "" && Attached(t).1 != ""
  {
  }

  /** What a request gets: the trimmed header name, or the usual one when it is blank, and the trimmed token. An answer
      without a token that is not blank leaves nothing. */
  lemma AttachedExactly(t: TokenRecord, header: string)
    ensures GoBytes.TrimSpace(t.headerName) == header && header != "" ==>
              Attached(t) == (header, GoBytes.TrimSpace(t.token))
    ensures GoBytes.TrimSpace(t.headerName) == "" ==> Attached(t) == ("X-CSRF-TOKEN", GoBytes.TrimSpace(t.token))
    ensures Usable(Some(t)) == if |GoBytes.TrimSpace(t.token)| > 0 then Some(t) else None
    ensures Usable(None) == None
  {
  }

  /** The steps of a critical section, one after the other: whatever the cache holds and the fetch answers, they are
      all possible and do to the cache, and hand to the caller, what the method does and returns. */
  function Section(s: Session, id: nat, ok: bool): (t: Session)
    requires s.lock == None && id in s.calls && s.calls[id].pc == WantLock
    ensures t.lock == None && id in t.calls
    ensures var result := if s.cache.Some? then s.cache else if ok then Some(Token(s.principal, s.resets)) else None;
            t.cache == result && t.calls[id].pc == if result.Some? then Ready(result) else Failed
  {
    var locked := Apply(s, Acquire(id));
    if s.cache.Some? then Apply(locked, UseCached(id))
    else Fill(locked, id, ok)
  }

  function Fill(s: Session, id: nat, ok: bool): (t: Session)
    requires s.lock == Some(id) && s.cache == None && id in s.calls && s.calls[id].pc == Locked
    ensures t.lock == None && id in t.calls
    ensures t.cache == (if ok then Some(Token(s.principal, s.resets)) else None)
    ensures t.calls[id].pc == if ok then Ready(t.cache) else Failed
  {
    var fetched := Apply(Apply(Apply(s, StartFetch(id)), DecideInner(id)), Answer(id, ok));
    if ok then Apply(Apply(fetched, Store(id)), Release(id)) else Apply(fetched, Release(id))
  }

  // ----- Clients and their sessions -----

  /** Which session each client's `csrf` points to. */
  datatype System = System(sessions: seq<Session>, clients: map<nat, nat>)

  datatype Event =
    | Step(client: nat, action: Action)
    | ForNetwork(client: nat, clone: nat)
    | Impersonated(client: nat, other: nat)

  predicate Valid(y: System) {
    && (forall c | c in y.clients :: y.clients[c] < |y.sessions|)
    && (forall i | 0 <= i < |y.sessions| :: Inv(y.sessions[i]))
  }

  predicate Possible(y: System, e: Event)
    requires Valid(y)
  {
    && e.client in y.clients
    && match e
       case Step(c, a) => Enabled(y.sessions[y.clients[c]], a)
       case ForNetwork(_, clone) => clone !in y.clients
       case Impersonated(_, other) => other !in y.clients
  }

  function Occur(y: System, e: Event): System
    requires Valid(y) && Possible(y, e)
  {
    match e
    case Step(c, a) => var i := y.clients[c]; y.(sessions := y.sessions[i := Apply(y.sessions[i], a)])
    case ForNetwork(c, clone) => y.(clients := y.clients[clone := y.clients[c]])
    case Impersonated(_, other) => System(y.sessions + [FRESH], y.clients[other := |y.sessions|])
  }

  /** Every session of every client keeps the invariant; a step touches only the session of the client that takes it;
      a network clone shares its parent's session for good, and an impersonated client's is new and unshared. */
  lemma EventKeepsSessions(y: System, e: Event)
    requires Valid(y) && Possible(y, e)
    ensures Valid(Occur(y, e))
    ensures forall c | c in y.clients :: c in Occur(y, e).clients && Occur(y, e).clients[c] == y.clients[c]
    ensures forall i | 0 <= i < |y.sessions| && (e.Step? ==> i != y.clients[e.client]) ::
              Occur(y, e).sessions[i] == y.sessions[i]
    ensures e.ForNetwork? ==> Occur(y, e).clients[e.clone] == y.clients[e.client]
    ensures e.Impersonated? ==> Occur(y, e).sessions[Occur(y, e).clients[e.other]] == FRESH
    ensures e.Impersonated? ==> forall c | c in y.clients :: Occur(y, e).clients[e.other] != y.clients[c]
  {
    if e.Step? {
      StepKeepsInv(y.sessions[y.clients[e.client]], e.action);
    }
  }
}
