/**
 * The brute-force engine for one target `host:port`: single login attempts
 * sorted into success, plain failure and a transient failure that is retried,
 * rounds of attempts with a per-credential retry cap, the ledger of attempts,
 * and the fallback to connections found on earlier runs.
 *
 * The SSH layer is abstract: what connecting a session gives, whether a
 * session is alive, a session's remote hostname and whether a ledger write
 * succeeds are answers of an `Env`. Attempts of one round run one after the
 * other in task order.
 */
module BruteForce {
  import opened Wrappers
  import CredentialStore
  import AttemptStore
  import SessionManager
  import Decimal

  type Credential = CredentialStore.Credential
  type Session = SessionManager.Session

  /** What awaiting `connect()` of a session gives. */
  datatype ConnectOutcome =
    | Connected          // a truthy result
    | Rejected           // a falsy result
    | TimedOut           // `asyncio.TimeoutError`
    | ConnectionLost     // `asyncssh.ConnectionLost`
    | Failed             // any other exception

  /** What the steps after a successful connect do: `store`, then `get_remote_hostname`
      and `add_session`. Either all go through, or one of the last two raises
      `ConnectionLost` or another exception once the credential is stored. */
  datatype AfterConnect =
    | Registered         // the session reaches the manager
    | RaisedLost         // `asyncssh.ConnectionLost`
    | RaisedOther        // any other exception, `asyncio.TimeoutError` included

  /** The abstract environment: connect outcomes per session and attempt id, what
      follows a successful connect, liveness, remote hostnames, whether the ledger
      write of an attempt succeeds, and the random numbers the shuffle draws. */
  datatype Env = Env(
    connect: (Session, nat) -> ConnectOutcome,
    afterConnect: (Session, nat) -> AfterConnect,
    alive: Session -> bool,
    hostnameOf: Session -> string,
    recordOk: nat -> bool,
    randBelow: nat -> nat)

  /** A successful attempt. */
  datatype Result = Result(user: string, authMethod: string, sshSession: Session, creds: string)

  /** What `try_single_credential` hands back: a `Result`, `None`, or the re-raised
      `ConnectionLost`; the last two say whether the credential was stored first. */
  datatype TryOutcome = Success(result: Result) | NoResult(stored: bool) | Lost(stored: bool)

  /** The attempt stored its credential: it connected. */
  predicate Stores(o: TryOutcome) {
    o.Success? || o.stored
  }

  predicate KnownMethod(authMethod: string) {
    authMethod == "password" || authMethod == "keyfile"
  }

  /** The session an attempt builds: the secret is the password or the key file. */
  function AttemptSession(host: string, port: int, cred: Credential, jumper: Option<Session>): Session {
    SessionManager.NewSession(SessionManager.HopMeta(host, port, cred.user, cred.authMethod, cred.secret), jumper)
  }

  /** How an attempt's outcome follows from the connect outcome and what follows it:
      only a successful connect whose session reaches the manager gives a result,
      carrying the credential's user, method and secret; only `ConnectionLost`,
      from the connect or after it, is passed on; the credential is stored exactly
      when the connect succeeded; a credential of another method gives `None`
      without connecting. */
  predicate OutcomeFits(o: TryOutcome, host: string, port: int, cred: Credential, jumper: Option<Session>, env: Env, attemptId: nat) {
    var ssh := AttemptSession(host, port, cred, jumper);
    var c := if KnownMethod(cred.authMethod) then Some(env.connect(ssh, attemptId)) else None;
    var a := env.afterConnect(ssh, attemptId);
    && (o.Success? <==> c == Some(Connected) && a == Registered)
    && (o.Lost? <==> c == Some(ConnectionLost) || (c == Some(Connected) && a == RaisedLost))
    && (Stores(o) <==> c == Some(Connected))
    && (o.Success? ==> o.result.user == cred.user && o.result.authMethod == cred.authMethod && o.result.creds == cred.secret)
  }

  // ---------------------------------------------------------------------
  // What successful attempts leave in the credential store and the session manager
  // ---------------------------------------------------------------------

  /** The credential-store row a successful attempt with `cred` on `host:port` stores. */
  function EntryOf(host: string, port: int, cred: Credential): Credential {
    CredentialStore.Entry(host, CredentialStore.PortNumber(port), cred.user, cred.secret, cred.authMethod)
  }

  /** The credential list after storing the rows of successful attempts with `cs`, in order. */
  function StoreAll(creds: seq<Credential>, host: string, port: int, cs: seq<Credential>): seq<Credential>
    decreases |cs|
  {
    if cs == [] then creds
    else CredentialStore.Stored(StoreAll(creds, host, port, cs[..|cs| - 1]), EntryOf(host, port, cs[|cs| - 1]))
  }

  /** Storing the rows of attempts keeps the old rows in front, holds every new row,
      and adds nothing else. */
  lemma {:induction false} StoreAllSpec(creds: seq<Credential>, host: string, port: int, cs: seq<Credential>)
    ensures var r := StoreAll(creds, host, port, cs);
      && |creds| <= |r| <= |creds| + |cs| && r[..|creds|] == creds
      && (forall i :: 0 <= i < |cs| ==> EntryOf(host, port, cs[i]) in r)
      && (forall x :: x in r ==> x in creds || exists i :: 0 <= i < |cs| && x == EntryOf(host, port, cs[i]))
    decreases |cs|
  {
    if cs != [] {
      var front := cs[..|cs| - 1];
      var init := StoreAll(creds, host, port, front);
      var e := EntryOf(host, port, cs[|cs| - 1]);
      StoreAllSpec(creds, host, port, front);
      var r := CredentialStore.Stored(init, e);
      assert r == StoreAll(creds, host, port, cs);
      assert r[..|creds|] == init[..|creds|];
      assert forall i :: 0 <= i < |front| ==> front[i] == cs[i];
      forall x | x in r
        ensures x in creds || exists i :: 0 <= i < |cs| && x == EntryOf(host, port, cs[i])
      {
        if x == e {
          assert x == EntryOf(host, port, cs[|cs| - 1]);
        } else if x !in creds {
          var i :| 0 <= i < |front| && x == EntryOf(host, port, front[i]);
          assert x == EntryOf(host, port, cs[i]);
        }
      }
    }
  }

  /** Storing after two runs of attempts is storing after the attempts of both, in order. */
  lemma {:induction false} StoreAllAppend(creds: seq<Credential>, host: string, port: int, xs: seq<Credential>, ys: seq<Credential>)
    ensures StoreAll(StoreAll(creds, host, port, xs), host, port, ys) == StoreAll(creds, host, port, xs + ys)
    decreases |ys|
  {
    if ys == [] {
      assert xs + ys == xs;
    } else {
      StoreAllAppend(creds, host, port, xs, ys[..|ys| - 1]);
      assert (xs + ys)[..|xs + ys| - 1] == xs + ys[..|ys| - 1];
    }
  }

  /** The cache key under which a successful attempt with `cred` registers its session. */
  function SessionKey(host: string, port: int, cred: Credential, jumper: Option<Session>, env: Env): SessionManager.Key {
    SessionManager.Key(env.hostnameOf(AttemptSession(host, port, cred, jumper)), cred.user, cred.authMethod, cred.secret)
  }

  /** The session manager's state: its cache and the sessions closed so far. */
  datatype Cache = Cache(sessions: map<SessionManager.Key, Session>, closed: seq<Session>)

  /** `add_session` of a successful attempt's session: a live cached session under the
      key is kept and the new one closed, otherwise the new one is cached. */
  function Register(c: Cache, host: string, port: int, cred: Credential, jumper: Option<Session>, env: Env): Cache {
    var s := AttemptSession(host, port, cred, jumper);
    var key := SessionKey(host, port, cred, jumper, env);
    if key in c.sessions && env.alive(c.sessions[key]) then Cache(c.sessions, c.closed + [s])
    else Cache(c.sessions[key := s], c.closed)
  }

  /** The manager after registering the sessions of successful attempts with `cs`, in order. */
  function RegisterAll(c: Cache, host: string, port: int, jumper: Option<Session>, env: Env, cs: seq<Credential>): Cache
    decreases |cs|
  {
    if cs == [] then c
    else Register(RegisterAll(c, host, port, jumper, env, cs[..|cs| - 1]), host, port, cs[|cs| - 1], jumper, env)
  }

  /** One registration keeps every key, caches the attempt's key, and adds no other key. */
  lemma RegisterKeys(c: Cache, host: string, port: int, cred: Credential, jumper: Option<Session>, env: Env)
    ensures var r := Register(c, host, port, cred, jumper, env);
      r.sessions.Keys == c.sessions.Keys + {SessionKey(host, port, cred, jumper, env)}
  {
  }

  /** The cache keys of the sessions of attempts with `cs`. */
  ghost function KeysOf(host: string, port: int, jumper: Option<Session>, env: Env, cs: seq<Credential>): set<SessionManager.Key> {
    set i | 0 <= i < |cs| :: SessionKey(host, port, cs[i], jumper, env)
  }

  /** Registering the sessions of attempts drops no key and caches exactly the attempts' keys
      besides those already cached. */
  lemma {:induction false} RegisterAllKeys(c: Cache, host: string, port: int, jumper: Option<Session>, env: Env, cs: seq<Credential>)
    ensures RegisterAll(c, host, port, jumper, env, cs).sessions.Keys == c.sessions.Keys + KeysOf(host, port, jumper, env, cs)
    decreases |cs|
  {
    if cs != [] {
      var front := cs[..|cs| - 1];
      var last := cs[|cs| - 1];
      RegisterAllKeys(c, host, port, jumper, env, front);
      RegisterKeys(RegisterAll(c, host, port, jumper, env, front), host, port, last, jumper, env);
      KeysOfSnoc(host, port, jumper, env, front, last);
      assert cs == front + [last];
    }
  }

  /** The keys of one more attempt are its key besides the keys before. */
  lemma KeysOfSnoc(host: string, port: int, jumper: Option<Session>, env: Env, cs: seq<Credential>, cred: Credential)
    ensures KeysOf(host, port, jumper, env, cs + [cred]) == KeysOf(host, port, jumper, env, cs) + {SessionKey(host, port, cred, jumper, env)}
  {
    var ext := cs + [cred];
    forall x | x in KeysOf(host, port, jumper, env, ext)
      ensures x in KeysOf(host, port, jumper, env, cs) + {SessionKey(host, port, cred, jumper, env)}
    {
      var i :| 0 <= i < |ext| && x == SessionKey(host, port, ext[i], jumper, env);
      if i < |cs| {
        assert ext[i] == cs[i];
      }
    }
    forall x | x in KeysOf(host, port, jumper, env, cs)
      ensures x in KeysOf(host, port, jumper, env, ext)
    {
      var i :| 0 <= i < |cs| && x == SessionKey(host, port, cs[i], jumper, env);
      assert ext[i] == cs[i];
    }
    assert SessionKey(host, port, cred, jumper, env) == SessionKey(host, port, ext[|cs|], jumper, env);
  }

  /** Registering the sessions of attempts keeps the sessions closed before in front,
      closes at most one session per attempt, and closes only sessions of the attempts. */
  lemma {:induction false} RegisterAllClosed(c: Cache, host: string, port: int, jumper: Option<Session>, env: Env, cs: seq<Credential>)
    ensures var r := RegisterAll(c, host, port, jumper, env, cs);
      && |c.closed| <= |r.closed| <= |c.closed| + |cs| && r.closed[..|c.closed|] == c.closed
      && (forall s :: s in r.closed[|c.closed|..] ==> exists i :: 0 <= i < |cs| && s == AttemptSession(host, port, cs[i], jumper))
    decreases |cs|
  {
    if cs != [] {
      var front := cs[..|cs| - 1];
      var init := RegisterAll(c, host, port, jumper, env, front);
      var last := cs[|cs| - 1];
      RegisterAllClosed(c, host, port, jumper, env, front);
      var r := Register(init, host, port, last, jumper, env);
      assert r == RegisterAll(c, host, port, jumper, env, cs);
      assert r.closed[..|c.closed|] == init.closed[..|c.closed|];
      assert r.closed[|c.closed|..] == init.closed[|c.closed|..] + r.closed[|init.closed|..];
      forall x | x in r.closed[|c.closed|..]
        ensures exists i :: 0 <= i < |cs| && x == AttemptSession(host, port, cs[i], jumper)
      {
        if x in init.closed[|c.closed|..] {
          var i :| 0 <= i < |front| && x == AttemptSession(host, port, front[i], jumper);
          assert front[i] == cs[i];
        } else {
          assert x == AttemptSession(host, port, cs[|cs| - 1], jumper);
        }
      }
    }
  }

  /** Registering after two runs of attempts is registering after the attempts of both, in order. */
  lemma {:induction false} RegisterAllAppend(c: Cache, host: string, port: int, jumper: Option<Session>, env: Env,
                                             xs: seq<Credential>, ys: seq<Credential>)
    ensures RegisterAll(RegisterAll(c, host, port, jumper, env, xs), host, port, jumper, env, ys)
         == RegisterAll(c, host, port, jumper, env, xs + ys)
    decreases |ys|
  {
    if ys == [] {
      assert xs + ys == xs;
    } else {
      RegisterAllAppend(c, host, port, jumper, env, xs, ys[..|ys| - 1]);
      assert (xs + ys)[..|xs + ys| - 1] == xs + ys[..|ys| - 1];
    }
  }

  /** The credential store and the session manager hold what the successful attempts with `cs`
      leave when they start from `baseCreds` and `baseCache`. */
  ghost predicate Effects(store: CredentialStore.CredentialStore, manager: SessionManager.SSHSessionManager,
                          baseCreds: seq<Credential>, baseCache: Cache,
                          host: string, port: int, jumper: Option<Session>, env: Env,
                          stored: seq<Credential>, registered: seq<Credential>)
    reads store, manager
  {
    && store.credentials == StoreAll(baseCreds, host, port, stored)
    && Cache(manager.sessions, manager.closed) == RegisterAll(baseCache, host, port, jumper, env, registered)
  }

  /** The credential of an attempt if it succeeded. */
  function SuccessCred(o: TryOutcome, cred: Credential): seq<Credential> {
    if o.Success? then [cred] else []
  }

  /** The credential of an attempt if it stored it. */
  function StoredCred(o: TryOutcome, cred: Credential): seq<Credential> {
    if Stores(o) then [cred] else []
  }

  /** `try_single_credential`. A successful connect stores the credential; when the
      session then reaches the manager, the manager's answer becomes the result's
      session, and when a later step raises, the manager is left as it was. */
  method TrySingleCredential(host: string, port: int, cred: Credential, jumper: Option<Session>,
                             store: CredentialStore.CredentialStore, manager: SessionManager.SSHSessionManager,
                             env: Env, attemptId: nat) returns (o: TryOutcome)
    modifies store, manager
    ensures OutcomeFits(o, host, port, cred, jumper, env, attemptId)
    ensures !o.Success? ==> manager.sessions == old(manager.sessions) && manager.closed == old(manager.closed)
    ensures !Stores(o) ==> store.credentials == old(store.credentials)
    ensures Stores(o) ==>
      store.credentials == CredentialStore.Stored(old(store.credentials),
                             CredentialStore.Entry(host, CredentialStore.PortNumber(port), cred.user, cred.secret, cred.authMethod))
    ensures o.Success? ==>
      var s := AttemptSession(host, port, cred, jumper);
      var key := SessionManager.Key(env.hostnameOf(s), cred.user, cred.authMethod, cred.secret);
      && key in manager.sessions && manager.sessions[key] == o.result.sshSession
      && if key in old(manager.sessions) && env.alive(old(manager.sessions)[key])
         then manager.sessions == old(manager.sessions) && manager.closed == old(manager.closed) + [s]
         else manager.sessions == old(manager.sessions)[key := s] && manager.closed == old(manager.closed)
    ensures Effects(store, manager, old(store.credentials), Cache(old(manager.sessions), old(manager.closed)), host, port, jumper, env, StoredCred(o, cred), SuccessCred(o, cred))
  {
    if !KnownMethod(cred.authMethod) {
      return NoResult(false);
    }
    var ssh := AttemptSession(host, port, cred, jumper);
    var connected := env.connect(ssh, attemptId);
    match connected {
      case Connected =>
        store.Store(host, CredentialStore.PortNumber(port), cred.user, cred.secret, cred.authMethod);
        match env.afterConnect(ssh, attemptId) {
          case Registered =>
            var nssh := manager.AddSession(env.hostnameOf(ssh), ssh, cred.user, cred.authMethod, cred.secret, env.alive);
            o := Success(Result(cred.user, cred.authMethod, nssh, cred.secret));
          case RaisedLost =>
            o := Lost(true);
          case RaisedOther =>
            o := NoResult(true);
        }
      case ConnectionLost =>
        o := Lost(false);
      case _ =>
        o := NoResult(false);
    }
  }

  // ---------------------------------------------------------------------
  // The ledger of attempts
  // ---------------------------------------------------------------------

  function LedgerFrame(ledger: Option<AttemptStore.AttemptStore>): set<object> {
    if ledger.Some? then {ledger.value} else {}
  }

  /** Attempts are recorded when there is a ledger, a source hostname, and recording is enabled. */
  predicate Recording(ledger: Option<AttemptStore.AttemptStore>, source: string, recordEnabled: bool) {
    ledger.Some? && source != "" && recordEnabled
  }

  /** One attempt of a round: which credential, which retry, its attempt id and outcome. */
  datatype Trial = Trial(index: nat, cred: Credential, retryAttempt: nat, attemptId: nat, outcome: TryOutcome)

  /** The ledger row of an attempt that returned: the target hostname is the
      result session's remote hostname on success and the host otherwise. */
  function RowOf(t: Trial, source: string, host: string, port: int, env: Env): AttemptStore.Attempt {
    AttemptStore.Attempt(source,
      if t.outcome.Success? then env.hostnameOf(t.outcome.result.sshSession) else host,
      host, port, t.cred.user, t.cred.authMethod, t.cred.secret, t.outcome.Success?)
  }

  /** The rows that reach the ledger: one per attempt that returned and whose write succeeded. */
  function RecordsOf(log: seq<Trial>, source: string, host: string, port: int, env: Env): (rows: seq<AttemptStore.Attempt>)
    ensures |rows| <= |log|
  {
    if log == [] then []
    else
      var t := log[|log| - 1];
      RecordsOf(log[..|log| - 1], source, host, port, env)
        + (if !t.outcome.Lost? && env.recordOk(t.attemptId) then [RowOf(t, source, host, port, env)] else [])
  }

  /** `limited_try`: one attempt, recorded in the ledger if it returned. */
  method LimitedTry(host: string, port: int, cred: Credential, jumper: Option<Session>,
                    store: CredentialStore.CredentialStore, manager: SessionManager.SSHSessionManager,
                    ledger: Option<AttemptStore.AttemptStore>, source: string, recordEnabled: bool,
                    env: Env, attemptId: nat) returns (o: TryOutcome)
    modifies store, manager, LedgerFrame(ledger)
    ensures OutcomeFits(o, host, port, cred, jumper, env, attemptId)
    ensures ledger.Some? ==>
      ledger.value.rows == old(ledger.value.rows) + (if Recording(ledger, source, recordEnabled) && !o.Lost? && env.recordOk(attemptId)
                                                  then [RowOf(Trial(0, cred, 0, attemptId, o), source, host, port, env)] else [])
    ensures Effects(store, manager, old(store.credentials), Cache(old(manager.sessions), old(manager.closed)), host, port, jumper, env, StoredCred(o, cred), SuccessCred(o, cred))
  {
    o := TrySingleCredential(host, port, cred, jumper, store, manager, env, attemptId);
    if o.Lost? {
      return;
    }
    if Recording(ledger, source, recordEnabled) {
      var toHostname := if o.Success? then env.hostnameOf(o.result.sshSession) else host;
      ledger.value.RecordAttempt(source, toHostname, host, port, cred.user, cred.authMethod, cred.secret,
                                 o.Success?, env.recordOk(attemptId));
    }
  }

  // ---------------------------------------------------------------------
  // Connections found on earlier runs
  // ---------------------------------------------------------------------

  /** The properties of a stored connection; a missing property is `None`. */
  datatype Props = Props(ip: Option<string>, port: Option<int>, user: Option<string>,
                         creds: Option<string>, authMethod: Option<string>)

  /** A connection edge from the source host to the host named `to`. */
  datatype Edge = Edge(to: string, props: Props)

  /** What the graph database offers: no database, a failed query, or the edges
      of the source host (a `None` answer is the empty list). */
  datatype GraphAnswer = NoGraph | QueryFailed | Connections(edges: seq<Edge>)

  /** An edge recorded for this very `host:port`. */
  predicate Matches(e: Edge, host: string, port: int) {
    e.props.ip == Some(host) && e.props.port == Some(port)
  }

  /** The map built from the edges: matching edges keyed by target hostname, a later edge
      replacing an earlier one with the same target. */
  function OldConnectionsOf(edges: seq<Edge>, host: string, port: int): (m: map<string, Edge>)
    ensures forall to :: to in m ==> m[to] in edges && m[to].to == to && Matches(m[to], host, port)
  {
    if edges == [] then map[]
    else
      var m := OldConnectionsOf(edges[..|edges| - 1], host, port);
      var e := edges[|edges| - 1];
      if Matches(e, host, port) then m[e.to := e] else m
  }

  /** Exactly the targets of matching edges are in the map. */
  lemma {:induction false} OldConnectionsKeys(edges: seq<Edge>, host: string, port: int, to: string)
    ensures to in OldConnectionsOf(edges, host, port) <==>
            exists i :: 0 <= i < |edges| && Matches(edges[i], host, port) && edges[i].to == to
  {
    if edges != [] {
      var init := edges[..|edges| - 1];
      var e := edges[|edges| - 1];
      OldConnectionsKeys(init, host, port, to);
      if !(Matches(e, host, port) && e.to == to) {
        if exists i :: 0 <= i < |edges| && Matches(edges[i], host, port) && edges[i].to == to {
          var i :| 0 <= i < |edges| && Matches(edges[i], host, port) && edges[i].to == to;
          assert i < |init| && init[i] == edges[i];
        }
        if to in OldConnectionsOf(init, host, port) {
          var i :| 0 <= i < |init| && Matches(init[i], host, port) && init[i].to == to;
          assert edges[i] == init[i];
        }
      }
    }
  }

  /** No edge after position `i` is a matching edge to `to`. */
  predicate NoLaterMatch(edges: seq<Edge>, i: int, host: string, port: int, to: string) {
    0 <= i && forall j :: i < j < |edges| ==> !(Matches(edges[j], host, port) && edges[j].to == to)
  }

  /** The map holds the last matching edge to each target: no later edge matches with that target. */
  lemma {:induction false} OldConnectionsLastWins(edges: seq<Edge>, host: string, port: int, to: string)
    requires to in OldConnectionsOf(edges, host, port)
    ensures exists i :: 0 <= i < |edges| && OldConnectionsOf(edges, host, port)[to] == edges[i]
                        && NoLaterMatch(edges, i, host, port, to)
  {
    var init := edges[..|edges| - 1];
    var e := edges[|edges| - 1];
    var m := OldConnectionsOf(init, host, port);
    if Matches(e, host, port) && e.to == to {
      assert NoLaterMatch(edges, |edges| - 1, host, port, to);
    } else {
      assert to in m && OldConnectionsOf(edges, host, port)[to] == m[to];
      OldConnectionsLastWins(init, host, port, to);
      var i :| 0 <= i < |init| && m[to] == init[i] && NoLaterMatch(init, i, host, port, to);
      LaterFreeSnoc(edges, i, host, port, to);
    }
  }

  lemma LaterFreeSnoc(edges: seq<Edge>, i: int, host: string, port: int, to: string)
    requires edges != [] && NoLaterMatch(edges[..|edges| - 1], i, host, port, to)
    requires !(Matches(edges[|edges| - 1], host, port) && edges[|edges| - 1].to == to)
    ensures NoLaterMatch(edges, i, host, port, to)
  {
    var init := edges[..|edges| - 1];
    assert 0 <= i;
    forall j | i < j < |edges|
      ensures !(Matches(edges[j], host, port) && edges[j].to == to)
    {
      if j < |init| {
        assert edges[j] == init[j];
      }
    }
  }

  /** The `old_connections` map: built only with a database, a source hostname and no forced rescan. */
  method CollectOldConnections(graph: GraphAnswer, source: string, forceRescan: bool, host: string, port: int)
    returns (known: map<string, Edge>)
    ensures known == if graph.Connections? && source != "" && !forceRescan
                     then OldConnectionsOf(graph.edges, host, port) else map[]
  {
    known := map[];
    if graph.NoGraph? || source == "" || forceRescan {
      return;
    }
    var edges := if graph.Connections? then graph.edges else [];
    var i := 0;
    while i < |edges|
      invariant 0 <= i <= |edges|
      invariant known == OldConnectionsOf(edges[..i], host, port)
    {
      assert edges[..i + 1][..i] == edges[..i];
      if Matches(edges[i], host, port) {
        known := known[edges[i].to := edges[i]];
      }
      i := i + 1;
    }
    assert edges[..i] == edges;
  }

  // ---------------------------------------------------------------------
  // The ledger filter
  // ---------------------------------------------------------------------

  function TripleKey(c: Credential): AttemptStore.Triple {
    AttemptStore.Triple(c.user, c.authMethod, c.secret)
  }

  /** Filtering by the ledger is active only without a forced rescan, with a ledger,
      a source hostname, and recording enabled. */
  predicate Filtering(forceRescan: bool, ledger: Option<AttemptStore.AttemptStore>, source: string, recordEnabled: bool) {
    !forceRescan && Recording(ledger, source, recordEnabled)
  }

  /** The credentials whose (user, method, secret) the ledger has not seen. */
  function Unattempted(creds: seq<Credential>, attempted: set<AttemptStore.Triple>): (r: seq<Credential>)
    ensures forall c :: c in r <==> c in creds && TripleKey(c) !in attempted
    ensures |r| <= |creds|
  {
    CredentialStore.Filter(creds, (c: Credential) => TripleKey(c) !in attempted)
  }

  // ---------------------------------------------------------------------
  // Retry rounds
  // ---------------------------------------------------------------------

  /** An attempt waiting to run: the credential's position and its retry number. */
  datatype Task = Task(index: nat, retryAttempt: nat)

  /** The highest retry number `max_retries` allows. */
  function Cap(maxRetries: int): nat {
    if maxRetries >= 1 then maxRetries - 1 else 0
  }

  /** Retries still allowed, over all credentials. */
  function Budget(counts: seq<nat>, cap: nat): nat
    requires forall k :: 0 <= k < |counts| ==> counts[k] <= cap
  {
    if counts == [] then 0 else cap - counts[0] + Budget(counts[1..], cap)
  }

  lemma {:induction false} BudgetSpend(counts: seq<nat>, cap: nat, i: nat)
    requires forall k :: 0 <= k < |counts| ==> counts[k] <= cap
    requires i < |counts| && counts[i] < cap
    ensures Budget(counts[i := counts[i] + 1], cap) + 1 == Budget(counts, cap)
  {
    var next := counts[i := counts[i] + 1];
    if i == 0 {
      assert next[1..] == counts[1..];
    } else {
      BudgetSpend(counts[1..], cap, i - 1);
      assert next[1..] == counts[1..][i - 1 := counts[i] + 1];
    }
  }

  predicate DistinctIndices(ts: seq<Task>) {
    forall a, b :: 0 <= a < b < |ts| ==> ts[a].index != ts[b].index
  }

  /** A credential is attempted again only after a lost connection, with a
      higher retry number. */
  predicate OnlyLostRetried(log: seq<Trial>) {
    forall a, b :: 0 <= a < b < |log| && log[a].index == log[b].index ==>
      log[a].outcome.Lost? && log[a].retryAttempt < log[b].retryAttempt
  }

  /** Retry number k + 1 of a credential follows its lost attempt number k. */
  predicate RetriesFollowLoss(log: seq<Trial>) {
    forall b :: 0 <= b < |log| && log[b].retryAttempt > 0 ==>
      exists a :: 0 <= a < b && log[a].index == log[b].index
                  && log[a].retryAttempt == log[b].retryAttempt - 1 && log[a].outcome.Lost?
  }

  /** A pending task is the next attempt of its credential. */
  predicate TaskReady(log: seq<Trial>, counts: seq<nat>, t: Task) {
    && t.index < |counts| && t.retryAttempt == counts[t.index]
    && (forall a :: 0 <= a < |log| && log[a].index == t.index ==>
          log[a].outcome.Lost? && log[a].retryAttempt < t.retryAttempt)
    && (t.retryAttempt > 0 ==>
          exists a :: 0 <= a < |log| && log[a].index == t.index
                      && log[a].retryAttempt == t.retryAttempt - 1 && log[a].outcome.Lost?)
  }

  /** Each attempt of the log: its credential, its attempt id, a retry number within
      the cap, and an outcome that fits the connect outcome. */
  predicate WellFormed(log: seq<Trial>, creds: seq<Credential>, host: string, port: int, jumper: Option<Session>,
                       env: Env, maxRetries: int) {
    forall a :: 0 <= a < |log| ==>
      && log[a].index < |creds| && log[a].cred == creds[log[a].index]
      && log[a].attemptId == a && log[a].retryAttempt <= Cap(maxRetries)
      && OutcomeFits(log[a].outcome, host, port, log[a].cred, jumper, env, a)
  }

  /** The results of the successful attempts, in order. */
  function SuccessesOf(log: seq<Trial>): (r: seq<Result>)
    ensures |r| <= |log|
    ensures forall x :: x in r ==> exists t :: t in log && t.outcome == Success(x)
  {
    if log == [] then []
    else
      var t := log[|log| - 1];
      SuccessesOf(log[..|log| - 1]) + (if t.outcome.Success? then [t.outcome.result] else [])
  }

  /** The credentials of the successful attempts, in order. */
  function SuccessCreds(log: seq<Trial>): (cs: seq<Credential>)
    ensures |cs| == |SuccessesOf(log)|
  {
    if log == [] then []
    else
      var t := log[|log| - 1];
      SuccessCreds(log[..|log| - 1]) + SuccessCred(t.outcome, t.cred)
  }

  /** The credentials of the attempts that stored theirs, in order. */
  function StoredCreds(log: seq<Trial>): (cs: seq<Credential>)
    ensures |SuccessCreds(log)| <= |cs| <= |log|
  {
    if log == [] then []
    else
      var t := log[|log| - 1];
      StoredCreds(log[..|log| - 1]) + StoredCred(t.outcome, t.cred)
  }

  /** Some successful attempt of the log reached a host whose remote hostname is `h`. */
  predicate SucceededTo(log: seq<Trial>, env: Env, h: string) {
    h != "" && exists a :: 0 <= a < |log| && log[a].outcome.Success? && env.hostnameOf(log[a].outcome.result.sshSession) == h
  }

  /** The credential at position `i` had its first attempt. */
  predicate Launched(log: seq<Trial>, i: int) {
    exists a :: 0 <= a < |log| && log[a].index == i && log[a].retryAttempt == 0
  }

  /** How many attempts the log holds for the credential at position `i`. */
  function CountFor(log: seq<Trial>, i: nat): (n: nat)
    ensures n <= |log|
  {
    if log == [] then 0
    else CountFor(log[..|log| - 1], i) + (if log[|log| - 1].index == i then 1 else 0)
  }

  /** A credential whose attempts are only retried after a loss, with increasing retry
      numbers below `bound`, is attempted at most `bound` times. */
  lemma {:induction false} AttemptsBounded(log: seq<Trial>, i: nat, bound: nat)
    requires OnlyLostRetried(log)
    requires forall a :: 0 <= a < |log| && log[a].index == i ==> log[a].retryAttempt < bound
    ensures CountFor(log, i) <= bound
  {
    if log != [] {
      var init := log[..|log| - 1];
      var last := log[|log| - 1];
      assert OnlyLostRetried(init) by {
        forall a, b | 0 <= a < b < |init| && init[a].index == init[b].index
          ensures init[a].outcome.Lost? && init[a].retryAttempt < init[b].retryAttempt
        {
          assert init[a] == log[a] && init[b] == log[b];
        }
      }
      if last.index == i {
        forall a | 0 <= a < |init| && init[a].index == i
          ensures init[a].retryAttempt < last.retryAttempt
        {
          assert init[a] == log[a];
        }
        AttemptsBounded(init, i, last.retryAttempt);
      } else {
        forall a | 0 <= a < |init| && init[a].index == i
          ensures init[a].retryAttempt < bound
        {
          assert init[a] == log[a];
        }
        AttemptsBounded(init, i, bound);
      }
    }
  }

  /** The fixed inputs of the rounds: the shuffled credentials, the target, the jump
      host, the environment, `max_retries` and the old connections. */
  datatype Setup = Setup(creds: seq<Credential>, host: string, port: int, jumper: Option<Session>,
                         env: Env, maxRetries: int, known: map<string, Edge>)

  /** The bookkeeping of the rounds: `retry_counts`, the current round's tasks
      still to run, the retries scheduled for the next round, the results so far and
      the old connections no success has reached. */
  datatype Rounds = Rounds(counts: seq<nat>, pending: seq<Task>, retries: seq<Task>,
                           results: seq<Result>, remaining: map<string, Edge>)

  /** `retry_counts` before the first round: zero for every credential. */
  function ZeroCounts(n: nat): (c: seq<nat>)
    ensures |c| == n && forall k :: 0 <= k < n ==> c[k] == 0
  {
    seq(n, _ => 0)
  }

  /** The first round: one task per credential, retry number zero. */
  function FirstTasks(n: nat): (ts: seq<Task>)
    ensures |ts| == n && forall k :: 0 <= k < n ==> ts[k] == Task(k, 0)
  {
    seq(n, k requires 0 <= k => Task(k, 0))
  }

  /** The bookkeeping before the first attempt. */
  function Start(s: Setup): Rounds {
    Rounds(ZeroCounts(|s.creds|), FirstTasks(|s.creds|), [], [], s.known)
  }

  /** The bookkeeping after the attempt of the first pending task ended with `o`: a lost
      attempt whose count is below `max_retries - 1` schedules the next retry, a success
      is collected and drops the old connection to the host it reached, anything else is final. */
  function Next(st: Rounds, o: TryOutcome, maxRetries: int, env: Env): (r: Rounds)
    ensures st.pending == [] ==> r == st
    ensures st.pending != [] ==> r.pending == st.pending[1..]
    // results: the success, and nothing else, is appended
    ensures st.results <= r.results
    ensures |r.results| == |st.results| + (if st.pending != [] && o.Success? then 1 else 0)
    ensures |r.results| > |st.results| ==> r.results[|st.results|] == o.result
    // retries: a lost attempt below the cap is rescheduled with its raised count
    ensures st.retries <= r.retries && |r.retries| <= |st.retries| + 1
    ensures st.pending != [] && st.pending[0].index < |st.counts| ==>
      (|r.retries| > |st.retries| <==> o.Lost? && st.counts[st.pending[0].index] < maxRetries - 1)
    ensures |r.retries| > |st.retries| ==>
      && o.Lost? && st.pending != [] && st.pending[0].index < |st.counts|
      && var i := st.pending[0].index;
      && r.retries[|st.retries|] == Task(i, st.counts[i] + 1)
      && r.counts == st.counts[i := st.counts[i] + 1]
      && st.counts[i] + 1 < maxRetries
    ensures |r.retries| == |st.retries| ==> r.counts == st.counts
    // old connections: only a success removes one, and nothing else changes
    ensures r.remaining.Keys <= st.remaining.Keys
    ensures forall h :: h in r.remaining ==> r.remaining[h] == st.remaining[h]
    ensures r.remaining != st.remaining ==> st.pending != [] && o.Success?
  {
    if st.pending == [] then st
    else
      var i := st.pending[0].index;
      var retry := o.Lost? && i < |st.counts| && st.counts[i] < maxRetries - 1;
      var h := if o.Success? then env.hostnameOf(o.result.sshSession) else "";
      Rounds(if retry then st.counts[i := st.counts[i] + 1] else st.counts,
             st.pending[1..],
             if retry then st.retries + [Task(i, st.counts[i] + 1)] else st.retries,
             st.results + (if o.Success? then [o.result] else []),
             if h != "" && h in st.remaining then st.remaining - {h} else st.remaining)
  }

  /** When a round has no task left, its retries become the next round's tasks. */
  function Ready(st: Rounds): Rounds {
    if st.pending == [] then st.(pending := st.retries, retries := []) else st
  }

  /** The bookkeeping once the attempts of `log` have been classified. */
  function Replay(s: Setup, log: seq<Trial>): Rounds {
    if log == [] then Start(s)
    else Ready(Next(Replay(s, log[..|log| - 1]), log[|log| - 1].outcome, s.maxRetries, s.env))
  }

  /** `e` is the attempt the rounds make after `log`: the first pending task, with its
      credential, the next attempt id, and an outcome that fits the connect outcome. */
  predicate NextTrial(s: Setup, log: seq<Trial>, e: Trial) {
    var st := Replay(s, log);
    && st.pending != [] && st.pending[0].index < |s.creds|
    && e == Trial(st.pending[0].index, s.creds[st.pending[0].index], st.pending[0].retryAttempt, |log|, e.outcome)
    && OutcomeFits(e.outcome, s.host, s.port, e.cred, s.jumper, s.env, |log|)
  }

  /** `log` is a run of the rounds: every attempt is the one the attempts before it lead to. */
  predicate Run(s: Setup, log: seq<Trial>) {
    log == [] || (Run(s, log[..|log| - 1]) && NextTrial(s, log[..|log| - 1], log[|log| - 1]))
  }

  lemma RunSnoc(s: Setup, log: seq<Trial>, e: Trial)
    ensures Run(s, log + [e]) <==> Run(s, log) && NextTrial(s, log, e)
    ensures Replay(s, log + [e]) == Ready(Next(Replay(s, log), e.outcome, s.maxRetries, s.env))
  {
    assert (log + [e])[..|log|] == log;
  }

  /** The current round's tasks and the retries for the next one name distinct
      credentials, each task is the next attempt of its credential, and every retry
      count is within the cap. */
  ghost predicate TasksInv(s: Setup, log: seq<Trial>, st: Rounds) {
    && |st.counts| == |s.creds| && (forall k :: 0 <= k < |st.counts| ==> st.counts[k] <= Cap(s.maxRetries))
    && DistinctIndices(st.pending) && DistinctIndices(st.retries)
    && (forall a, b :: 0 <= a < |st.pending| && 0 <= b < |st.retries| ==> st.pending[a].index != st.retries[b].index)
    && (forall k :: 0 <= k < |st.pending| ==> TaskReady(log, st.counts, st.pending[k]))
    && (forall k :: 0 <= k < |st.retries| ==> TaskReady(log, st.counts, st.retries[k]))
  }

  /** What the attempts so far did: only lost attempts were retried, each retry follows
      its loss, every credential was launched or waits for its first attempt, and every
      lost attempt below the cap was retried or has its retry scheduled. */
  ghost predicate HistoryInv(s: Setup, log: seq<Trial>, st: Rounds) {
    && OnlyLostRetried(log) && RetriesFollowLoss(log)
    && (forall i :: 0 <= i < |s.creds| ==> Launched(log, i) || Task(i, 0) in st.pending)
    && (forall a :: 0 <= a < |log| && log[a].outcome.Lost? && log[a].retryAttempt < s.maxRetries - 1 ==>
          RetriedLater(log, a) || Task(log[a].index, log[a].retryAttempt + 1) in st.pending + st.retries)
  }

  /** What the attempts so far produced: well-formed attempts, their results in order,
      and the old connections no success reached. */
  ghost predicate OutputInv(s: Setup, log: seq<Trial>, st: Rounds) {
    && WellFormed(log, s.creds, s.host, s.port, s.jumper, s.env, s.maxRetries)
    && st.results == SuccessesOf(log)
    && (forall h :: h in st.remaining <==> h in s.known && !SucceededTo(log, s.env, h))
    && (forall h :: h in st.remaining ==> st.remaining[h] == s.known[h])
  }

  /** The attempt at position `a` has its next retry later in the log. */
  predicate RetriedLater(log: seq<Trial>, a: int)
    requires 0 <= a < |log|
  {
    exists b :: a < b < |log| && log[b].index == log[a].index && log[b].retryAttempt == log[a].retryAttempt + 1
  }

  /** The attempt of a ready task keeps every attempt well formed. */
  lemma WellFormedStep(log: seq<Trial>, e: Trial, creds: seq<Credential>,
                       host: string, port: int, jumper: Option<Session>, env: Env, maxRetries: int)
    requires WellFormed(log, creds, host, port, jumper, env, maxRetries)
    requires e.index < |creds| && e.cred == creds[e.index] && e.attemptId == |log| && e.retryAttempt <= Cap(maxRetries)
    requires OutcomeFits(e.outcome, host, port, e.cred, jumper, env, |log|)
    ensures WellFormed(log + [e], creds, host, port, jumper, env, maxRetries)
  {
    var next := log + [e];
    forall a | 0 <= a < |next|
      ensures next[a].index < |creds| && next[a].cred == creds[next[a].index]
      ensures next[a].attemptId == a && next[a].retryAttempt <= Cap(maxRetries)
      ensures OutcomeFits(next[a].outcome, host, port, next[a].cred, jumper, env, a)
    {
      if a < |log| {
        assert next[a] == log[a];
      }
    }
  }

  /** The attempt of a ready task keeps earlier attempts of its credential lost ones. */
  lemma OnlyLostRetriedStep(log: seq<Trial>, counts: seq<nat>, t: Task, e: Trial)
    requires TaskReady(log, counts, t) && OnlyLostRetried(log)
    requires e.index == t.index && e.retryAttempt == t.retryAttempt
    ensures OnlyLostRetried(log + [e])
  {
    var next := log + [e];
    forall a, b | 0 <= a < b < |next| && next[a].index == next[b].index
      ensures next[a].outcome.Lost? && next[a].retryAttempt < next[b].retryAttempt
    {
      assert next[a] == log[a];
      if b < |log| {
        assert next[b] == log[b];
      }
    }
  }

  /** The attempt of a ready task follows the loss it retries. */
  lemma RetriesFollowLossStep(log: seq<Trial>, counts: seq<nat>, t: Task, e: Trial)
    requires TaskReady(log, counts, t) && RetriesFollowLoss(log)
    requires e.index == t.index && e.retryAttempt == t.retryAttempt
    ensures RetriesFollowLoss(log + [e])
  {
    var next := log + [e];
    forall b | 0 <= b < |next| && next[b].retryAttempt > 0
      ensures exists a :: 0 <= a < b && next[a].index == next[b].index
                          && next[a].retryAttempt == next[b].retryAttempt - 1 && next[a].outcome.Lost?
    {
      if b < |log| {
        assert next[b] == log[b];
        var a :| 0 <= a < b && log[a].index == log[b].index
                 && log[a].retryAttempt == log[b].retryAttempt - 1 && log[a].outcome.Lost?;
        assert next[a] == log[a];
      } else {
        assert next[b] == e;
        var a :| 0 <= a < |log| && log[a].index == t.index
                 && log[a].retryAttempt == t.retryAttempt - 1 && log[a].outcome.Lost?;
        assert next[a] == log[a];
      }
    }
  }

  /** A ready task of another credential stays ready after the attempt. */
  lemma OtherTaskStaysReady(log: seq<Trial>, counts: seq<nat>, counts': seq<nat>, e: Trial, u: Task)
    requires TaskReady(log, counts, u) && e.index != u.index
    requires |counts'| == |counts| && counts'[u.index] == counts[u.index]
    ensures TaskReady(log + [e], counts', u)
  {
    var next := log + [e];
    assert forall a :: 0 <= a < |log| ==> next[a] == log[a];
    if u.retryAttempt > 0 {
      var a :| 0 <= a < |log| && log[a].index == u.index && log[a].retryAttempt == u.retryAttempt - 1 && log[a].outcome.Lost?;
      assert next[a] == log[a];
    }
  }

  /** The retry scheduled after a lost attempt is ready. */
  lemma RetryReady(log: seq<Trial>, counts: seq<nat>, t: Task, e: Trial)
    requires TaskReady(log, counts, t) && e.index == t.index && e.retryAttempt == t.retryAttempt && e.outcome.Lost?
    ensures TaskReady(log + [e], counts[t.index := counts[t.index] + 1], Task(t.index, t.retryAttempt + 1))
  {
    var next := log + [e];
    assert next[|log|] == e;
    assert forall a :: 0 <= a < |log| ==> next[a] == log[a];
  }

  lemma SuccessesStep(log: seq<Trial>, e: Trial)
    ensures SuccessesOf(log + [e]) == SuccessesOf(log) + (if e.outcome.Success? then [e.outcome.result] else [])
  {
    assert (log + [e])[..|log|] == log;
  }

  lemma RecordsStep(log: seq<Trial>, e: Trial, source: string, host: string, port: int, env: Env)
    ensures RecordsOf(log + [e], source, host, port, env) == RecordsOf(log, source, host, port, env)
              + (if !e.outcome.Lost? && env.recordOk(e.attemptId) then [RowOf(e, source, host, port, env)] else [])
  {
    assert (log + [e])[..|log|] == log;
  }

  /** The ledger after one more attempt of the rounds. */
  lemma LedgerStep(baseRows: seq<AttemptStore.Attempt>, before: seq<AttemptStore.Attempt>, after: seq<AttemptStore.Attempt>,
                   recording: bool, log: seq<Trial>, e: Trial, source: string, host: string, port: int, env: Env)
    requires before == baseRows + (if recording then RecordsOf(log, source, host, port, env) else [])
    requires after == before + (if recording && !e.outcome.Lost? && env.recordOk(e.attemptId)
                                then [RowOf(Trial(0, e.cred, 0, e.attemptId, e.outcome), source, host, port, env)] else [])
    ensures after == baseRows + (if recording then RecordsOf(log + [e], source, host, port, env) else [])
  {
    RecordsStep(log, e, source, host, port, env);
    assert RowOf(Trial(0, e.cred, 0, e.attemptId, e.outcome), source, host, port, env) == RowOf(e, source, host, port, env);
  }

  lemma SucceededToStep(log: seq<Trial>, e: Trial, env: Env, h: string)
    ensures SucceededTo(log + [e], env, h) <==>
            SucceededTo(log, env, h) || (h != "" && e.outcome.Success? && env.hostnameOf(e.outcome.result.sshSession) == h)
  {
    var next := log + [e];
    assert forall a :: 0 <= a < |log| ==> next[a] == log[a];
    assert next[|log|] == e;
    if SucceededTo(next, env, h) && !SucceededTo(log, env, h) {
      var a :| 0 <= a < |next| && next[a].outcome.Success? && env.hostnameOf(next[a].outcome.result.sshSession) == h;
      assert a == |log|;
    }
  }

  lemma LaunchedStep(log: seq<Trial>, e: Trial, i: int)
    ensures Launched(log + [e], i) <==> Launched(log, i) || (e.index == i && e.retryAttempt == 0)
  {
    var next := log + [e];
    assert forall a :: 0 <= a < |log| ==> next[a] == log[a];
    assert next[|log|] == e;
  }

  lemma RetriedLaterStep(log: seq<Trial>, e: Trial, a: int)
    requires 0 <= a < |log|
    ensures RetriedLater(log + [e], a) <==>
            RetriedLater(log, a) || (e.index == log[a].index && e.retryAttempt == log[a].retryAttempt + 1)
  {
    var next := log + [e];
    assert forall b :: 0 <= b < |log| ==> next[b] == log[b];
    assert next[|log|] == e;
  }

  /** Pending and scheduled tasks stay ready, distinct and apart after the attempt of the
      first pending task. */
  lemma TasksStep(log: seq<Trial>, counts: seq<nat>, pending: seq<Task>, retries: seq<Task>,
                  e: Trial, counts': seq<nat>, retries': seq<Task>, maxRetries: int)
    requires pending != [] && pending[0].index < |counts|
    requires DistinctIndices(pending) && DistinctIndices(retries)
    requires forall a, b :: 0 <= a < |pending| && 0 <= b < |retries| ==> pending[a].index != retries[b].index
    requires forall k :: 0 <= k < |pending| ==> TaskReady(log, counts, pending[k])
    requires forall k :: 0 <= k < |retries| ==> TaskReady(log, counts, retries[k])
    requires e.index == pending[0].index && e.retryAttempt == pending[0].retryAttempt
    requires var i := pending[0].index;
             if e.outcome.Lost? && counts[i] < maxRetries - 1
             then counts' == counts[i := counts[i] + 1] && retries' == retries + [Task(i, counts[i] + 1)]
             else counts' == counts && retries' == retries
    ensures DistinctIndices(pending[1..]) && DistinctIndices(retries')
    ensures forall a, b :: 0 <= a < |pending[1..]| && 0 <= b < |retries'| ==> pending[1..][a].index != retries'[b].index
    ensures forall k :: 0 <= k < |pending[1..]| ==> TaskReady(log + [e], counts', pending[1..][k])
    ensures forall k :: 0 <= k < |retries'| ==> TaskReady(log + [e], counts', retries'[k])
  {
    var t := pending[0];
    var rest := pending[1..];
    assert TaskReady(log, counts, t);
    forall k | 0 <= k < |rest|
      ensures TaskReady(log + [e], counts', rest[k])
    {
      assert rest[k] == pending[k + 1];
      OtherTaskStaysReady(log, counts, counts', e, rest[k]);
    }
    forall k | 0 <= k < |retries'|
      ensures TaskReady(log + [e], counts', retries'[k])
    {
      if k < |retries| {
        assert retries'[k] == retries[k];
        assert retries[k].index != pending[0].index;
        OtherTaskStaysReady(log, counts, counts', e, retries[k]);
      } else {
        RetryReady(log, counts, t, e);
      }
    }
    forall a, b | 0 <= a < b < |retries'|
      ensures retries'[a].index != retries'[b].index
    {
      assert retries'[a] == retries[a];
      if b >= |retries| {
        assert retries[a].index != pending[0].index;
      } else {
        assert retries'[b] == retries[b];
      }
    }
    forall a, b | 0 <= a < |rest| && 0 <= b < |retries'|
      ensures rest[a].index != retries'[b].index
    {
      assert rest[a] == pending[a + 1];
      if b < |retries| {
        assert retries'[b] == retries[b];
      }
    }
  }

  /** Every credential stays launched or pending for its first attempt. */
  lemma LaunchedRoundStep(log: seq<Trial>, pending: seq<Task>, e: Trial, n: nat)
    requires pending != [] && e.index == pending[0].index && e.retryAttempt == pending[0].retryAttempt
    requires forall i :: 0 <= i < n ==> Launched(log, i) || Task(i, 0) in pending
    ensures forall i :: 0 <= i < n ==> Launched(log + [e], i) || Task(i, 0) in pending[1..]
  {
    forall i | 0 <= i < n
      ensures Launched(log + [e], i) || Task(i, 0) in pending[1..]
    {
      LaunchedStep(log, e, i);
      assert pending == [pending[0]] + pending[1..];
    }
  }

  /** Every lost attempt below the cap stays retried or scheduled for retry. */
  lemma RetriedRoundStep(log: seq<Trial>, counts: seq<nat>, pending: seq<Task>, retries: seq<Task>,
                         e: Trial, retries': seq<Task>, maxRetries: int)
    requires pending != [] && e.index == pending[0].index && e.retryAttempt == pending[0].retryAttempt
    requires TaskReady(log, counts, pending[0])
    requires forall a :: 0 <= a < |log| && log[a].outcome.Lost? && log[a].retryAttempt < maxRetries - 1 ==>
               RetriedLater(log, a) || Task(log[a].index, log[a].retryAttempt + 1) in pending + retries
    requires var i := pending[0].index;
             if e.outcome.Lost? && counts[i] < maxRetries - 1
             then retries' == retries + [Task(i, counts[i] + 1)]
             else retries' == retries
    ensures var log' := log + [e];
            forall a :: 0 <= a < |log'| && log'[a].outcome.Lost? && log'[a].retryAttempt < maxRetries - 1 ==>
              RetriedLater(log', a) || Task(log'[a].index, log'[a].retryAttempt + 1) in pending[1..] + retries'
  {
    var log' := log + [e];
    var rest := pending[1..];
    forall a | 0 <= a < |log'| && log'[a].outcome.Lost? && log'[a].retryAttempt < maxRetries - 1
      ensures RetriedLater(log', a) || Task(log'[a].index, log'[a].retryAttempt + 1) in rest + retries'
    {
      if a < |log| {
        assert log'[a] == log[a];
        RetriedLaterStep(log, e, a);
        var want := Task(log[a].index, log[a].retryAttempt + 1);
        if !RetriedLater(log, a) && !(e.index == log[a].index && e.retryAttempt == log[a].retryAttempt + 1) {
          assert want in pending + retries;
          if want in pending {
            var k :| 0 <= k < |pending| && pending[k] == want;
            assert k != 0;
            assert rest[k - 1] == want;
          } else {
            var k :| 0 <= k < |retries| && retries[k] == want;
            assert retries'[k] == want;
          }
          assert want in rest + retries';
        }
      } else {
        assert log'[a] == e;
        assert retries'[|retries|] == Task(e.index, e.retryAttempt + 1);
      }
    }
  }

  /** The old connections left are those no successful attempt reached. */
  lemma RemainingStep(log: seq<Trial>, e: Trial, env: Env, known: map<string, Edge>,
                      remaining: map<string, Edge>, remaining': map<string, Edge>)
    requires forall h :: h in remaining <==> h in known && !SucceededTo(log, env, h)
    requires forall h :: h in remaining ==> remaining[h] == known[h]
    requires remaining' ==
             if e.outcome.Success? && env.hostnameOf(e.outcome.result.sshSession) != ""
                && env.hostnameOf(e.outcome.result.sshSession) in remaining
             then remaining - {env.hostnameOf(e.outcome.result.sshSession)} else remaining
    ensures forall h :: h in remaining' <==> h in known && !SucceededTo(log + [e], env, h)
    ensures forall h :: h in remaining' ==> remaining'[h] == known[h]
  {
    forall h
      ensures h in remaining' <==> h in known && !SucceededTo(log + [e], env, h)
    {
      SucceededToStep(log, e, env, h);
    }
  }

  /** `TasksInv` before the first attempt. */
  lemma StartTasks(s: Setup)
    ensures TasksInv(s, [], Start(s))
  {
  }

  /** `HistoryInv` and `OutputInv` before the first attempt. */
  lemma StartHistory(s: Setup)
    ensures HistoryInv(s, [], Start(s)) && OutputInv(s, [], Start(s))
  {
    var st := Start(s);
    forall i | 0 <= i < |s.creds|
      ensures Task(i, 0) in st.pending
    {
      assert st.pending[i] == Task(i, 0);
    }
  }

  /** The attempt of the first pending task keeps `TasksInv`, also across the end of a round. */
  lemma TasksKept(s: Setup, log: seq<Trial>, st: Rounds, e: Trial)
    requires TasksInv(s, log, st)
    requires st.pending != [] && e.index == st.pending[0].index && e.retryAttempt == st.pending[0].retryAttempt
    ensures TasksInv(s, log + [e], Ready(Next(st, e.outcome, s.maxRetries, s.env)))
  {
    var n := Next(st, e.outcome, s.maxRetries, s.env);
    TasksStep(log, st.counts, st.pending, st.retries, e, n.counts, n.retries, s.maxRetries);
    var i := st.pending[0].index;
    if e.outcome.Lost? && st.counts[i] < s.maxRetries - 1 {
      assert st.counts[i] < Cap(s.maxRetries);
    }
  }

  /** The attempt of the first pending task keeps `HistoryInv`, also across the end of a round. */
  lemma HistoryKept(s: Setup, log: seq<Trial>, st: Rounds, e: Trial)
    requires HistoryInv(s, log, st)
    requires st.pending != [] && st.pending[0].index < |st.counts| && TaskReady(log, st.counts, st.pending[0])
    requires e.index == st.pending[0].index && e.retryAttempt == st.pending[0].retryAttempt
    ensures HistoryInv(s, log + [e], Ready(Next(st, e.outcome, s.maxRetries, s.env)))
  {
    var n := Next(st, e.outcome, s.maxRetries, s.env);
    OnlyLostRetriedStep(log, st.counts, st.pending[0], e);
    RetriesFollowLossStep(log, st.counts, st.pending[0], e);
    LaunchedRoundStep(log, st.pending, e, |s.creds|);
    RetriedRoundStep(log, st.counts, st.pending, st.retries, e, n.retries, s.maxRetries);
    if n.pending == [] {
      assert [] + n.retries == n.retries + [];
    }
  }

  /** The attempt of the first pending task keeps `OutputInv`. */
  lemma OutputKept(s: Setup, log: seq<Trial>, st: Rounds, e: Trial)
    requires OutputInv(s, log, st)
    requires st.pending != [] && st.pending[0].index < |s.creds|
    requires e == Trial(st.pending[0].index, s.creds[st.pending[0].index], st.pending[0].retryAttempt, |log|, e.outcome)
    requires e.retryAttempt <= Cap(s.maxRetries)
    requires OutcomeFits(e.outcome, s.host, s.port, e.cred, s.jumper, s.env, |log|)
    ensures OutputInv(s, log + [e], Ready(Next(st, e.outcome, s.maxRetries, s.env)))
  {
    var n := Next(st, e.outcome, s.maxRetries, s.env);
    WellFormedStep(log, e, s.creds, s.host, s.port, s.jumper, s.env, s.maxRetries);
    SuccessesStep(log, e);
    RemainingStep(log, e, s.env, s.known, st.remaining, n.remaining);
  }

  /** Every run keeps `TasksInv`. */
  lemma {:induction false} RunKeepsTasks(s: Setup, log: seq<Trial>)
    requires Run(s, log)
    ensures TasksInv(s, log, Replay(s, log))
  {
    if log == [] {
      StartTasks(s);
    } else {
      var init := log[..|log| - 1];
      RunKeepsTasks(s, init);
      assert init + [log[|log| - 1]] == log;
      TasksKept(s, init, Replay(s, init), log[|log| - 1]);
    }
  }

  /** Every run keeps `HistoryInv`. */
  lemma {:induction false} RunKeepsHistory(s: Setup, log: seq<Trial>)
    requires Run(s, log)
    ensures HistoryInv(s, log, Replay(s, log))
  {
    if log == [] {
      StartHistory(s);
    } else {
      var init, last := log[..|log| - 1], log[|log| - 1];
      RunKeepsHistory(s, init);
      HistoryStep(s, log);
    }
  }

  /** One more attempt of a run keeps `HistoryInv`. */
  lemma HistoryStep(s: Setup, log: seq<Trial>)
    requires log != [] && Run(s, log) && HistoryInv(s, log[..|log| - 1], Replay(s, log[..|log| - 1]))
    ensures HistoryInv(s, log, Replay(s, log))
  {
    var init, last := log[..|log| - 1], log[|log| - 1];
    assert init + [last] == log;
    var st := Replay(s, init);
    RunBookkeeping(s, init);
    RunSnoc(s, init, last);
    HistoryKept(s, init, st, last);
  }

  /** Every run keeps `OutputInv`. */
  lemma {:induction false} RunKeepsOutput(s: Setup, log: seq<Trial>)
    requires Run(s, log)
    ensures OutputInv(s, log, Replay(s, log))
  {
    if log == [] {
      StartHistory(s);
    } else {
      var init, last := log[..|log| - 1], log[|log| - 1];
      RunKeepsOutput(s, init);
      OutputStep(s, log);
    }
  }

  /** One more attempt of a run keeps `OutputInv`. */
  lemma OutputStep(s: Setup, log: seq<Trial>)
    requires log != [] && Run(s, log) && OutputInv(s, log[..|log| - 1], Replay(s, log[..|log| - 1]))
    ensures OutputInv(s, log, Replay(s, log))
  {
    var init, last := log[..|log| - 1], log[|log| - 1];
    assert init + [last] == log;
    var st := Replay(s, init);
    RunBookkeeping(s, init);
    RunSnoc(s, init, last);
    OutputKept(s, init, st, last);
  }

  /** During a run every pending task names a credential, every retry count is within the
      cap, and the first pending task is the next attempt of its credential. */
  lemma RunBookkeeping(s: Setup, log: seq<Trial>)
    requires Run(s, log)
    ensures var st := Replay(s, log);
      && |st.counts| == |s.creds| && (forall k :: 0 <= k < |st.counts| ==> st.counts[k] <= Cap(s.maxRetries))
      && (forall k :: 0 <= k < |st.pending| ==> st.pending[k].index < |s.creds|)
      && (st.pending != [] ==> TaskReady(log, st.counts, st.pending[0]))
  {
    RunKeepsTasks(s, log);
    var st := Replay(s, log);
    forall k | 0 <= k < |st.pending|
      ensures st.pending[k].index < |s.creds|
    {
      assert TaskReady(log, st.counts, st.pending[k]);
    }
  }

  /** When a run has no task left, every credential was launched, every lost attempt below
      the cap was retried, and the results and the old connections left are those of the log. */
  lemma RunDone(s: Setup, log: seq<Trial>)
    requires Run(s, log) && Replay(s, log).pending == []
    ensures WellFormed(log, s.creds, s.host, s.port, s.jumper, s.env, s.maxRetries)
    ensures forall i :: 0 <= i < |s.creds| ==> Launched(log, i)
    ensures OnlyLostRetried(log) && RetriesFollowLoss(log)
    ensures forall a :: 0 <= a < |log| && log[a].outcome.Lost? && log[a].retryAttempt < s.maxRetries - 1 ==> RetriedLater(log, a)
    ensures Replay(s, log).results == SuccessesOf(log)
    ensures forall h :: h in Replay(s, log).remaining <==> h in s.known && !SucceededTo(log, s.env, h)
    ensures forall h :: h in Replay(s, log).remaining ==> Replay(s, log).remaining[h] == s.known[h]
  {
    RunKeepsHistory(s, log);
    RunKeepsOutput(s, log);
    var st := Replay(s, log);
    assert st.retries == [];
    assert st.pending + st.retries == [];
  }

  /** Scheduling a retry spends one unit of the budget; anything else spends none. */
  lemma BudgetNext(st: Rounds, o: TryOutcome, maxRetries: int, env: Env)
    requires forall k :: 0 <= k < |st.counts| ==> st.counts[k] <= Cap(maxRetries)
    ensures var n := Next(st, o, maxRetries, env);
      && (forall k :: 0 <= k < |n.counts| ==> n.counts[k] <= Cap(maxRetries))
      && Budget(n.counts, Cap(maxRetries)) + |n.retries| == Budget(st.counts, Cap(maxRetries)) + |st.retries|
  {
    if st.pending != [] {
      var i := st.pending[0].index;
      if o.Lost? && i < |st.counts| && st.counts[i] < maxRetries - 1 {
        BudgetSpend(st.counts, Cap(maxRetries), i);
      }
    }
  }

  /** What the round makes of the outcome of its first pending task. */
  method Classify(pending: seq<Task>, o: TryOutcome, maxRetries: int, env: Env,
                  counts: seq<nat>, retries: seq<Task>, results: seq<Result>, remaining: map<string, Edge>)
    returns (counts': seq<nat>, retries': seq<Task>, results': seq<Result>, remaining': map<string, Edge>)
    requires pending != [] && pending[0].index < |counts|
    ensures Rounds(counts', pending[1..], retries', results', remaining')
            == Next(Rounds(counts, pending, retries, results, remaining), o, maxRetries, env)
  {
    var i := pending[0].index;
    counts', retries', results', remaining' := counts, retries, results, remaining;
    match o {
      case Lost(_) =>
        if counts[i] < maxRetries - 1 {
          counts' := counts[i := counts[i] + 1];
          retries' := retries + [Task(i, counts'[i])];
        }
      case NoResult(_) =>
      case Success(r) =>
        results' := results + [r];
        var h := env.hostnameOf(r.sshSession);
        if h != "" && h in remaining {
          remaining' := remaining - {h};
        }
    }
  }

  /** The ledger holds the rows it had before and then the rows of the attempts of `log`. */
  ghost predicate LedgerHolds(ledger: Option<AttemptStore.AttemptStore>, source: string, recordEnabled: bool,
                              baseRows: seq<AttemptStore.Attempt>, s: Setup, log: seq<Trial>)
    reads LedgerFrame(ledger)
  {
    ledger.Some? ==>
      ledger.value.rows == baseRows + (if Recording(ledger, source, recordEnabled) then RecordsOf(log, source, s.host, s.port, s.env) else [])
  }

  /** `log` is a run of the rounds that leaves the bookkeeping `st`, whose retry counts are within the cap. */
  ghost predicate RoundsAt(s: Setup, log: seq<Trial>, st: Rounds) {
    && Run(s, log)
    && Replay(s, log) == Ready(st)
    && (forall k :: 0 <= k < |st.counts| ==> st.counts[k] <= Cap(s.maxRetries))
  }

  /** One attempt of a round: the first pending task runs through `limited_try`, and its
      outcome is classified. The run of the rounds, the retry budget, the ledger and the
      store and the manager all go on to the log with this attempt added. */
  method RunTask(s: Setup, store: CredentialStore.CredentialStore, manager: SessionManager.SSHSessionManager,
                 ledger: Option<AttemptStore.AttemptStore>, source: string, recordEnabled: bool,
                 pending: seq<Task>, counts: seq<nat>, retries: seq<Task>, results: seq<Result>,
                 remaining: map<string, Edge>, nextId: nat,
                 ghost log: seq<Trial>, ghost baseRows: seq<AttemptStore.Attempt>,
                 ghost baseCreds: seq<Credential>, ghost baseCache: Cache)
    returns (counts': seq<nat>, retries': seq<Task>, results': seq<Result>, remaining': map<string, Edge>,
             ghost e: Trial)
    requires nextId == |log|
    requires pending != [] && pending[0].index < |s.creds| == |counts|
    requires RoundsAt(s, log, Rounds(counts, pending, retries, results, remaining))
    requires LedgerHolds(ledger, source, recordEnabled, baseRows, s, log)
    requires Effects(store, manager, baseCreds, baseCache, s.host, s.port, s.jumper, s.env, StoredCreds(log), SuccessCreds(log))
    modifies store, manager, LedgerFrame(ledger)
    ensures e == Trial(pending[0].index, s.creds[pending[0].index], pending[0].retryAttempt, nextId, e.outcome)
    ensures OutcomeFits(e.outcome, s.host, s.port, e.cred, s.jumper, s.env, nextId)
    ensures Rounds(counts', pending[1..], retries', results', remaining')
            == Next(Rounds(counts, pending, retries, results, remaining), e.outcome, s.maxRetries, s.env)
    ensures RoundsAt(s, log + [e], Rounds(counts', pending[1..], retries', results', remaining'))
    ensures Budget(counts', Cap(s.maxRetries)) + |retries'| == Budget(counts, Cap(s.maxRetries)) + |retries|
    ensures ledger.Some? ==>
      ledger.value.rows == old(ledger.value.rows)
                           + (if Recording(ledger, source, recordEnabled) && !e.outcome.Lost? && s.env.recordOk(nextId)
                              then [RowOf(Trial(0, e.cred, 0, nextId, e.outcome), source, s.host, s.port, s.env)] else [])
    ensures LedgerHolds(ledger, source, recordEnabled, baseRows, s, log + [e])
    ensures Effects(store, manager, baseCreds, baseCache, s.host, s.port, s.jumper, s.env, StoredCreds(log + [e]), SuccessCreds(log + [e]))
  {
    ghost var st := Rounds(counts, pending, retries, results, remaining);
    ghost var rows := if ledger.Some? then ledger.value.rows else [];
    var t := pending[0];
    var cred := s.creds[t.index];
    var o := LimitedTry(s.host, s.port, cred, s.jumper, store, manager, ledger, source, recordEnabled, s.env, nextId);
    e := Trial(t.index, cred, t.retryAttempt, nextId, o);
    counts', retries', results', remaining' := Classify(pending, o, s.maxRetries, s.env, counts, retries, results, remaining);
    if ledger.Some? {
      LedgerStep(baseRows, rows, ledger.value.rows, Recording(ledger, source, recordEnabled), log, e, source, s.host, s.port, s.env);
    }
    BudgetNext(st, e.outcome, s.maxRetries, s.env);
    RunSnoc(s, log, e);
    EffectsSnoc(s, baseCreds, baseCache, log, e);
  }

  /** The store and the manager after one more attempt are those after the attempts before it,
      updated by that attempt. */
  lemma EffectsSnoc(s: Setup, baseCreds: seq<Credential>, baseCache: Cache, log: seq<Trial>, e: Trial)
    ensures StoreAll(baseCreds, s.host, s.port, StoredCreds(log + [e]))
         == StoreAll(StoreAll(baseCreds, s.host, s.port, StoredCreds(log)), s.host, s.port, StoredCred(e.outcome, e.cred))
    ensures RegisterAll(baseCache, s.host, s.port, s.jumper, s.env, SuccessCreds(log + [e]))
         == RegisterAll(RegisterAll(baseCache, s.host, s.port, s.jumper, s.env, SuccessCreds(log)),
                        s.host, s.port, s.jumper, s.env, SuccessCred(e.outcome, e.cred))
  {
    assert (log + [e])[..|log|] == log;
    StoreAllAppend(baseCreds, s.host, s.port, StoredCreds(log), StoredCred(e.outcome, e.cred));
    RegisterAllAppend(baseCache, s.host, s.port, s.jumper, s.env, SuccessCreds(log), SuccessCred(e.outcome, e.cred));
  }

  /** One `gather` round: its tasks run in order, and the retries for the next round are returned. */
  method RunRound(s: Setup, store: CredentialStore.CredentialStore, manager: SessionManager.SSHSessionManager,
                  ledger: Option<AttemptStore.AttemptStore>, source: string, recordEnabled: bool,
                  tasks: seq<Task>, retryCounts: seq<nat>, results: seq<Result>, remaining: map<string, Edge>,
                  nextId: nat, ghost log: seq<Trial>, ghost baseRows: seq<AttemptStore.Attempt>,
                  ghost baseCreds: seq<Credential>, ghost baseCache: Cache)
    returns (retries: seq<Task>, retryCounts': seq<nat>, results': seq<Result>, remaining': map<string, Edge>,
             nextId': nat, ghost log': seq<Trial>)
    requires Run(s, log) && nextId == |log|
    requires Replay(s, log) == Rounds(retryCounts, tasks, [], results, remaining)
    requires forall k :: 0 <= k < |retryCounts| ==> retryCounts[k] <= Cap(s.maxRetries)
    requires LedgerHolds(ledger, source, recordEnabled, baseRows, s, log)
    requires Effects(store, manager, baseCreds, baseCache, s.host, s.port, s.jumper, s.env, StoredCreds(log), SuccessCreds(log))
    modifies store, manager, LedgerFrame(ledger)
    ensures Run(s, log') && nextId' == |log'|
    ensures Replay(s, log') == Rounds(retryCounts', retries, [], results', remaining')
    ensures forall k :: 0 <= k < |retryCounts'| ==> retryCounts'[k] <= Cap(s.maxRetries)
    ensures Budget(retryCounts', Cap(s.maxRetries)) + |retries| == Budget(retryCounts, Cap(s.maxRetries))
    ensures LedgerHolds(ledger, source, recordEnabled, baseRows, s, log')
    ensures Effects(store, manager, baseCreds, baseCache, s.host, s.port, s.jumper, s.env, StoredCreds(log'), SuccessCreds(log'))
  {
    retries, retryCounts', results', remaining', nextId', log' := [], retryCounts, results, remaining, nextId, log;
    var pending := tasks;
    while pending != []
      invariant nextId' == |log'| && RoundsAt(s, log', Rounds(retryCounts', pending, retries, results', remaining'))
      invariant Budget(retryCounts', Cap(s.maxRetries)) + |retries| == Budget(retryCounts, Cap(s.maxRetries))
      invariant LedgerHolds(ledger, source, recordEnabled, baseRows, s, log')
      invariant Effects(store, manager, baseCreds, baseCache, s.host, s.port, s.jumper, s.env, StoredCreds(log'), SuccessCreds(log'))
    {
      RunBookkeeping(s, log');
      var counts2, retries2, results2, remaining2, e :=
        RunTask(s, store, manager, ledger, source, recordEnabled, pending, retryCounts', retries, results', remaining', nextId',
                log', baseRows, baseCreds, baseCache);
      retryCounts', retries, results', remaining' := counts2, retries2, results2, remaining2;
      log' := log' + [e];
      nextId' := nextId' + 1;
      pending := pending[1..];
    }
  }

  /** The `while tasks` loop: every credential is launched once, a lost attempt is
      retried while its count is below `max_retries - 1`, successes are collected
      in order and drop the old connection to the host they reached, and every
      attempt that returned is recorded. */
  method RunRounds(host: string, port: int, jumper: Option<Session>,
                   store: CredentialStore.CredentialStore, manager: SessionManager.SSHSessionManager,
                   ledger: Option<AttemptStore.AttemptStore>, source: string, recordEnabled: bool,
                   creds: seq<Credential>, maxRetries: int, known: map<string, Edge>, env: Env)
    returns (results: seq<Result>, remaining: map<string, Edge>, nextId: nat, ghost log: seq<Trial>)
    modifies store, manager, LedgerFrame(ledger)
    ensures WellFormed(log, creds, host, port, jumper, env, maxRetries) && nextId == |log|
    ensures forall i :: 0 <= i < |creds| ==> Launched(log, i)
    ensures OnlyLostRetried(log) && RetriesFollowLoss(log)
    ensures forall a :: 0 <= a < |log| && log[a].outcome.Lost? && log[a].retryAttempt < maxRetries - 1 ==> RetriedLater(log, a)
    ensures results == SuccessesOf(log)
    ensures forall h :: h in remaining <==> h in known && !SucceededTo(log, env, h)
    ensures forall h :: h in remaining ==> remaining[h] == known[h]
    ensures ledger.Some? ==>
      ledger.value.rows == old(ledger.value.rows)
                           + (if Recording(ledger, source, recordEnabled) then RecordsOf(log, source, host, port, env) else [])
    ensures Effects(store, manager, old(store.credentials), Cache(old(manager.sessions), old(manager.closed)), host, port, jumper, env, StoredCreds(log), SuccessCreds(log))
  {
    var s := Setup(creds, host, port, jumper, env, maxRetries, known);
    var retryCounts := ZeroCounts(|creds|);
    var tasks := FirstTasks(|creds|);
    results, remaining, nextId, log := [], known, 0, [];
    while tasks != []
      invariant Run(s, log) && nextId == |log|
      invariant Replay(s, log) == Rounds(retryCounts, tasks, [], results, remaining)
      invariant forall k :: 0 <= k < |retryCounts| ==> retryCounts[k] <= Cap(maxRetries)
      invariant ledger.Some? ==>
        ledger.value.rows == old(ledger.value.rows)
                             + (if Recording(ledger, source, recordEnabled) then RecordsOf(log, source, host, port, env) else [])
      invariant Effects(store, manager, old(store.credentials), Cache(old(manager.sessions), old(manager.closed)), host, port, jumper, env, StoredCreds(log), SuccessCreds(log))
      decreases Budget(retryCounts, Cap(maxRetries)), |tasks|
    {
      tasks, retryCounts, results, remaining, nextId, log :=
        RunRound(s, store, manager, ledger, source, recordEnabled,
                 tasks, retryCounts, results, remaining, nextId, log, if ledger.Some? then old(ledger.value.rows) else [],
                 old(store.credentials), Cache(old(manager.sessions), old(manager.closed)));
    }
    RunDone(s, log);
  }

  // ---------------------------------------------------------------------
  // Fallback to the old connections
  // ---------------------------------------------------------------------

  /** An old connection can be re-used only if its user, secret and method are all non-empty. */
  predicate FallbackReady(p: Props) {
    && p.user.Some? && p.user.value != ""
    && p.creds.Some? && p.creds.value != ""
    && p.authMethod.Some? && p.authMethod.value != ""
  }

  /** The credential rebuilt from an old connection's properties. */
  function FallbackCredential(host: string, port: int, p: Props): (c: Credential)
    requires FallbackReady(p)
    ensures c.remoteIp == host && c.port == Decimal.IntToString(port)
    ensures c.user == p.user.value && c.secret == p.creds.value && c.authMethod == p.authMethod.value
  {
    CredentialStore.Credential(host, Decimal.IntToString(port), p.user.value, p.creds.value, p.authMethod.value)
  }

  /** One fallback attempt: the target, its edge, the credential rebuilt from it, the attempt id
      and the outcome. */
  datatype FallbackTrial = FallbackTrial(to: string, edge: Edge, cred: Credential, attemptId: nat, outcome: TryOutcome)

  /** The results of the successful fallback attempts, in order. */
  function FallbackSuccesses(flog: seq<FallbackTrial>): (r: seq<Result>)
    ensures |r| <= |flog|
  {
    if flog == [] then []
    else
      var t := flog[|flog| - 1];
      FallbackSuccesses(flog[..|flog| - 1]) + (if t.outcome.Success? then [t.outcome.result] else [])
  }

  /** The credentials of the successful fallback attempts, in order. */
  function FallbackSuccessCreds(flog: seq<FallbackTrial>): (cs: seq<Credential>)
    ensures |cs| == |FallbackSuccesses(flog)|
  {
    if flog == [] then []
    else
      var t := flog[|flog| - 1];
      FallbackSuccessCreds(flog[..|flog| - 1]) + SuccessCred(t.outcome, t.cred)
  }

  /** The credentials of the fallback attempts that stored theirs, in order. */
  function FallbackStoredCreds(flog: seq<FallbackTrial>): (cs: seq<Credential>)
    ensures |FallbackSuccessCreds(flog)| <= |cs| <= |flog|
  {
    if flog == [] then []
    else
      var t := flog[|flog| - 1];
      FallbackStoredCreds(flog[..|flog| - 1]) + StoredCred(t.outcome, t.cred)
  }

  /** Each fallback attempt re-uses a ready old connection with its own attempt id. */
  predicate FallbackFits(flog: seq<FallbackTrial>, remaining: map<string, Edge>, host: string, port: int,
                         jumper: Option<Session>, env: Env, firstId: nat) {
    forall a :: 0 <= a < |flog| ==>
      && flog[a].to in remaining && flog[a].edge == remaining[flog[a].to] && FallbackReady(flog[a].edge.props)
      && flog[a].attemptId == firstId + a
      && flog[a].cred == FallbackCredential(host, port, flog[a].edge.props)
      && OutcomeFits(flog[a].outcome, host, port, flog[a].cred, jumper, env, flog[a].attemptId)
  }

  predicate DistinctTargets(flog: seq<FallbackTrial>) {
    forall a, b :: 0 <= a < b < |flog| ==> flog[a].to != flog[b].to
  }

  /** The old connection to `h` had a fallback attempt. */
  predicate FallbackTried(flog: seq<FallbackTrial>, h: string) {
    exists a :: 0 <= a < |flog| && flog[a].to == h
  }

  /** The targets of the fallback attempts. */
  function Targets(flog: seq<FallbackTrial>): (ts: set<string>)
    ensures forall a :: 0 <= a < |flog| ==> flog[a].to in ts
  {
    if flog == [] then {} else Targets(flog[..|flog| - 1]) + {flog[|flog| - 1].to}
  }

  /** `x` is an attempt the fallback may make after `flog`: a ready old connection not
      tried before, with the next attempt id and an outcome that fits the connect outcome. */
  predicate FallbackNext(remaining: map<string, Edge>, host: string, port: int, jumper: Option<Session>,
                         env: Env, firstId: nat, flog: seq<FallbackTrial>, x: FallbackTrial) {
    && x.to in remaining && x.to !in Targets(flog) && x.edge == remaining[x.to] && FallbackReady(x.edge.props)
    && x.cred == FallbackCredential(host, port, x.edge.props) && x.attemptId == firstId + |flog|
    && OutcomeFits(x.outcome, host, port, x.cred, jumper, env, x.attemptId)
  }

  /** `flog` is a run of the fallback: every attempt one the attempts before it allow. */
  predicate FallbackRun(remaining: map<string, Edge>, host: string, port: int, jumper: Option<Session>,
                        env: Env, firstId: nat, flog: seq<FallbackTrial>) {
    flog == [] ||
    (&& FallbackRun(remaining, host, port, jumper, env, firstId, flog[..|flog| - 1])
     && FallbackNext(remaining, host, port, jumper, env, firstId, flog[..|flog| - 1], flog[|flog| - 1]))
  }

  lemma FallbackSnoc(remaining: map<string, Edge>, host: string, port: int, jumper: Option<Session>,
                     env: Env, firstId: nat, flog: seq<FallbackTrial>, x: FallbackTrial)
    ensures FallbackRun(remaining, host, port, jumper, env, firstId, flog + [x]) <==>
            FallbackRun(remaining, host, port, jumper, env, firstId, flog) &&
            FallbackNext(remaining, host, port, jumper, env, firstId, flog, x)
    ensures Targets(flog + [x]) == Targets(flog) + {x.to}
    ensures FallbackSuccesses(flog + [x]) == FallbackSuccesses(flog) + (if x.outcome.Success? then [x.outcome.result] else [])
    ensures FallbackSuccessCreds(flog + [x]) == FallbackSuccessCreds(flog) + SuccessCred(x.outcome, x.cred)
    ensures FallbackStoredCreds(flog + [x]) == FallbackStoredCreds(flog) + StoredCred(x.outcome, x.cred)
  {
    assert (flog + [x])[..|flog|] == flog;
  }

  /** Every attempt of a run of the fallback re-uses a ready old connection, as `FallbackFits` says. */
  lemma {:induction false} FallbackRunFits(remaining: map<string, Edge>, host: string, port: int, jumper: Option<Session>,
                                           env: Env, firstId: nat, flog: seq<FallbackTrial>)
    requires FallbackRun(remaining, host, port, jumper, env, firstId, flog)
    ensures FallbackFits(flog, remaining, host, port, jumper, env, firstId)
  {
    if flog != [] {
      var init := flog[..|flog| - 1];
      FallbackRunFits(remaining, host, port, jumper, env, firstId, init);
      forall a | 0 <= a < |init|
        ensures flog[a] == init[a]
      {
      }
    }
  }

  /** A run of the fallback tries each target once, and its targets are the ones it tried. */
  lemma {:induction false} FallbackRunDistinct(remaining: map<string, Edge>, host: string, port: int, jumper: Option<Session>,
                                               env: Env, firstId: nat, flog: seq<FallbackTrial>)
    requires FallbackRun(remaining, host, port, jumper, env, firstId, flog)
    ensures DistinctTargets(flog)
    ensures forall h :: h in Targets(flog) ==> FallbackTried(flog, h)
  {
    if flog != [] {
      var init := flog[..|flog| - 1];
      var x := flog[|flog| - 1];
      FallbackRunDistinct(remaining, host, port, jumper, env, firstId, init);
      forall a | 0 <= a < |init|
        ensures flog[a] == init[a]
      {
      }
      forall h | h in Targets(flog)
        ensures FallbackTried(flog, h)
      {
        if h != x.to {
          var a :| 0 <= a < |init| && init[a].to == h;
          assert flog[a].to == h;
        }
      }
    }
  }

  /** `try_fallback_reconnect`: one attempt with an old connection's credential; any
      exception it raises, `ConnectionLost` included, gives `None`. */
  method TryFallbackReconnect(host: string, port: int, cred: Credential, jumper: Option<Session>,
                              store: CredentialStore.CredentialStore, manager: SessionManager.SSHSessionManager,
                              env: Env, attemptId: nat)
    returns (r: Option<Result>, ghost o: TryOutcome)
    modifies store, manager
    ensures OutcomeFits(o, host, port, cred, jumper, env, attemptId)
    ensures r == if o.Success? then Some(o.result) else None
    ensures Effects(store, manager, old(store.credentials), Cache(old(manager.sessions), old(manager.closed)), host, port, jumper, env, StoredCred(o, cred), SuccessCred(o, cred))
  {
    var outcome := TrySingleCredential(host, port, cred, jumper, store, manager, env, attemptId);
    o := outcome;
    r := if outcome.Success? then Some(outcome.result) else None;
  }

  /** The loop of the fallback over the old connections left, in some order. */
  method FallbackLoop(host: string, port: int, jumper: Option<Session>,
                      store: CredentialStore.CredentialStore, manager: SessionManager.SSHSessionManager,
                      remaining: map<string, Edge>, env: Env, firstId: nat)
    returns (found: seq<Result>, ghost flog: seq<FallbackTrial>)
    modifies store, manager
    ensures found == FallbackSuccesses(flog)
    ensures FallbackRun(remaining, host, port, jumper, env, firstId, flog)
    ensures forall h :: h in remaining && FallbackReady(remaining[h].props) ==> h in Targets(flog)
    ensures Effects(store, manager, old(store.credentials), Cache(old(manager.sessions), old(manager.closed)), host, port, jumper, env, FallbackStoredCreds(flog), FallbackSuccessCreds(flog))
  {
    found, flog := [], [];
    var pending := remaining.Keys;
    var id := firstId;
    while pending != {}
      invariant pending <= remaining.Keys && id == firstId + |flog|
      invariant found == FallbackSuccesses(flog)
      invariant FallbackRun(remaining, host, port, jumper, env, firstId, flog)
      invariant Targets(flog) !! pending
      invariant forall h :: h in remaining && h !in pending && FallbackReady(remaining[h].props) ==> h in Targets(flog)
      invariant Effects(store, manager, old(store.credentials), Cache(old(manager.sessions), old(manager.closed)), host, port, jumper, env, FallbackStoredCreds(flog), FallbackSuccessCreds(flog))
      decreases |pending|
    {
      var h :| h in pending;
      pending := pending - {h};
      var e := remaining[h];
      if FallbackReady(e.props) {
        var cred := FallbackCredential(host, port, e.props);
        var r, o := TryFallbackReconnect(host, port, cred, jumper, store, manager, env, id);
        ghost var x := FallbackTrial(h, e, cred, id, o);
        assert FallbackNext(remaining, host, port, jumper, env, firstId, flog, x);
        FallbackSnoc(remaining, host, port, jumper, env, firstId, flog, x);
        StoreAllAppend(old(store.credentials), host, port, FallbackStoredCreds(flog), StoredCred(o, cred));
        RegisterAllAppend(Cache(old(manager.sessions), old(manager.closed)), host, port, jumper, env, FallbackSuccessCreds(flog), SuccessCred(o, cred));
        flog := flog + [x];
        if r.Some? {
          found := found + [r.value];
        }
        id := id + 1;
      }
    }
  }

  /** The fallback: every old connection left that carries a user, a secret and a method
      is tried once more; a lost connection, like a timeout, only gives no result. */
  method Fallback(host: string, port: int, jumper: Option<Session>,
                  store: CredentialStore.CredentialStore, manager: SessionManager.SSHSessionManager,
                  remaining: map<string, Edge>, env: Env, firstId: nat)
    returns (found: seq<Result>, ghost flog: seq<FallbackTrial>)
    modifies store, manager
    ensures found == FallbackSuccesses(flog)
    ensures FallbackFits(flog, remaining, host, port, jumper, env, firstId) && DistinctTargets(flog)
    ensures forall h :: h in remaining && FallbackReady(remaining[h].props) ==> FallbackTried(flog, h)
    ensures Effects(store, manager, old(store.credentials), Cache(old(manager.sessions), old(manager.closed)), host, port, jumper, env, FallbackStoredCreds(flog), FallbackSuccessCreds(flog))
  {
    found, flog := FallbackLoop(host, port, jumper, store, manager, remaining, env, firstId);
    FallbackRunFits(remaining, host, port, jumper, env, firstId, flog);
    FallbackRunDistinct(remaining, host, port, jumper, env, firstId, flog);
  }

  // ---------------------------------------------------------------------
  // The per-target loop
  // ---------------------------------------------------------------------

  /** `random.shuffle`: the Fisher-Yates swaps, each drawing an index below `i + 1`. */
  method Shuffle<T>(xs: seq<T>, randBelow: nat -> nat) returns (ys: seq<T>)
    ensures |ys| == |xs| && multiset(ys) == multiset(xs)
  {
    ys := xs;
    var i := |ys|;
    while i > 1
      invariant 0 <= i <= |ys| == |xs| && multiset(ys) == multiset(xs)
    {
      i := i - 1;
      var j := randBelow(i + 1) % (i + 1);
      ys := ys[i := ys[j]][j := ys[i]];
    }
  }

  /** `try_all`: filter by the ledger, shuffle, run the retry rounds, then fall back
      to the old connections no fresh success reached. */
  method TryAll(host: string, port: int, jumper: Option<Session>,
                store: CredentialStore.CredentialStore, manager: SessionManager.SSHSessionManager,
                maxRetries: int, graph: GraphAnswer, ledger: Option<AttemptStore.AttemptStore>, ledgerReadOk: bool,
                source: string, forceRescan: bool, recordEnabled: bool, candidates: seq<Credential>, env: Env)
    returns (results: seq<Result>, ghost attempted: set<AttemptStore.Triple>, ghost launched: seq<Credential>,
             ghost log: seq<Trial>, ghost flog: seq<FallbackTrial>)
    modifies store, manager, LedgerFrame(ledger)
    // the ledger filter
    ensures attempted == if Filtering(forceRescan, ledger, source, recordEnabled)
                         then old(ledger.value.GetAttemptedCredentials(source, host, port, ledgerReadOk)) else {}
    ensures multiset(launched) == multiset(if Filtering(forceRescan, ledger, source, recordEnabled)
                                           then Unattempted(candidates, attempted) else candidates)
    ensures forall c :: c in launched ==> c in candidates && TripleKey(c) !in attempted
    // the retry rounds
    ensures WellFormed(log, launched, host, port, jumper, env, maxRetries)
    ensures forall i :: 0 <= i < |launched| ==> Launched(log, i)
    ensures OnlyLostRetried(log) && RetriesFollowLoss(log)
    ensures forall a :: 0 <= a < |log| && log[a].outcome.Lost? && log[a].retryAttempt < maxRetries - 1 ==> RetriedLater(log, a)
    ensures forall i: nat :: CountFor(log, i) <= Cap(maxRetries) + 1
    // the results
    ensures results == SuccessesOf(log) + FallbackSuccesses(flog)
    // the fallback
    ensures flog != [] ==> graph.Connections? && source != "" && !forceRescan
    ensures DistinctTargets(flog)
    ensures forall a :: 0 <= a < |flog| ==>
              && flog[a].edge in graph.edges && Matches(flog[a].edge, host, port) && flog[a].edge.to == flog[a].to
              && !SucceededTo(log, env, flog[a].to) && FallbackReady(flog[a].edge.props)
              && flog[a].cred == FallbackCredential(host, port, flog[a].edge.props) && flog[a].attemptId == |log| + a
              && OutcomeFits(flog[a].outcome, host, port, flog[a].cred, jumper, env, flog[a].attemptId)
    ensures graph.Connections? && source != "" && !forceRescan ==>
              forall h :: (h in OldConnectionsOf(graph.edges, host, port) && !SucceededTo(log, env, h) &&
                           FallbackReady(OldConnectionsOf(graph.edges, host, port)[h].props)) ==> FallbackTried(flog, h)
    // the ledger
    ensures ledger.Some? ==>
      ledger.value.rows == old(ledger.value.rows)
                           + (if Recording(ledger, source, recordEnabled) then RecordsOf(log, source, host, port, env) else [])
    // the credential store and the session manager
    ensures Effects(store, manager, old(store.credentials), Cache(old(manager.sessions), old(manager.closed)), host, port, jumper, env, StoredCreds(log) + FallbackStoredCreds(flog), SuccessCreds(log) + FallbackSuccessCreds(flog))
  {
    var known := CollectOldConnections(graph, source, forceRescan, host, port);
    var credentials := candidates;
    var seen: set<AttemptStore.Triple> := {};
    if Filtering(forceRescan, ledger, source, recordEnabled) {
      seen := ledger.value.GetAttemptedCredentials(source, host, port, ledgerReadOk);
      credentials := Unattempted(candidates, seen);
    }
    attempted := seen;
    var shuffled := Shuffle(credentials, env.randBelow);
    launched := shuffled;
    assert forall c :: c in launched ==> c in multiset(credentials);
    var remaining, nextId;
    results, remaining, nextId, log :=
      RunRounds(host, port, jumper, store, manager, ledger, source, recordEnabled, shuffled, maxRetries, known, env);
    forall i: nat
      ensures CountFor(log, i) <= Cap(maxRetries) + 1
    {
      AttemptsBounded(log, i, Cap(maxRetries) + 1);
    }
    var found;
    found, flog := FallbackPhase(host, port, jumper, store, manager, graph, source, forceRescan, known, remaining, env, nextId, log);
    StoreAllAppend(old(store.credentials), host, port, StoredCreds(log), FallbackStoredCreds(flog));
    RegisterAllAppend(Cache(old(manager.sessions), old(manager.closed)), host, port, jumper, env, SuccessCreds(log), FallbackSuccessCreds(flog));
    results := results + found;
  }

  /** The tail of `try_all`: the fallback runs when old connections are left and no rescan
      is forced; what it tries are old connections of this host that no fresh success reached. */
  method FallbackPhase(host: string, port: int, jumper: Option<Session>,
                       store: CredentialStore.CredentialStore, manager: SessionManager.SSHSessionManager,
                       graph: GraphAnswer, source: string, forceRescan: bool,
                       known: map<string, Edge>, remaining: map<string, Edge>, env: Env, nextId: nat,
                       ghost log: seq<Trial>)
    returns (found: seq<Result>, ghost flog: seq<FallbackTrial>)
    modifies store, manager
    requires known == if graph.Connections? && source != "" && !forceRescan
                      then OldConnectionsOf(graph.edges, host, port) else map[]
    requires forall h :: h in remaining <==> h in known && !SucceededTo(log, env, h)
    requires forall h :: h in remaining ==> remaining[h] == known[h]
    requires nextId == |log|
    ensures found == FallbackSuccesses(flog)
    ensures flog != [] ==> graph.Connections? && source != "" && !forceRescan
    ensures DistinctTargets(flog)
    ensures forall a :: 0 <= a < |flog| ==>
              && flog[a].edge in graph.edges && Matches(flog[a].edge, host, port) && flog[a].edge.to == flog[a].to
              && !SucceededTo(log, env, flog[a].to) && FallbackReady(flog[a].edge.props)
              && flog[a].cred == FallbackCredential(host, port, flog[a].edge.props) && flog[a].attemptId == |log| + a
              && OutcomeFits(flog[a].outcome, host, port, flog[a].cred, jumper, env, flog[a].attemptId)
    ensures graph.Connections? && source != "" && !forceRescan ==>
              forall h :: (h in OldConnectionsOf(graph.edges, host, port) && !SucceededTo(log, env, h) &&
                           FallbackReady(OldConnectionsOf(graph.edges, host, port)[h].props)) ==> FallbackTried(flog, h)
    ensures Effects(store, manager, old(store.credentials), Cache(old(manager.sessions), old(manager.closed)), host, port, jumper, env, FallbackStoredCreds(flog), FallbackSuccessCreds(flog))
  {
    found, flog := [], [];
    if |remaining| > 0 && !forceRescan {
      found, flog := Fallback(host, port, jumper, store, manager, remaining, env, nextId);
    }
  }
}
