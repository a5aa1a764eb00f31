/**
 * The cache of SSH sessions keyed by (hostname, user, method, credential),
 * and the hop-by-hop construction of a chain of sessions tunnelled through
 * each other. A session is a value; what `is_connected()` and `connect()`
 * answer for a session, an exception included, is passed in as a function.
 */
module SessionManager {
  import opened Wrappers

  /** An SSH session handle: where it goes, as whom, and through which jump host. */
  datatype Session = Session(
    host: string,
    port: int,
    user: string,
    password: Option<string>,
    keyFilename: Option<string>,
    jumper: Option<Session>)

  /** The properties of one edge of a path in the graph. */
  datatype HopMeta = HopMeta(ip: string, port: int, user: string, authMethod: string, creds: string)

  /** One step `(src, meta, dst)` of a path. */
  datatype Hop = Hop(src: string, meta: HopMeta, dst: string)

  /** The cache key of a session. */
  datatype Key = Key(hostname: string, user: string, authMethod: string, creds: string)

  function KeyOf(hop: Hop): Key {
    Key(hop.dst, hop.meta.user, hop.meta.authMethod, hop.meta.creds)
  }

  /** The session built for a hop: the credential is the password for the
      password method, the key file for the keyfile method, neither otherwise. */
  function NewSession(meta: HopMeta, jumper: Option<Session>): (s: Session)
    ensures s.password.Some? <==> meta.authMethod == "password"
    ensures s.keyFilename.Some? <==> meta.authMethod == "keyfile"
    ensures s.password.Some? ==> s.password.value == meta.creds && s.keyFilename.None?
    ensures s.keyFilename.Some? ==> s.keyFilename.value == meta.creds
    ensures s.host == meta.ip && s.port == meta.port && s.user == meta.user && s.jumper == jumper
  {
    Session(meta.ip, meta.port, meta.user,
            if meta.authMethod == "password" then Some(meta.creds) else None,
            if meta.authMethod == "keyfile" then Some(meta.creds) else None,
            jumper)
  }

  // ---------------------------------------------------------------------
  // The walk along a path
  // ---------------------------------------------------------------------

  /** What awaiting `is_connected()` on a cached session gives. */
  datatype Probe = Alive | Dead | ProbeRaised

  /** What awaiting `connect()` on a new session gives; `DialRaised` stands
      for an exception such as `asyncssh.ConnectionLost`. */
  datatype Dial = Connected | Refused | DialRaised

  /** Where a walk stands: still going, with the last hop's session, stopped
      at a connect that answered false, or stopped by an exception that
      `get_session` does not catch. */
  datatype WalkState =
    | Walking(previous: Option<Session>, sessions: map<Key, Session>)
    | Aborted(sessions: map<Key, Session>)
    | Raised(sessions: map<Key, Session>)

  /** One hop: reuse a live cached session, or build one through the previous
      hop's session and cache it once it connects. */
  function Step(st: WalkState, hop: Hop, probe: Session -> Probe, connect: Session -> Dial): WalkState {
    match st
    case Aborted(_) => st
    case Raised(_) => st
    case Walking(previous, sessions) =>
      var key := KeyOf(hop);
      var p := if key in sessions then probe(sessions[key]) else Dead;
      if p == ProbeRaised then Raised(sessions)
      else if p == Alive then Walking(Some(sessions[key]), sessions)
      else
        var s := NewSession(hop.meta, previous);
        match connect(s)
        case Connected => Walking(Some(s), sessions[key := s])
        case Refused => Aborted(sessions)
        case DialRaised => Raised(sessions)
  }

  /** The hops of `path` taken in order from `st`. */
  function Walk(st: WalkState, path: seq<Hop>, probe: Session -> Probe, connect: Session -> Dial): WalkState
    decreases |path|
  {
    if path == [] then st else Walk(Step(st, path[0], probe, connect), path[1..], probe, connect)
  }

  /** What `get_session` returns, whether it raised, and what it leaves in the cache. */
  datatype Outcome = Outcome(result: Option<Session>, raised: bool, sessions: map<Key, Session>)

  function GetSessionOutcome(sessions: map<Key, Session>, path: seq<Hop>,
                             probe: Session -> Probe, connect: Session -> Dial): Outcome
  {
    if path == [] then Outcome(None, false, sessions)
    else
      match Walk(Walking(None, sessions), path, probe, connect)
      case Walking(last, m) => Outcome(last, false, m)
      case Aborted(m) => Outcome(None, false, m)
      case Raised(m) => Outcome(None, true, m)
  }

  /** A walk stopped at a failed connect or by an exception stays stopped. */
  lemma {:induction false} AbortedIsFinal(m: map<Key, Session>, path: seq<Hop>, probe: Session -> Probe, connect: Session -> Dial)
    ensures Walk(Aborted(m), path, probe, connect) == Aborted(m)
    ensures Walk(Raised(m), path, probe, connect) == Raised(m)
    decreases |path|
  {
    if path != [] {
      AbortedIsFinal(m, path[1..], probe, connect);
    }
  }

  /** Walking a path and then one more hop is walking the longer path. */
  lemma {:induction false} WalkSnoc(st: WalkState, path: seq<Hop>, hop: Hop, probe: Session -> Probe, connect: Session -> Dial)
    ensures Walk(st, path + [hop], probe, connect) == Step(Walk(st, path, probe, connect), hop, probe, connect)
    decreases |path|
  {
    if path == [] {
      assert [] + [hop] == [hop];
      assert [hop][1..] == [];
    } else {
      assert (path + [hop])[0] == path[0] && (path + [hop])[1..] == path[1..] + [hop];
      WalkSnoc(Step(st, path[0], probe, connect), path[1..], hop, probe, connect);
    }
  }

  /** On success the session returned is the one the cache now holds under the last hop's key. */
  lemma ResultHeldUnderLastKey(sessions: map<Key, Session>, path: seq<Hop>, probe: Session -> Probe, connect: Session -> Dial)
    requires GetSessionOutcome(sessions, path, probe, connect).result.Some?
    ensures var o := GetSessionOutcome(sessions, path, probe, connect);
            KeyOf(path[|path| - 1]) in o.sessions && o.sessions[KeyOf(path[|path| - 1])] == o.result.value
  {
    var init := path[..|path| - 1];
    assert path == init + [path[|path| - 1]];
    WalkSnoc(Walking(None, sessions), init, path[|path| - 1], probe, connect);
  }

  /** The session of the last hop: the live cached one if there is one, else a
      new session whose jump host is the session of the hop before (none for
      the first hop) and which connected. */
  lemma LastHopSession(sessions: map<Key, Session>, init: seq<Hop>, hop: Hop, probe: Session -> Probe, connect: Session -> Dial)
    requires GetSessionOutcome(sessions, init + [hop], probe, connect).result.Some?
    ensures var before := GetSessionOutcome(sessions, init, probe, connect);
            var s := GetSessionOutcome(sessions, init + [hop], probe, connect).result.value;
            var key := KeyOf(hop);
            if key in before.sessions && probe(before.sessions[key]) == Alive then s == before.sessions[key]
            else s == NewSession(hop.meta, before.result) && connect(s) == Connected
  {
    WalkSnoc(Walking(None, sessions), init, hop, probe, connect);
    if init == [] {
      assert [] + [hop] == [hop];
    }
  }

  /** Which keys a walk may change: every key of `m` stays, and a key that is
      new or holds another session afterwards is the key of a hop of the
      path and holds a session that connected. */
  predicate ChangedOnlyAlong(m: map<Key, Session>, m': map<Key, Session>, path: seq<Hop>, connect: Session -> Dial) {
    && (forall k :: k in m ==> k in m')
    && (forall k :: k in m' && (k !in m || m'[k] != m[k]) ==>
          connect(m'[k]) == Connected && exists i :: 0 <= i < |path| && KeyOf(path[i]) == k)
  }

  lemma {:induction false} WalkFrame(st: WalkState, path: seq<Hop>, probe: Session -> Probe, connect: Session -> Dial)
    ensures ChangedOnlyAlong(st.sessions, Walk(st, path, probe, connect).sessions, path, connect)
    decreases |path|
  {
    if path != [] {
      var st' := Step(st, path[0], probe, connect);
      WalkFrame(st', path[1..], probe, connect);
      var m, m1, m2 := st.sessions, st'.sessions, Walk(st', path[1..], probe, connect).sessions;
      forall k | k in m2 && (k !in m || m2[k] != m[k])
        ensures connect(m2[k]) == Connected && exists i :: 0 <= i < |path| && KeyOf(path[i]) == k
      {
        if k in m1 && m2[k] == m1[k] {
          assert KeyOf(path[0]) == k;
        } else {
          var i :| 0 <= i < |path[1..]| && KeyOf(path[1..][i]) == k;
          assert KeyOf(path[i + 1]) == k;
        }
      }
    }
  }

  /** `get_session` changes the cache only along the path, only to connected
      sessions, and never drops a key, whether it succeeds or not. */
  lemma GetSessionFrame(sessions: map<Key, Session>, path: seq<Hop>, probe: Session -> Probe, connect: Session -> Dial)
    ensures ChangedOnlyAlong(sessions, GetSessionOutcome(sessions, path, probe, connect).sessions, path, connect)
  {
    WalkFrame(Walking(None, sessions), path, probe, connect);
  }

  // ---------------------------------------------------------------------
  // The manager
  // ---------------------------------------------------------------------

  class SSHSessionManager {
    var sessions: map<Key, Session>
    /** The sessions `close()` was called on, in order. */
    ghost var closed: seq<Session>

    constructor ()
      ensures sessions == map[] && closed == []
    {
      sessions := map[];
      closed := [];
    }

    /** `get_session`: `path` is what the graph's `find_path` answered (no path
        and an empty path alike are the empty sequence). */
    method GetSession(path: seq<Hop>, probe: Session -> Probe, connect: Session -> Dial)
      returns (r: Option<Session>, raised: bool)
      modifies this
      ensures r == GetSessionOutcome(old(sessions), path, probe, connect).result
      ensures raised == GetSessionOutcome(old(sessions), path, probe, connect).raised
      ensures sessions == GetSessionOutcome(old(sessions), path, probe, connect).sessions
      ensures closed == old(closed)
    {
      if path == [] {
        return None, false;
      }
      var previous: Option<Session> := None;
      var i := 0;
      while i < |path|
        invariant 0 <= i <= |path|
        invariant Walk(Walking(None, old(sessions)), path[..i], probe, connect) == Walking(previous, sessions)
        invariant closed == old(closed)
      {
        var hop := path[i];
        var key := KeyOf(hop);
        WalkSnoc(Walking(None, old(sessions)), path[..i], hop, probe, connect);
        assert path[..i + 1] == path[..i] + [hop];
        var p := if key in sessions then probe(sessions[key]) else Dead;
        if p == ProbeRaised {
          Stopped(old(sessions), path, i, sessions, probe, connect);
          return None, true;
        } else if p == Alive {
          previous := Some(sessions[key]);
        } else {
          var session := NewSession(hop.meta, previous);
          var d := connect(session);
          if d != Connected {
            Stopped(old(sessions), path, i, sessions, probe, connect);
            return None, d == DialRaised;
          }
          sessions := sessions[key := session];
          previous := Some(session);
        }
        i := i + 1;
      }
      assert path[..i] == path;
      r, raised := previous, false;
    }

    /** `add_session`: keep a live cached session for the key and close the
        new one, or else cache the new one; either way the session returned is
        the one held under the key. */
    method AddSession(hostname: string, session: Session, user: string, authMethod: string, creds: string,
                      alive: Session -> bool) returns (r: Session)
      modifies this
      ensures var key := Key(hostname, user, authMethod, creds);
              key in sessions && sessions[key] == r
      ensures var key := Key(hostname, user, authMethod, creds);
              if key in old(sessions) && alive(old(sessions)[key])
              then r == old(sessions)[key] && sessions == old(sessions) && closed == old(closed) + [session]
              else r == session && sessions == old(sessions)[key := session] && closed == old(closed)
    {
      var key := Key(hostname, user, authMethod, creds);
      if key in sessions && alive(sessions[key]) {
        closed := closed + [session];
        r := sessions[key];
      } else {
        sessions := sessions[key := session];
        r := session;
      }
    }

    /** `close_all`: close every cached session (a failing close is ignored),
        then empty the cache. */
    method CloseAll()
      modifies this
      ensures sessions == map[]
      ensures |closed| == |old(closed)| + |old(sessions)|
      ensures closed[..|old(closed)|] == old(closed)
      ensures forall k :: k in old(sessions) ==> old(sessions)[k] in closed[|old(closed)|..]
      ensures forall s :: s in closed[|old(closed)|..] ==> s in old(sessions).Values
    {
      var pending := sessions.Keys;
      ghost var start := |closed|;
      while pending != {}
        invariant pending <= sessions.Keys
        invariant start == |old(closed)| && sessions == old(sessions)
        invariant |closed| == start + |sessions.Keys| - |pending|
        invariant closed[..start] == old(closed)
        invariant forall k :: k in sessions && k !in pending ==> sessions[k] in closed[start..]
        invariant forall s :: s in closed[start..] ==> s in sessions.Values
        decreases |pending|
      {
        var k :| k in pending;
        assert (closed + [sessions[k]])[start..] == closed[start..] + [sessions[k]];
        closed := closed + [sessions[k]];
        pending := pending - {k};
      }
      sessions := map[];
    }
  }

  /** Once the hop at `i` stops the walk, the rest of the path changes nothing. */
  lemma Stopped(start: map<Key, Session>, path: seq<Hop>, i: nat, m: map<Key, Session>, probe: Session -> Probe, connect: Session -> Dial)
    requires i < |path|
    ensures Walk(Walking(None, start), path, probe, connect)
      == Walk(Walk(Walking(None, start), path[..i + 1], probe, connect), path[i + 1..], probe, connect)
    ensures Walk(Aborted(m), path[i + 1..], probe, connect) == Aborted(m)
    ensures Walk(Raised(m), path[i + 1..], probe, connect) == Raised(m)
  {
    AbortedIsFinal(m, path[i + 1..], probe, connect);
    WalkAppend(Walking(None, start), path[..i + 1], path[i + 1..], probe, connect);
    assert path[..i + 1] + path[i + 1..] == path;
  }


  /** An exception at hop `i` escapes `get_session`: nothing is returned, and
      the cache is what the hops before `i` left it. */
  lemma RaisedAtHop(sessions: map<Key, Session>, path: seq<Hop>, i: nat, probe: Session -> Probe, connect: Session -> Dial)
    requires i < |path|
    requires Walk(Walking(None, sessions), path[..i], probe, connect).Walking?
    requires Step(Walk(Walking(None, sessions), path[..i], probe, connect), path[i], probe, connect).Raised?
    ensures GetSessionOutcome(sessions, path, probe, connect)
      == Outcome(None, true, Walk(Walking(None, sessions), path[..i], probe, connect).sessions)
  {
    var m := Walk(Walking(None, sessions), path[..i], probe, connect).sessions;
    WalkSnoc(Walking(None, sessions), path[..i], path[i], probe, connect);
    assert path[..i + 1] == path[..i] + [path[i]];
    Stopped(sessions, path, i, m, probe, connect);
  }

  /** Walking two paths one after the other is walking their concatenation. */
  lemma {:induction false} WalkAppend(st: WalkState, p: seq<Hop>, q: seq<Hop>, probe: Session -> Probe, connect: Session -> Dial)
    ensures Walk(st, p + q, probe, connect) == Walk(Walk(st, p, probe, connect), q, probe, connect)
    decreases |p|
  {
    if p == [] {
      assert p + q == q;
    } else {
      assert (p + q)[0] == p[0] && (p + q)[1..] == p[1..] + q;
      WalkAppend(Step(st, p[0], probe, connect), p[1..], q, probe, connect);
    }
  }
}
