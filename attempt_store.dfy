/**
 * The ledger of SSH login attempts: an append-only table of rows, and two
 * set-valued queries keyed by (source hostname, target ip, target port).
 * The SQLite database is not modelled: the table is a sequence of rows, and
 * whether the database write or read succeeds is a parameter.
 */
module AttemptStore {

  /** One row of the `ssh_attempts` table (the id and timestamp columns are left out). */
  datatype Attempt = Attempt(
    sourceHostname: string,
    targetHostname: string,
    targetIp: string,
    targetPort: int,
    username: string,
    authMethod: string,
    credential: string,
    success: bool)

  /** A `(username, method, credential)` tuple the queries return. */
  datatype Triple = Triple(username: string, authMethod: string, credential: string)

  function TripleOf(a: Attempt): Triple {
    Triple(a.username, a.authMethod, a.credential)
  }

  /** The lookup key of both queries; the target hostname is not part of it. */
  predicate KeyMatches(a: Attempt, source: string, ip: string, port: int) {
    a.sourceHostname == source && a.targetIp == ip && a.targetPort == port
  }

  /** The triples tried against a target from a source. */
  function Attempted(rows: seq<Attempt>, source: string, ip: string, port: int): set<Triple> {
    set a | a in rows && KeyMatches(a, source, ip, port) :: TripleOf(a)
  }

  /** The triples that logged in to a target from a source. */
  function Successful(rows: seq<Attempt>, source: string, ip: string, port: int): set<Triple> {
    set a | a in rows && KeyMatches(a, source, ip, port) && a.success :: TripleOf(a)
  }

  // ---------------------------------------------------------------------
  // Properties of the queries
  // ---------------------------------------------------------------------

  /** Recording an attempt adds its triple to the attempted set under its own
      key, and to the successful set exactly when it succeeded. */
  lemma RecordedIsAttempted(rows: seq<Attempt>, a: Attempt)
    ensures Attempted(rows + [a], a.sourceHostname, a.targetIp, a.targetPort)
         == Attempted(rows, a.sourceHostname, a.targetIp, a.targetPort) + {TripleOf(a)}
    ensures Successful(rows + [a], a.sourceHostname, a.targetIp, a.targetPort)
         == Successful(rows, a.sourceHostname, a.targetIp, a.targetPort) + (if a.success then {TripleOf(a)} else {})
  {
    assert forall b :: b in rows + [a] <==> b in rows || b == a;
  }

  /** Every successful triple was attempted. */
  lemma SuccessfulWereAttempted(rows: seq<Attempt>, source: string, ip: string, port: int)
    ensures Successful(rows, source, ip, port) <= Attempted(rows, source, ip, port)
  {
  }

  /** A row under another key changes neither query. */
  lemma OtherKeysInvisible(rows: seq<Attempt>, a: Attempt, source: string, ip: string, port: int)
    requires !KeyMatches(a, source, ip, port)
    ensures Attempted(rows + [a], source, ip, port) == Attempted(rows, source, ip, port)
    ensures Successful(rows + [a], source, ip, port) == Successful(rows, source, ip, port)
  {
    assert forall b :: b in rows + [a] <==> b in rows || b == a;
  }

  /** Appending rows never removes a triple from either query. */
  lemma QueriesMonotone(rows: seq<Attempt>, more: seq<Attempt>, source: string, ip: string, port: int)
    ensures Attempted(rows, source, ip, port) <= Attempted(rows + more, source, ip, port)
    ensures Successful(rows, source, ip, port) <= Successful(rows + more, source, ip, port)
  {
    assert forall b :: b in rows ==> b in rows + more;
  }

  /** Recording the same attempt under another target hostname reports the same. */
  lemma TargetHostnameIrrelevant(rows: seq<Attempt>, a: Attempt, hostname: string, source: string, ip: string, port: int)
    ensures Attempted(rows + [a], source, ip, port) == Attempted(rows + [a.(targetHostname := hostname)], source, ip, port)
    ensures Successful(rows + [a], source, ip, port) == Successful(rows + [a.(targetHostname := hostname)], source, ip, port)
  {
    var a' := a.(targetHostname := hostname);
    assert forall b :: b in rows + [a] <==> b in rows || b == a;
    assert forall b :: b in rows + [a'] <==> b in rows || b == a';
    assert TripleOf(a) == TripleOf(a') && (KeyMatches(a, source, ip, port) <==> KeyMatches(a', source, ip, port));
  }

  /** A triple whose rows under a key all failed is attempted but not successful. */
  lemma FailuresAreNotSuccesses(rows: seq<Attempt>, t: Triple, source: string, ip: string, port: int)
    requires forall a :: a in rows && KeyMatches(a, source, ip, port) && TripleOf(a) == t ==> !a.success
    ensures t !in Successful(rows, source, ip, port)
    ensures t in Attempted(rows, source, ip, port) <==>
              exists a :: a in rows && KeyMatches(a, source, ip, port) && TripleOf(a) == t
  {
  }

  // ---------------------------------------------------------------------
  // The store
  // ---------------------------------------------------------------------

  class AttemptStore {
    var rows: seq<Attempt>

    /** `existing` holds the rows already in the database file. */
    constructor (existing: seq<Attempt>)
      ensures rows == existing
    {
      rows := existing;
    }

    /** `record_attempt` / `_record_attempt_sync`: one row is appended; a failed
        write (`writeOk` false) is swallowed and leaves the table as it was. */
    method RecordAttempt(sourceHostname: string, targetHostname: string, targetIp: string, targetPort: int,
                         username: string, authMethod: string, credential: string, success: bool, writeOk: bool)
      modifies this
      ensures rows == old(rows) + (if writeOk then [Attempt(sourceHostname, targetHostname, targetIp, targetPort,
                                                              username, authMethod, credential, success)] else [])
    {
      if writeOk {
        rows := rows + [Attempt(sourceHostname, targetHostname, targetIp, targetPort, username, authMethod, credential, success)];
      }
    }

    /** `get_attempted_credentials`; a failed read (`readOk` false) yields the empty set. */
    function GetAttemptedCredentials(source: string, ip: string, port: int, readOk: bool): (r: set<Triple>)
      reads this
      ensures forall t :: t in r <==>
        readOk && exists a :: a in rows && KeyMatches(a, source, ip, port) && TripleOf(a) == t
    {
      if readOk then Attempted(rows, source, ip, port) else {}
    }

    /** `get_successful_attempts`; a failed read yields the empty set. */
    function GetSuccessfulAttempts(source: string, ip: string, port: int, readOk: bool): (r: set<Triple>)
      reads this
      ensures forall t :: t in r <==>
        readOk && exists a :: a in rows && KeyMatches(a, source, ip, port) && a.success && TripleOf(a) == t
    {
      if readOk then Successful(rows, source, ip, port) else {}
    }
  }
}
