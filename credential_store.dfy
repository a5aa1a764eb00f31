/**
 * The list of credentials found to work: rows of five text fields
 * (remote ip, port, user, secret, authMethod), appended only when no row is
 * equal in all five fields, and read through filtered views.
 * The CSV file behind the list is not modelled: the list is the state.
 */
module CredentialStore {
  import Decimal

  /** One row of the credential list; every field is text, as in the CSV file. */
  datatype Credential = Credential(remoteIp: string, port: string, user: string, secret: string, authMethod: string)

  /** A port as callers hand it over: a number or text. */
  datatype PortArg = PortNumber(n: int) | PortString(s: string)

  /** `str(port)`. */
  function Str(port: PortArg): string {
    match port
    case PortNumber(n) => Decimal.IntToString(n)
    case PortString(s) => s
  }

  /** The row `store` builds from its arguments. */
  function Entry(remoteIp: string, port: PortArg, user: string, secret: string, authMethod: string): Credential {
    Credential(remoteIp, Str(port), user, secret, authMethod)
  }

  /** What `(user, secret, authMethod)` `get_triplets` reports for a row. */
  datatype Triplet = Triplet(user: string, secret: string, authMethod: string)

  function TripletOf(c: Credential): Triplet {
    Triplet(c.user, c.secret, c.authMethod)
  }

  predicate NoDuplicates<T(==)>(s: seq<T>) {
    forall i, j :: 0 <= i < j < |s| ==> s[i] != s[j]
  }

  // ---------------------------------------------------------------------
  // The list as `store` leaves it
  // ---------------------------------------------------------------------

  /** The list after storing `e`: unchanged if an equal row exists, else `e` appended. */
  function Stored(creds: seq<Credential>, e: Credential): (r: seq<Credential>)
    ensures e in r
    ensures |creds| <= |r| <= |creds| + 1 && r[..|creds|] == creds
    ensures forall x :: x in r ==> x in creds || x == e
  {
    if e in creds then creds else creds + [e]
  }

  /** Storing the same row twice is storing it once. */
  lemma StoredIdempotent(creds: seq<Credential>, e: Credential)
    ensures Stored(Stored(creds, e), e) == Stored(creds, e)
  {
  }

  /** Storing keeps the list free of duplicate rows. */
  lemma StoredKeepsNoDuplicates(creds: seq<Credential>, e: Credential)
    requires NoDuplicates(creds)
    ensures NoDuplicates(Stored(creds, e))
  {
  }

  /** A numeric port and its decimal text make the same row, and two numeric
      ports make the same row only when they are equal. */
  lemma PortNormalised(remoteIp: string, m: int, n: int, user: string, secret: string, authMethod: string)
    ensures Entry(remoteIp, PortNumber(n), user, secret, authMethod)
         == Entry(remoteIp, PortString(Decimal.IntToString(n)), user, secret, authMethod)
    ensures Entry(remoteIp, PortNumber(m), user, secret, authMethod) == Entry(remoteIp, PortNumber(n), user, secret, authMethod)
        <==> m == n
  {
    if Entry(remoteIp, PortNumber(m), user, secret, authMethod) == Entry(remoteIp, PortNumber(n), user, secret, authMethod) {
      Decimal.IntToStringInjective(m, n);
    }
  }

  // ---------------------------------------------------------------------
  // Filtered views
  // ---------------------------------------------------------------------

  /** The rows `keep` accepts, in stored order: a list comprehension. */
  function Filter(creds: seq<Credential>, keep: Credential -> bool): (r: seq<Credential>)
    ensures forall c :: c in r <==> c in creds && keep(c)
    ensures |r| <= |creds|
  {
    if creds == [] then []
    else (if keep(creds[0]) then [creds[0]] else []) + Filter(creds[1..], keep)
  }

  /** Filtering commutes with appending, so the views keep the stored order. */
  lemma {:induction false} FilterAppend(a: seq<Credential>, b: seq<Credential>, keep: Credential -> bool)
    ensures Filter(a + b, keep) == Filter(a, keep) + Filter(b, keep)
  {
    if a == [] {
      assert a + b == b;
    } else {
      var head := if keep(a[0]) then [a[0]] else [];
      assert (a + b)[0] == a[0] && (a + b)[1..] == a[1..] + b;
      assert Filter(a + b, keep) == head + Filter(a[1..] + b, keep);
      FilterAppend(a[1..], b, keep);
      assert head + (Filter(a[1..], keep) + Filter(b, keep)) == (head + Filter(a[1..], keep)) + Filter(b, keep);
    }
  }

  /** Storing changes a view only by the new row, at its end. */
  lemma FilterAfterStore(creds: seq<Credential>, e: Credential, keep: Credential -> bool)
    ensures Filter(Stored(creds, e), keep) ==
      if e in creds || !keep(e) then Filter(creds, keep) else Filter(creds, keep) + [e]
  {
    if e !in creds {
      FilterAppend(creds, [e], keep);
      assert [e][1..] == [];
    }
  }

  function MethodIs(authMethod: string): Credential -> bool {
    (c: Credential) => c.authMethod == authMethod
  }

  function AtTarget(remoteIp: string, port: PortArg): Credential -> bool {
    (c: Credential) => c.remoteIp == remoteIp && c.port == Str(port)
  }

  /** The distinct `(user, secret, authMethod)` triplets of a list. */
  function TripletsOf(creds: seq<Credential>): set<Triplet> {
    set c | c in creds :: TripletOf(c)
  }

  // ---------------------------------------------------------------------
  // The store
  // ---------------------------------------------------------------------

  class CredentialStore {
    var credentials: seq<Credential>

    /** `existing` is what reading the CSV file gives: no rows when it is absent. */
    constructor (existing: seq<Credential>)
      ensures credentials == existing
    {
      credentials := existing;
    }

    /** `store`: append the row unless an equal one is already present. */
    method Store(remoteIp: string, port: PortArg, user: string, secret: string, authMethod: string)
      modifies this
      ensures credentials == Stored(old(credentials), Entry(remoteIp, port, user, secret, authMethod))
    {
      var entry := Entry(remoteIp, port, user, secret, authMethod);
      var found := false;
      var i := 0;
      while i < |credentials| && !found
        invariant 0 <= i <= |credentials|
        invariant found <==> entry in credentials[..i]
      {
        found := credentials[i] == entry;
        assert credentials[..i + 1] == credentials[..i] + [credentials[i]];
        i := i + 1;
      }
      assert !found ==> credentials[..i] == credentials;
      if !found {
        credentials := credentials + [entry];
      }
    }

    /** The rows stored with method `authMethod`, in stored order: the rule both
        method getters follow. */
    function ByMethod(authMethod: string): (rows: seq<Credential>)
      reads this
      ensures forall c :: c in rows <==> c in credentials && c.authMethod == authMethod
    {
      Filter(credentials, MethodIs(authMethod))
    }

    /** `get_all_method_password`. */
    function GetAllMethodPassword(): (rows: seq<Credential>)
      reads this
      ensures forall c :: c in rows <==> c in credentials && c.authMethod == "password"
    {
      ByMethod("password")
    }

    /** `get_all_method_keyfile`. */
    function GetAllMethodKeyfile(): (rows: seq<Credential>)
      reads this
      ensures forall c :: c in rows <==> c in credentials && c.authMethod == "keyfile"
    {
      ByMethod("keyfile")
    }

    /** `find(remote_ip, port)`: the rows for that ip and `str(port)`. */
    function Find(remoteIp: string, port: PortArg): (rows: seq<Credential>)
      reads this
      ensures forall c :: c in rows <==> c in credentials && c.remoteIp == remoteIp && c.port == Str(port)
    {
      Filter(credentials, AtTarget(remoteIp, port))
    }

    /** `get_triplets`: the distinct triplets, in no particular order (`list(set)`). */
    method GetTriplets() returns (ts: seq<Triplet>)
      ensures NoDuplicates(ts)
      ensures forall t :: t in ts <==> t in TripletsOf(credentials)
    {
      var pending := TripletsOf(credentials);
      ts := [];
      while pending != {}
        invariant NoDuplicates(ts)
        invariant forall t :: t in ts ==> t !in pending
        invariant forall t :: t in TripletsOf(credentials) <==> t in ts || t in pending
        decreases |pending|
      {
        var t :| t in pending;
        ts := ts + [t];
        pending := pending - {t};
      }
    }
  }
}
