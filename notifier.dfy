/**
 * The ntfy push notifier: settings normalisation, the in-process dedup gate
 * in front of every notification, the HTTP headers of a push and the
 * notifications the event helpers build.
 * Time is an integer clock reading handed in by the caller, the dedup key
 * is the (title, message) pair itself, and a push handed to the background
 * thread is appended to `posts` instead of being sent.
 */
module Notifier {
  import opened Wrappers
  import Text
  import Decimal

  // ntfy priority levels
  const PriorityMin: string := "min"
  const PriorityLow: string := "low"
  const PriorityDefault: string := "default"
  const PriorityHigh: string := "high"
  const PriorityMax: string := "urgent"

  /** A (title, message) pair sent less than this long ago is not sent again. */
  const DedupWindow: int := 30
  /** Dedup entries at least this old are dropped after every send. */
  const PruneAge: int := DedupWindow * 10

  /** What an event helper hands to `_send_async`. */
  datatype Notification = Notification(title: string, message: string, priority: string, tags: seq<string>)

  /** What a push is deduplicated on. */
  datatype Key = Key(title: string, message: string)

  /** One HTTP POST handed to the background thread: its headers and its body. */
  datatype Post = Post(headers: map<string, string>, payload: string)

  // ---------------------------------------------------------------------
  // Settings
  // ---------------------------------------------------------------------

  datatype Settings = Settings(url: string, topic: string, token: string)

  /** url without its trailing slashes, topic and token stripped. */
  function Normalise(url: string, topic: string, token: string): (s: Settings)
    ensures s.url == [] || s.url[|s.url| - 1] != '/'
    ensures |s.url| <= |url| && url == s.url + url[|s.url|..] && forall i :: |s.url| <= i < |url| ==> url[i] == '/'
    ensures Text.Strip(s.topic) == s.topic && Text.Strip(s.token) == s.token
  {
    StripIdempotent(topic);
    StripIdempotent(token);
    Settings(Text.RStripChar(url, '/'), Text.Strip(topic), Text.Strip(token))
  }

  lemma StripIdempotent(s: string)
    ensures Text.Strip(Text.Strip(s)) == Text.Strip(s)
  {
    var r := Text.Strip(s);
    Text.StripSpec(s);
    if r != [] {
      Decimal.StripUnpadded(r);
    }
  }

  /** Normalising settings that are already normalised changes nothing. */
  lemma NormaliseIdempotent(url: string, topic: string, token: string)
    ensures var s := Normalise(url, topic, token);
      Normalise(s.url, s.topic, s.token) == s
  {
  }

  // ---------------------------------------------------------------------
  // The dedup gate
  // ---------------------------------------------------------------------

  /** When `key` was last sent; a key never sent counts as sent at time 0. */
  function Last(dedup: map<Key, int>, key: Key): int {
    if key in dedup then dedup[key] else 0
  }

  /** The gate of `_send_async`: `None` when nothing is sent, otherwise the
      dedup map after the send. */
  function Admit(enabled: bool, dedup: map<Key, int>, key: Key, now: int): (r: Option<map<Key, int>>)
    ensures r.None? <==> !enabled || now - Last(dedup, key) < DedupWindow
    ensures r.Some? ==> key in r.value && r.value[key] == now
    ensures r.Some? ==> forall k :: k != key ==> (k in r.value <==> k in dedup && now - dedup[k] < PruneAge)
    ensures r.Some? ==> forall k :: k in r.value ==> now - r.value[k] < PruneAge && (k == key || r.value[k] == dedup[k])
  {
    if !enabled || now - Last(dedup, key) < DedupWindow then None
    else
      var recorded := dedup[key := now];
      Some(map k | k in recorded && now - recorded[k] < PruneAge :: recorded[k])
  }

  /** After a send, the same key is refused exactly while the window since that send lasts. */
  lemma ResendWithinWindow(dedup: map<Key, int>, key: Key, now: int, later: int)
    requires Admit(true, dedup, key, now).Some?
    ensures Admit(true, Admit(true, dedup, key, now).value, key, later).None? <==> later - now < DedupWindow
  {
  }

  /** A key never sent is refused only while the clock reads less than the window. */
  lemma UnseenKey(dedup: map<Key, int>, key: Key, now: int)
    requires key !in dedup
    ensures Admit(true, dedup, key, now).None? <==> now < DedupWindow
  {
  }

  /** Pruning never lets a duplicate through: once the clock has passed the
      window, sending one key leaves the verdict on every other key as it was. */
  lemma PruneKeepsSuppression(dedup: map<Key, int>, key: Key, now: int, other: Key, later: int)
    requires Admit(true, dedup, key, now).Some?
    requires other != key && now <= later && DedupWindow <= later
    ensures Admit(true, Admit(true, dedup, key, now).value, other, later).None?
        <==> Admit(true, dedup, other, later).None?
  {
    var m := Admit(true, dedup, key, now).value;
    if other in dedup && other !in m {
      assert later - dedup[other] >= PruneAge;
    }
  }

  // ---------------------------------------------------------------------
  // Headers of a push
  // ---------------------------------------------------------------------

  /** The headers `_send_sync` builds for a notification. */
  function Headers(title: string, priority: string, tags: seq<string>, token: string): (h: map<string, string>)
    ensures "Content-Type" in h && h["Content-Type"] == "text/plain; charset=utf-8"
    ensures "Title" in h && h["Title"] == title && "Priority" in h && h["Priority"] == priority
    ensures "Tags" in h <==> tags != []
    ensures "Tags" in h ==> h["Tags"] == Text.Join(tags, ",")
    ensures "Authorization" in h <==> token != []
    ensures "Authorization" in h ==> h["Authorization"] == "Bearer " + token
    ensures h.Keys <= {"Content-Type", "Title", "Priority", "Tags", "Authorization"}
  {
    var base := map["Content-Type" := "text/plain; charset=utf-8", "Title" := title, "Priority" := priority];
    var tagged := if tags != [] then base["Tags" := Text.Join(tags, ",")] else base;
    if token != [] then tagged["Authorization" := "Bearer " + token] else tagged
  }

  /** The receiving end can split the Tags header back into the tags, when
      no tag holds a comma. */
  lemma TagsRoundTrip(title: string, priority: string, tags: seq<string>, token: string)
    requires tags != [] && forall i :: 0 <= i < |tags| ==> ',' !in tags[i]
    ensures Text.Split(Headers(title, priority, tags, token)["Tags"], ',') == tags
  {
    Text.SplitJoin(tags, ',');
  }

  // ---------------------------------------------------------------------
  // The notifier
  // ---------------------------------------------------------------------

  class NtfyNotifier {
    var url: string
    var topic: string
    var token: string
    var enabled: bool
    var timeout: int
    var dedup: map<Key, int>
    var posts: seq<Post>

    /** Settings are normalised and a notifier is enabled only with a url and a topic. */
    predicate Normalised()
      reads this
    {
      && Normalise(url, topic, token) == Settings(url, topic, token)
      && (enabled ==> url != [] && topic != [])
    }

    constructor (url: string, topic: string, token: string, enabled: bool, timeout: int)
      ensures Settings(this.url, this.topic, this.token) == Normalise(url, topic, token)
      ensures this.enabled <==> enabled && this.url != [] && this.topic != []
      ensures this.timeout == timeout && dedup == map[] && posts == []
      ensures Normalised()
    {
      var s := Normalise(url, topic, token);
      this.url := s.url;
      this.topic := s.topic;
      this.token := s.token;
      this.enabled := enabled && s.url != [] && s.topic != [];
      this.timeout := timeout;
      dedup := map[];
      posts := [];
      NormaliseIdempotent(url, topic, token);
    }

    /** `configure`: new settings, enabled exactly when url and topic are
        non-empty, whatever the notifier was before. */
    method Configure(url: string, topic: string, token: string)
      modifies this
      ensures Settings(this.url, this.topic, this.token) == Normalise(url, topic, token)
      ensures enabled <==> this.url != [] && this.topic != []
      ensures timeout == old(timeout) && dedup == old(dedup) && posts == old(posts)
      ensures Normalised()
    {
      var s := Normalise(url, topic, token);
      this.url := s.url;
      this.topic := s.topic;
      this.token := s.token;
      enabled := s.url != [] && s.topic != [];
      NormaliseIdempotent(url, topic, token);
    }

    /** `_send_async` at clock reading `now`: a disabled notifier or a
        duplicate inside the window changes nothing; otherwise the key is
        recorded, old entries are pruned and the push is handed over. */
    method SendAsync(title: string, message: string, priority: string, tags: seq<string>, now: int)
      requires Normalised()
      modifies this
      ensures Normalised()
      ensures url == old(url) && topic == old(topic) && token == old(token)
      ensures enabled == old(enabled) && timeout == old(timeout)
      ensures Admit(old(enabled), old(dedup), Key(title, message), now).None? ==>
        dedup == old(dedup) && posts == old(posts)
      ensures Admit(old(enabled), old(dedup), Key(title, message), now).Some? ==>
        && dedup == Admit(old(enabled), old(dedup), Key(title, message), now).value
        && posts == old(posts) + [Post(Headers(title, priority, tags, token), message)]
    {
      if !enabled {
        return;
      }
      var key := Key(title, message);
      var last := if key in dedup then dedup[key] else 0;
      if now - last < DedupWindow {
        return;
      }
      dedup := dedup[key := now];
      dedup := map k | k in dedup && now - dedup[k] < PruneAge :: dedup[k];
      posts := posts + [Post(Headers(title, priority, tags, token), message)];
    }
  }

  // ---------------------------------------------------------------------
  // Event helpers: the notification each one hands to `_send_async`
  // ---------------------------------------------------------------------

  function KeyOf(n: Notification): Key {
    Key(n.title, n.message)
  }

  predicate StartsWith(s: string, head: string) {
    Text.OccursAt(s, head, 0)
  }

  predicate EndsWith(s: string, tail: string) {
    Text.OccursAt(s, tail, |s| - |tail|)
  }

  /** Text made of a head, a middle and a tail starts with the head and ends with the tail. */
  lemma Framed(head: string, middle: string, tail: string)
    ensures StartsWith(head + middle + tail, head)
    ensures EndsWith(head + middle + tail, tail)
  {
    var s := head + middle + tail;
    assert s[..|head|] == head;
    assert s[|s| - |tail|..] == tail;
  }

  /** Raised priority and the alarm tag go together. */
  predicate Alarming(n: Notification) {
    n.priority == PriorityHigh && "rotating_light" in n.tags
  }

  predicate Quiet(n: Notification) {
    n.priority == PriorityDefault && "rotating_light" !in n.tags
  }

  /** `notify_new_access`. */
  function NewAccess(sourceHost: string, remoteHost: string, user: string, authMethod: string,
                     creds: string, ip: string, port: int): (n: Notification)
    ensures Alarming(n)
    ensures EndsWith(n.title, remoteHost)
    ensures StartsWith(n.message, "From : " + sourceHost + "\n")
  {
    var head := "From : " + sourceHost + "\n";
    var body := "To   : " + remoteHost + "  (" + ip + ":" + Decimal.IntToString(port) + ")\n"
      + "User : " + user + "\n"
      + "Method: " + authMethod + "\n"
      + "Creds: " + creds;
    Framed(head, body, []);
    Notification(
      "\U{1F511} New SSH access: " + remoteHost,
      head + body,
      PriorityHigh,
      ["key", "rotating_light"])
  }

  const JumphostLabel: string := "Jumphost : "
  const DepthPrefix: string := "Found at depth "
  const DepthSuffix: string := " from "

  /** `notify_new_jumphost`. */
  function NewJumphost(host: string, depth: int, sourceHost: string): (n: Notification)
    ensures Quiet(n)
    ensures EndsWith(n.title, host)
    ensures StartsWith(n.message, JumphostLabel + host + "\n")
    ensures EndsWith(n.message, DepthSuffix + sourceHost)
  {
    Framed(JumphostLabel + host + "\n", DepthPrefix + Decimal.IntToString(depth), DepthSuffix + sourceHost);
    Notification(
      "\U{1F310} New jumphost: " + host,
      (JumphostLabel + host + "\n") + (DepthPrefix + Decimal.IntToString(depth)) + (DepthSuffix + sourceHost),
      PriorityDefault,
      ["globe_with_meridians"])
  }

  const TargetsLabel: string := "Targets scanned : "
  const HostsLabel: string := "Hosts compromised: "
  const DepthLabel: string := "Max depth reached: "

  /** `notify_scan_complete`. */
  function ScanComplete(targetsCount: int, hostsFound: int, depth: int): (n: Notification)
    ensures Quiet(n)
    ensures StartsWith(n.message, TargetsLabel + Decimal.IntToString(targetsCount) + "\n")
    ensures EndsWith(n.message, DepthLabel + Decimal.IntToString(depth))
  {
    var head := TargetsLabel + Decimal.IntToString(targetsCount) + "\n";
    var middle := HostsLabel + Decimal.IntToString(hostsFound) + "\n";
    var tail := DepthLabel + Decimal.IntToString(depth);
    Framed(head, middle, tail);
    Notification(
      "\U{2705} SSHMAP scan complete",
      head + middle + tail,
      PriorityDefault,
      ["white_check_mark"])
  }

  /** `notify_private_key_found`. */
  function PrivateKeyFound(hostname: string, keyPath: string, keyType: string, encrypted: bool): (n: Notification)
    ensures EndsWith(n.title, hostname)
    ensures StartsWith(n.message, "Host  : " + hostname + "\n")
    ensures encrypted ==> Quiet(n)
    ensures !encrypted ==> Alarming(n)
  {
    var encLabel := if encrypted then "encrypted" else "\U{26A0}\U{FE0F} plaintext";
    var head := "Host  : " + hostname + "\n";
    var body := "Path  : " + keyPath + "\n" + "Type  : " + keyType + "  (" + encLabel + ")";
    Framed(head, body, []);
    Notification(
      "\U{1F5DD}\U{FE0F} Private key on " + hostname,
      head + body,
      if !encrypted then PriorityHigh else PriorityDefault,
      if !encrypted then ["old_key", "rotating_light"] else ["old_key"])
  }

  /** `notify_credentials_extracted`. */
  function CredentialsExtracted(hostname: string, credsCount: int, typesFound: seq<string>): (n: Notification)
    ensures Alarming(n)
    ensures EndsWith(n.title, hostname)
    ensures StartsWith(n.message, "Host  : " + hostname + "\n")
    ensures EndsWith(n.message, "Types : " + TypesSummary(typesFound))
  {
    var head := "Host  : " + hostname + "\n";
    var middle := "Count : " + Decimal.IntToString(credsCount) + "\n";
    var tail := "Types : " + TypesSummary(typesFound);
    Framed(head, middle, tail);
    Notification(
      "\U{1F4CB} Credentials on " + hostname,
      head + middle + tail,
      PriorityHigh,
      ["clipboard", "rotating_light"])
  }

  /** An unencrypted key raises the priority to high and adds the alarm tag;
      an encrypted one does neither. */
  lemma PrivateKeyAlarm(hostname: string, keyPath: string, keyType: string, encrypted: bool)
    ensures var n := PrivateKeyFound(hostname, keyPath, keyType, encrypted);
      && (n.priority == PriorityHigh <==> !encrypted)
      && ("rotating_light" in n.tags <==> !encrypted)
      && "old_key" in n.tags
  {
  }

  /** Two new-access notifications share a dedup key only for the same remote host. */
  lemma NewAccessKeyNamesHost(s1: string, r1: string, u1: string, m1: string, c1: string, i1: string, p1: int,
                              s2: string, r2: string, u2: string, m2: string, c2: string, i2: string, p2: int)
    requires KeyOf(NewAccess(s1, r1, u1, m1, c1, i1, p1)) == KeyOf(NewAccess(s2, r2, u2, m2, c2, i2, p2))
    ensures r1 == r2
  {
    var prefix := "\U{1F511} New SSH access: ";
    var t1 := prefix + r1;
    var t2 := prefix + r2;
    assert t1[|prefix|..] == r1 && t2[|prefix|..] == r2;
  }

  /** The same jumphost reached again from the same source is deduplicated
      exactly when it is reached at the same depth. */
  lemma JumphostKeyDepth(host: string, sourceHost: string, d1: int, d2: int)
    ensures KeyOf(NewJumphost(host, d1, sourceHost)) == KeyOf(NewJumphost(host, d2, sourceHost)) <==> d1 == d2
  {
    if NewJumphost(host, d1, sourceHost).message == NewJumphost(host, d2, sourceHost).message {
      MiddleDetermined(JumphostLabel + host + "\n", DepthPrefix, Decimal.IntToString(d1), Decimal.IntToString(d2),
        DepthSuffix + sourceHost);
      Decimal.IntToStringInjective(d1, d2);
    }
  }

  /** Text that differs only between a common head and a common tail differs nowhere. */
  lemma MiddleDetermined(head: string, lead: string, x1: string, x2: string, tail: string)
    requires head + (lead + x1) + tail == head + (lead + x2) + tail
    ensures x1 == x2
  {
    var s := head + (lead + x1) + tail;
    assert lead + x1 == s[|head|..|head| + |lead| + |x1|];
    assert lead + x2 == s[|head|..|head| + |lead| + |x2|];
    assert x1 == (lead + x1)[|lead|..] && x2 == (lead + x2)[|lead|..];
  }

  /** `str` of an integer is one line. */
  lemma IntToStringOneLine(i: int)
    ensures '\n' !in Decimal.IntToString(i)
  {
    var digits := Decimal.NatToString(if i < 0 then -i else i);
    assert forall k :: 0 <= k < |digits| ==> digits[k] != '\n';
    if i < 0 {
      assert Decimal.IntToString(i) == "-" + digits;
    }
  }

  /** A line field followed by a newline is recovered from the text. */
  lemma LineFieldDetermined(x1: string, rest1: string, x2: string, rest2: string)
    requires '\n' !in x1 && '\n' !in x2
    requires x1 + "\n" + rest1 == x2 + "\n" + rest2
    ensures x1 == x2 && rest1 == rest2
  {
    var s := x1 + "\n" + rest1;
    assert forall k :: 0 <= k < |x1| ==> s[k] == x1[k] != '\n';
    assert forall k :: 0 <= k < |x2| ==> s[k] == x2[k] != '\n';
    assert s[|x1|] == '\n' && s[|x2|] == '\n';
    assert x1 == s[..|x1|] && x2 == s[..|x2|];
    assert rest1 == s[|x1| + 1..] && rest2 == s[|x2| + 1..];
  }

  /** Three labelled one-line fields give back each field. */
  lemma ThreeFields(p1: string, p2: string, p3: string,
                    a1: string, b1: string, c1: string, a2: string, b2: string, c2: string)
    requires '\n' !in p1 && '\n' !in p2
    requires '\n' !in a1 && '\n' !in a2 && '\n' !in b1 && '\n' !in b2
    requires (p1 + a1 + "\n") + (p2 + b1 + "\n") + (p3 + c1) == (p1 + a2 + "\n") + (p2 + b2 + "\n") + (p3 + c2)
    ensures a1 == a2 && b1 == b2 && c1 == c2
  {
    assert (p1 + a1 + "\n") + (p2 + b1 + "\n") + (p3 + c1) == (p1 + a1) + "\n" + ((p2 + b1) + "\n" + (p3 + c1));
    assert (p1 + a2 + "\n") + (p2 + b2 + "\n") + (p3 + c2) == (p1 + a2) + "\n" + ((p2 + b2) + "\n" + (p3 + c2));
    LineFieldDetermined(p1 + a1, (p2 + b1) + "\n" + (p3 + c1), p1 + a2, (p2 + b2) + "\n" + (p3 + c2));
    LineFieldDetermined(p2 + b1, p3 + c1, p2 + b2, p3 + c2);
    assert a1 == (p1 + a1)[|p1|..] && a2 == (p1 + a2)[|p1|..];
    assert b1 == (p2 + b1)[|p2|..] && b2 == (p2 + b2)[|p2|..];
    assert c1 == (p3 + c1)[|p3|..] && c2 == (p3 + c2)[|p3|..];
  }

  /** Two scan summaries are deduplicated exactly when all three counts agree. */
  lemma ScanCompleteKeyCounts(t1: int, h1: int, d1: int, t2: int, h2: int, d2: int)
    ensures KeyOf(ScanComplete(t1, h1, d1)) == KeyOf(ScanComplete(t2, h2, d2))
        <==> t1 == t2 && h1 == h2 && d1 == d2
  {
    if ScanComplete(t1, h1, d1).message == ScanComplete(t2, h2, d2).message {
      IntToStringOneLine(t1);
      IntToStringOneLine(t2);
      IntToStringOneLine(h1);
      IntToStringOneLine(h2);
      LabelsOneLine();
      ThreeFields(TargetsLabel, HostsLabel, DepthLabel,
        Decimal.IntToString(t1), Decimal.IntToString(h1), Decimal.IntToString(d1),
        Decimal.IntToString(t2), Decimal.IntToString(h2), Decimal.IntToString(d2));
      Decimal.IntToStringInjective(t1, t2);
      Decimal.IntToStringInjective(h1, h2);
      Decimal.IntToStringInjective(d1, d2);
    }
  }

  lemma LabelsOneLine()
    ensures '\n' !in TargetsLabel && '\n' !in HostsLabel
  {
  }

  /** The credentials notification depends on the types found only through
      their set: order and repetition do not matter. */
  lemma CredentialsOrderFree(hostname: string, credsCount: int, a: seq<string>, b: seq<string>)
    requires forall t :: t in a <==> t in b
    ensures CredentialsExtracted(hostname, credsCount, a) == CredentialsExtracted(hostname, credsCount, b)
  {
    TypesSummaryOrderFree(a, b);
  }

  // ---------------------------------------------------------------------
  // `", ".join(sorted(set(types)))`
  // ---------------------------------------------------------------------

  /** Python's `<` on strings: code point by code point, a proper prefix first. */
  predicate Less(a: string, b: string)
    decreases |a|
  {
    if a == [] then b != []
    else if b == [] then false
    else if a[0] != b[0] then a[0] < b[0]
    else Less(a[1..], b[1..])
  }

  lemma {:induction false} LessIrreflexive(a: string)
    ensures !Less(a, a)
  {
    if a != [] {
      LessIrreflexive(a[1..]);
    }
  }

  lemma {:induction false} LessTotal(a: string, b: string)
    ensures a == b || Less(a, b) || Less(b, a)
  {
    if a != [] && b != [] && a[0] == b[0] {
      LessTotal(a[1..], b[1..]);
      if a[1..] == b[1..] {
        assert a == [a[0]] + a[1..] && b == [b[0]] + b[1..];
      }
    }
  }

  lemma {:induction false} LessTransitive(a: string, b: string, c: string)
    requires Less(a, b) && Less(b, c)
    ensures Less(a, c)
  {
    if a != [] && a[0] == b[0] && b[0] == c[0] {
      LessTransitive(a[1..], b[1..], c[1..]);
    }
  }

  /** Strictly ascending, as `sorted` leaves a set. */
  predicate Ascending(s: seq<string>) {
    forall i :: 0 < i < |s| ==> Less(s[i - 1], s[i])
  }

  /** `x` put in its place in an ascending list, unless it is already there. */
  function Insert(x: string, s: seq<string>): (r: seq<string>)
    requires Ascending(s)
    ensures Ascending(r) && r != []
    ensures forall y :: y in r <==> y == x || y in s
    ensures s != [] ==> r[0] == x || r[0] == s[0]
  {
    if s == [] then [x]
    else if x == s[0] then s
    else if Less(x, s[0]) then [x] + s
    else
      LessTotal(x, s[0]);
      [s[0]] + Insert(x, s[1..])
  }

  /** `sorted(set(types))`. */
  function SortedDistinct(types: seq<string>): (r: seq<string>)
    ensures Ascending(r)
    ensures forall y :: y in r <==> y in types
  {
    if types == [] then []
    else
      var init := types[..|types| - 1];
      assert types == init + [types[|types| - 1]];
      Insert(types[|types| - 1], SortedDistinct(init))
  }

  /** In an ascending list every earlier entry is below every later one. */
  lemma {:induction false} AscendingOrdered(s: seq<string>, i: int, j: int)
    requires Ascending(s) && 0 <= i < j < |s|
    ensures Less(s[i], s[j])
    decreases j - i
  {
    if i + 1 < j {
      AscendingOrdered(s, i + 1, j);
      LessTransitive(s[i], s[i + 1], s[j]);
    }
  }

  lemma HeadIsMember(t: seq<string>)
    ensures t != [] ==> t[0] in t
  {
  }

  /** A set has one ascending enumeration. */
  lemma {:induction false} AscendingUnique(s: seq<string>, t: seq<string>)
    requires Ascending(s) && Ascending(t)
    requires forall y :: y in s <==> y in t
    ensures s == t
    decreases |s|
  {
    if s == [] {
      HeadIsMember(t);
    } else {
      assert s[0] in s && t != [] && t[0] in t;
      if s[0] != t[0] {
        var j :| 0 <= j < |s| && s[j] == t[0];
        var i :| 0 <= i < |t| && t[i] == s[0];
        AscendingOrdered(s, 0, j);
        AscendingOrdered(t, 0, i);
        LessTransitive(s[0], t[0], s[0]);
        LessIrreflexive(s[0]);
      }
      forall y | y in s[1..]
        ensures y in t[1..]
      {
        var j :| 1 <= j < |s| && s[j] == y;
        AscendingOrdered(s, 0, j);
        LessIrreflexive(y);
        assert y in t && y != t[0];
      }
      forall y | y in t[1..]
        ensures y in s[1..]
      {
        var j :| 1 <= j < |t| && t[j] == y;
        AscendingOrdered(t, 0, j);
        LessIrreflexive(y);
        assert y in s && y != s[0];
      }
      AscendingUnique(s[1..], t[1..]);
      assert s == [s[0]] + s[1..] && t == [t[0]] + t[1..];
    }
  }

  /** The types line of the credentials notification. */
  function TypesSummary(types: seq<string>): (r: string)
    ensures types == [] ==> r == "unknown"
  {
    if types != [] then Text.Join(SortedDistinct(types), ", ") else "unknown"
  }

  /** `sorted(set(...))` is the one ascending list of the types found, with no repeats. */
  lemma SortedDistinctIsSortedSet(types: seq<string>)
    ensures var r := SortedDistinct(types);
      && (forall i, j :: 0 <= i < j < |r| ==> Less(r[i], r[j]) && r[i] != r[j])
      && forall s :: Ascending(s) && (forall y :: y in s <==> y in types) ==> s == r
  {
    var r := SortedDistinct(types);
    forall i, j | 0 <= i < j < |r|
      ensures Less(r[i], r[j]) && r[i] != r[j]
    {
      AscendingOrdered(r, i, j);
      LessIrreflexive(r[i]);
    }
    forall s | Ascending(s) && (forall y :: y in s <==> y in types)
      ensures s == r
    {
      AscendingUnique(s, r);
    }
  }

  lemma TypesSummaryOrderFree(a: seq<string>, b: seq<string>)
    requires forall t :: t in a <==> t in b
    ensures TypesSummary(a) == TypesSummary(b)
  {
    AscendingUnique(SortedDistinct(a), SortedDistinct(b));
  }
}
