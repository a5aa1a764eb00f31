/**
 * The helpers of the scanner: target-list expansion, subnet tests and host
 * enumeration over `ipaddress`-style CIDR text, the proxy settings, the
 * parsing of the remote `ip addr` and `ifconfig` output, and the bounded
 * retry that asks a remote host for its name.
 */
module Utils {
  import opened Wrappers
  import Text
  import Decimal
  import IPv4

  // ---------------------------------------------------------------------
  // CIDR text: `ip_network(f"{ip}/{mask}", strict=False)`
  // ---------------------------------------------------------------------

  /** The text `f"{ip}/{mask}"`. */
  function CidrText(ip: string, mask: int): string {
    ip + "/" + Decimal.IntToString(mask)
  }

  /** `str(mask)` read back as a netmask is a prefix length exactly when it lies in 0..32. */
  lemma NetmaskOfInt(m: int)
    ensures IPv4.ParseNetmask(Decimal.IntToString(m)) == if 0 <= m <= 32 then Some(m) else None
  {
    var t := Decimal.IntToString(m);
    if m >= 0 {
      Decimal.ValueOfNatToString(m);
      assert Decimal.AllDigits(t);
    } else {
      assert t[0] == '-' && !Decimal.IsDigit(t[0]);
      assert !Decimal.AllDigits(t);
    }
    assert '.' !in t by {
      if m >= 0 {
        assert Decimal.AllDigits(t);
      } else {
        assert t == "-" + Decimal.NatToString(-m);
        assert Decimal.AllDigits(Decimal.NatToString(-m));
      }
    }
    Text.SplitNoSep(t, '.');
  }

  /** `ip_network(f"{ip}/{mask}", strict=False)` for IPv4 text: the network of the
      address with its host bits cleared when the address reads and the mask is a
      prefix length, and a `ValueError` (`None`) otherwise. */
  lemma CidrTextNetwork(ip: string, m: int)
    ensures IPv4.ParseNetwork(CidrText(ip, m)) ==
            match IPv4.ParseAddr(ip)
            case None => None
            case Some(a) => if 0 <= m <= 32 then Some(IPv4.Network(IPv4.Masked(a, m), m)) else None
  {
    var t := Decimal.IntToString(m);
    assert CidrText(ip, m) == ip + ['/'] + t;
    assert '/' !in t by {
      if m >= 0 {
        assert Decimal.AllDigits(t);
      } else {
        assert t == "-" + Decimal.NatToString(-m);
        assert Decimal.AllDigits(Decimal.NatToString(-m));
      }
    }
    Text.SplitNoSep(t, '/');
    Text.SplitConcat(ip, '/', t);
    if '/' in ip {
      Text.SplitOfSeparated(ip, '/');
      if IPv4.ParseAddr(ip).Some? {
        IPv4.ParsedAddrHasNoSlash(ip);
      }
    } else {
      Text.SplitNoSep(ip, '/');
      NetmaskOfInt(m);
      if IPv4.ParseAddr(ip).Some? && 0 <= m <= 32 {
        IPv4.MaskedIs(IPv4.ParseAddr(ip).value, m);
      }
    }
  }

  /** The block of an address that reads, at a prefix length. */
  lemma CidrTextOfAddr(ip: string, a: IPv4.Addr, m: IPv4.Prefix)
    requires IPv4.ParseAddr(ip) == Some(a)
    ensures IPv4.ParseNetwork(CidrText(ip, m)) == Some(IPv4.Network(IPv4.Masked(a, m), m))
  {
    CidrTextNetwork(ip, m);
  }

  /** `[str(host) for host in network.hosts()]`. */
  function Formatted(hs: seq<IPv4.Addr>): (ts: seq<string>)
    ensures |ts| == |hs|
    ensures forall i :: 0 <= i < |hs| ==> ts[i] == IPv4.FormatAddr(hs[i])
  {
    seq(|hs|, i requires 0 <= i < |hs| => IPv4.FormatAddr(hs[i]))
  }

  /** Each listed text reads back as its address, so the list names exactly the addresses. */
  lemma FormattedNames(hs: seq<IPv4.Addr>, x: IPv4.Addr)
    ensures forall i :: 0 <= i < |hs| ==> IPv4.ParseAddr(Formatted(hs)[i]) == Some(hs[i])
    ensures IPv4.FormatAddr(x) in Formatted(hs) <==> x in hs
  {
    var ts := Formatted(hs);
    forall i | 0 <= i < |hs|
      ensures IPv4.ParseAddr(ts[i]) == Some(hs[i])
    {
      IPv4.ParseAddrOfFormatAddr(hs[i]);
    }
    if IPv4.FormatAddr(x) in ts {
      var i :| 0 <= i < |ts| && ts[i] == IPv4.FormatAddr(x);
      IPv4.ParseAddrOfFormatAddr(x);
    }
    if x in hs {
      var i :| 0 <= i < |hs| && hs[i] == x;
      assert ts[i] == IPv4.FormatAddr(x);
    }
  }

  // ---------------------------------------------------------------------
  // `in_same_subnet` and `get_all_ips_in_subnet`
  // ---------------------------------------------------------------------

  /** `in_same_subnet`: do the two CIDR blocks overlap? `None` stands for the
      `ValueError` of a block that does not read, which happens exactly when an
      address does not read or a mask is no prefix length. */
  function InSameSubnet(ip1: string, mask1: int, ip2: string, mask2: int): (r: Option<bool>)
    ensures r.Some? <==>
            IPv4.ParseAddr(ip1).Some? && 0 <= mask1 <= 32 && IPv4.ParseAddr(ip2).Some? && 0 <= mask2 <= 32
  {
    CidrTextNetwork(ip1, mask1);
    CidrTextNetwork(ip2, mask2);
    match (IPv4.ParseNetwork(CidrText(ip1, mask1)), IPv4.ParseNetwork(CidrText(ip2, mask2)))
    case (Some(n1), Some(n2)) => Some(IPv4.Overlaps(n1.address, n1.prefix, n2.address, n2.prefix))
    case _ => None
  }

  /** Two blocks that read are in the same subnet exactly when the addresses agree on
      the first min(mask1, mask2) bits. */
  lemma InSameSubnetIff(ip1: string, mask1: IPv4.Prefix, ip2: string, mask2: IPv4.Prefix, a1: IPv4.Addr, a2: IPv4.Addr)
    requires IPv4.ParseAddr(ip1) == Some(a1) && IPv4.ParseAddr(ip2) == Some(a2)
    ensures var s := IPv4.BlockSize(IPv4.Min(mask1, mask2));
      InSameSubnet(ip1, mask1, ip2, mask2) == Some(a1 / s == a2 / s)
  {
    CidrTextOfAddr(ip1, a1, mask1);
    CidrTextOfAddr(ip2, a2, mask2);
    SameSubnetOfAddrs(a1, mask1, a2, mask2);
  }

  lemma SameSubnetOfAddrs(a1: IPv4.Addr, p1: IPv4.Prefix, a2: IPv4.Addr, p2: IPv4.Prefix)
    ensures var s := IPv4.BlockSize(IPv4.Min(p1, p2));
      IPv4.Overlaps(IPv4.Masked(a1, p1), p1, IPv4.Masked(a2, p2), p2) <==> a1 / s == a2 / s
  {
    var p := IPv4.Min(p1, p2);
    IPv4.OverlapsIff(IPv4.Masked(a1, p1), p1, IPv4.Masked(a2, p2), p2);
    IPv4.EndsDivide(a1, p1, p);
    IPv4.EndsDivide(a2, p2, p);
  }

  /** The answer does not depend on which block comes first. */
  lemma InSameSubnetSymmetric(ip1: string, mask1: int, ip2: string, mask2: int)
    ensures InSameSubnet(ip1, mask1, ip2, mask2) == InSameSubnet(ip2, mask2, ip1, mask1)
  {
    var r1 := IPv4.ParseNetwork(CidrText(ip1, mask1));
    var r2 := IPv4.ParseNetwork(CidrText(ip2, mask2));
    if r1.Some? && r2.Some? {
      IPv4.OverlapsSymmetric(r1.value.address, r1.value.prefix, r2.value.address, r2.value.prefix);
    }
  }

  /** The prefix cap of host enumeration: the configured `max_mask`, or 24 when it is
      unset or zero. */
  function SubnetCap(maxMask: Option<int>): int {
    if maxMask.Some? && maxMask.value != 0 then maxMask.value else 24
  }

  /** The prefix `get_all_ips_in_subnet` enumerates with: `max(mask, cap)`. */
  function EnumerationPrefix(mask: int, maxMask: Option<int>): (p: int)
    ensures p >= mask && p >= SubnetCap(maxMask)
    ensures p == mask || p == SubnetCap(maxMask)
  {
    if mask >= SubnetCap(maxMask) then mask else SubnetCap(maxMask)
  }

  /** `get_all_ips_in_subnet`: the host addresses of the address's block at the
      capped prefix, as text; `None` stands for the `ValueError` of a block that does
      not read, which happens exactly when the address does not read or that prefix
      is no prefix length. */
  function GetAllIpsInSubnet(ip: string, mask: int, maxMask: Option<int>): (r: Option<seq<string>>)
    ensures var p := EnumerationPrefix(mask, maxMask);
      r == if IPv4.ParseAddr(ip).Some? && 0 <= p <= 32
           then Some(Formatted(IPv4.Hosts(IPv4.ParseAddr(ip).value, p))) else None
  {
    var p := EnumerationPrefix(mask, maxMask);
    CidrTextNetwork(ip, p);
    match IPv4.ParseNetwork(CidrText(ip, p))
    case None => None
    case Some(n) =>
      IPv4.MaskedTwice(IPv4.ParseAddr(ip).value, n.prefix);
      Some(Formatted(IPv4.Hosts(n.address, n.prefix)))
  }

  /** A block at a prefix no shorter than the cap has no more hosts than a block of the cap. */
  lemma HostsWithinCap(a: IPv4.Addr, p: IPv4.Prefix, cap: IPv4.Prefix)
    requires cap <= p
    ensures |IPv4.Hosts(a, p)| <= IPv4.BlockSize(cap)
  {
    IPv4.HostsCount(a, p);
    IPv4.BlockNesting(cap, p);
    IPv4.MulAtLeast(IPv4.BlockSize(p), IPv4.Pow2(p - cap));
  }

  /** The enumeration never lists more addresses than a block of the cap holds. */
  lemma GetAllIpsInSubnetCapped(ip: string, mask: int, maxMask: Option<int>)
    requires 0 <= SubnetCap(maxMask) <= 32
    ensures GetAllIpsInSubnet(ip, mask, maxMask).Some? ==>
            |GetAllIpsInSubnet(ip, mask, maxMask).value| <= IPv4.BlockSize(SubnetCap(maxMask))
  {
    var p := EnumerationPrefix(mask, maxMask);
    if GetAllIpsInSubnet(ip, mask, maxMask).Some? {
      HostsWithinCap(IPv4.ParseAddr(ip).value, p, SubnetCap(maxMask));
    }
  }

  // ---------------------------------------------------------------------
  // Proxy settings of `create_proxy_socket`
  // ---------------------------------------------------------------------

  datatype ProxyKind = Socks4 | Socks5 | Http

  /** The proxy type and port for a proxy URL's scheme and port (`None` when the URL
      names no port). */
  function ProxySettings(scheme: string, port: Option<int>): (r: (ProxyKind, int))
    ensures r.0 == Socks4 <==> scheme == "socks4"
    ensures r.0 == Http <==> scheme == "http"
    ensures r.0 == Socks5 <==> scheme != "socks4" && scheme != "http"
    ensures port.Some? && port.value != 0 ==> r.1 == port.value
    ensures port.None? || port.value == 0 ==> r.1 == (if scheme == "http" then 8080 else 1080)
  {
    var kind := if scheme == "socks4" then Socks4 else if scheme == "http" then Http else Socks5;
    var p := if port.Some? && port.value != 0 then port.value else if kind == Http then 8080 else 1080;
    (kind, p)
  }

  // ---------------------------------------------------------------------
  // `read_targets`
  // ---------------------------------------------------------------------

  /** What `read_targets` is given: the lines of a readable file (as `readlines`
      returns them), a file that could not be read, or text that names no file. */
  datatype TargetInput = FileLines(raw: seq<string>) | FileUnreadable | Direct(text: string)

  /** `[line.strip() for line in raw if line.strip()]`. */
  function NonBlank(raw: seq<string>): (lines: seq<string>)
    ensures forall l :: l in lines <==> exists i :: 0 <= i < |raw| && Text.Strip(raw[i]) != [] && l == Text.Strip(raw[i])
  {
    if raw == [] then []
    else
      var init := raw[..|raw| - 1];
      var l := Text.Strip(raw[|raw| - 1]);
      assert forall i :: 0 <= i < |init| ==> raw[i] == init[i];
      NonBlank(init) + (if l == [] then [] else [l])
  }

  /** The stripped lines the expansion runs over. */
  function InputLines(input: TargetInput): seq<string> {
    match input
    case FileLines(raw) => NonBlank(raw)
    case FileUnreadable => []
    case Direct(text) => [Text.Strip(text)]
  }

  /** What one line contributes: the hosts of the network it reads as, or the line itself. */
  function LineTargets(line: string): seq<string> {
    match IPv4.ParseNetwork(line)
    case Some(n) => Formatted(IPv4.Hosts(n.address, n.prefix))
    case None => [line]
  }

  /** The lists `f` gives for the elements of `xs`, concatenated in order. */
  function FlatMap<T, U>(xs: seq<T>, f: T -> seq<U>): seq<U> {
    if xs == [] then [] else FlatMap(xs[..|xs| - 1], f) + f(xs[|xs| - 1])
  }

  /** An element of the concatenation comes from the list of some element, and every
      element of every list is in the concatenation. */
  lemma {:induction false} FlatMapMembers<T, U>(xs: seq<T>, f: T -> seq<U>, u: U)
    ensures u in FlatMap(xs, f) <==> exists i :: 0 <= i < |xs| && u in f(xs[i])
  {
    if xs != [] {
      var init := xs[..|xs| - 1];
      FlatMapMembers(init, f, u);
      if u in FlatMap(init, f) {
        var i :| 0 <= i < |init| && u in f(init[i]);
        assert xs[i] == init[i];
      }
      if exists i :: 0 <= i < |xs| && u in f(xs[i]) {
        var i :| 0 <= i < |xs| && u in f(xs[i]);
        if i < |init| {
          assert init[i] == xs[i];
        }
      }
    }
  }

  /** The targets of a list of lines, in order. */
  function Expand(lines: seq<string>): seq<string> {
    FlatMap(lines, LineTargets)
  }

  /** `read_targets`: every line that reads as an IPv4 network is replaced by its host
      addresses, any other line is kept as it is. */
  method ReadTargets(input: TargetInput) returns (targets: seq<string>)
    ensures targets == Expand(InputLines(input))
  {
    targets := [];
    var lines: seq<string>;
    match input {
      case FileUnreadable =>
        return;
      case FileLines(raw) =>
        lines := NonBlank(raw);
      case Direct(text) =>
        lines := [Text.Strip(text)];
    }
    var k := 0;
    while k < |lines|
      invariant 0 <= k <= |lines|
      invariant targets == Expand(lines[..k])
    {
      var line := lines[k];
      var network := IPv4.ParseNetwork(line);
      if network.Some? {
        targets := targets + Formatted(IPv4.Hosts(network.value.address, network.value.prefix));
      } else {
        targets := targets + [line];
      }
      assert lines[..k + 1][..k] == lines[..k];
      k := k + 1;
    }
    assert lines[..k] == lines;
  }

  /** A target is among what some line contributes, and everything a line contributes is a target. */
  lemma ExpandMembers(lines: seq<string>, t: string)
    ensures t in Expand(lines) <==> exists i :: 0 <= i < |lines| && t in LineTargets(lines[i])
  {
    FlatMapMembers(lines, LineTargets, t);
  }

  /** A line that reads as a network contributes its host addresses in ascending
      order: each target reads back as the host at its position, and an address is
      listed exactly when it lies in the network and, below /31, is neither its
      network nor its broadcast address. */
  lemma LineTargetsOfNetwork(line: string, n: IPv4.Network, x: IPv4.Addr)
    requires IPv4.ParseNetwork(line) == Some(n)
    ensures var hs := IPv4.Hosts(n.address, n.prefix);
      && |LineTargets(line)| == |hs|
      && (forall i :: 0 <= i < |hs| ==> IPv4.ParseAddr(LineTargets(line)[i]) == Some(hs[i]))
      && (forall i, j :: 0 <= i < j < |hs| ==> hs[i] < hs[j])
      && (IPv4.FormatAddr(x) in LineTargets(line) <==>
          IPv4.InNetwork(x, n.address, n.prefix) &&
          (n.prefix <= 30 ==> x != IPv4.NetworkAddress(n.address, n.prefix) && x != IPv4.BroadcastAddress(n.address, n.prefix)))
  {
    FormattedNames(IPv4.Hosts(n.address, n.prefix), x);
    IPv4.HostsExactly(n.address, n.prefix, x);
  }

  /** Text that names no file is one target list: the hosts of the network the stripped
      text reads as, or else the stripped text alone. */
  lemma DirectTargets(text: string)
    ensures var line := Text.Strip(text);
      Expand(InputLines(Direct(text))) ==
        if IPv4.ParseNetwork(line).None? then [line]
        else Formatted(IPv4.Hosts(IPv4.ParseNetwork(line).value.address, IPv4.ParseNetwork(line).value.prefix))
  {
    ExpandSingle(Text.Strip(text));
  }

  lemma ExpandSingle(line: string)
    ensures Expand([line]) == LineTargets(line)
  {
    var lines := [line];
    assert lines[..0] == [];
    assert Expand(lines) == FlatMap(lines[..0], LineTargets) + LineTargets(lines[0]);
  }

  /** An address text starts with a digit. */
  lemma AddrTextStartsWithDigit(s: string)
    requires IPv4.ParseAddr(s).Some?
    ensures s != [] && Decimal.IsDigit(s[0])
  {
    var a := IPv4.ParseAddr(s).value;
    IPv4.FormatAddrOfParseAddr(s, a);
    var fields := IPv4.AddrFields(a);
    assert s == fields[0] + "." + Text.Join(fields[1..], ".");
    assert fields[0] != [] && Decimal.AllDigits(fields[0]);
  }

  /** `address/30` needs no stripping and reads as the /30 block of the address. */
  lemma Slash30Text(s: string)
    requires IPv4.ParseAddr(s).Some?
    ensures Text.Strip(s + "/30") == s + "/30"
    ensures IPv4.ParseNetwork(s + "/30") == Some(IPv4.Network(IPv4.Masked(IPv4.ParseAddr(s).value, 30), 30))
  {
    var text := s + "/30";
    AddrTextStartsWithDigit(s);
    assert text[0] == s[0] && text[|text| - 1] == '0';
    Decimal.StripUnpadded(text);
    assert Decimal.IntToString(30) == "30";
    assert text == CidrText(s, 30);
    CidrTextNetwork(s, 30);
  }

  /** A /30 block has two hosts, the addresses after its network address. */
  lemma Slash30Hosts(a: IPv4.Addr)
    ensures var n := IPv4.NetworkAddress(a, 30);
      n + 2 < IPv4.AddressSpace && IPv4.Hosts(IPv4.Masked(a, 30), 30) == [n + 1, n + 2]
  {
    var n := IPv4.Masked(a, 30);
    IPv4.MaskedTwice(a, 30);
    assert IPv4.NetworkAddress(n, 30) == n == IPv4.NetworkAddress(a, 30);
    IPv4.HostsOfSlash30(n);
  }

  /** A /30 written as `address/30` yields exactly its two middle addresses, in order. */
  lemma Slash30Targets(s: string)
    requires IPv4.ParseAddr(s).Some?
    ensures var n := IPv4.NetworkAddress(IPv4.ParseAddr(s).value, 30);
      n + 2 < IPv4.AddressSpace && Expand(InputLines(Direct(s + "/30"))) == Formatted([n + 1, n + 2])
  {
    var a := IPv4.ParseAddr(s).value;
    var line := s + "/30";
    Slash30Text(s);
    assert InputLines(Direct(line)) == [line];
    ExpandSingle(line);
    Slash30Hosts(a);
    var n := IPv4.NetworkAddress(a, 30);
    var hs: seq<IPv4.Addr> := IPv4.Hosts(IPv4.Masked(a, 30), 30);
    assert LineTargets(line) == Formatted(hs);
    var two: seq<IPv4.Addr> := [n + 1, n + 2];
    assert hs == two;
  }

  // ---------------------------------------------------------------------
  // `get_remote_ip`
  // ---------------------------------------------------------------------

  /** What a remote command printed on standard output and standard error. */
  datatype Reply = Reply(out: string, err: string)

  /** An address found on the remote host, with its prefix length. */
  datatype IpEntry = IpEntry(ip: string, mask: int)

  /** The peer address of the connection: a lookup that raised, or the name it gave
      (empty when the connection gives none). */
  datatype Peer = PeerFailed | PeerName(name: string)

  /** A reply worth parsing: nothing on standard error and some non-blank output. */
  predicate Answered(r: Reply) {
    r.err == [] && Text.Strip(r.out) != []
  }

  /** An `ip addr` token that names an address: it holds a `/` and is not the loopback address. */
  predicate CidrToken(token: string) {
    '/' in token && !Text.Contains(token, "127.0.0.1")
  }

  /** `ip, mask = token.split("/")` and `int(mask)`; `None` stands for the `ValueError`
      of a token with more than one `/` or of a mask `int()` rejects. */
  function TokenEntry(token: string): Option<IpEntry> {
    var pieces := Text.Split(token, '/');
    if |pieces| != 2 then None
    else
      match Decimal.ParseInt(pieces[1])
      case None => None
      case Some(m) => Some(IpEntry(pieces[0], m))
  }

  /** The entries of the `ip addr` tokens, in order; `None` when one of them raises. */
  function CidrEntries(tokens: seq<string>): Option<seq<IpEntry>> {
    if tokens == [] then Some([])
    else
      match CidrEntries(tokens[..|tokens| - 1])
      case None => None
      case Some(es) =>
        var t := tokens[|tokens| - 1];
        if !CidrToken(t) then Some(es)
        else
          match TokenEntry(t)
          case None => None
          case Some(e) => Some(es + [e])
  }

  /** The tokens that name addresses, in order. */
  function CidrTokens(tokens: seq<string>): (ts: seq<string>)
    ensures forall k :: 0 <= k < |ts| ==> CidrToken(ts[k])
  {
    if tokens == [] then []
    else CidrTokens(tokens[..|tokens| - 1]) + (if CidrToken(tokens[|tokens| - 1]) then [tokens[|tokens| - 1]] else [])
  }

  /** Only the tokens that name addresses give entries, one each and in order, and the
      parse fails exactly when one of those tokens does not split into an address and a mask. */
  lemma {:induction false} CidrEntriesOfTokens(tokens: seq<string>)
    ensures CidrEntries(tokens).Some? <==> forall k :: 0 <= k < |CidrTokens(tokens)| ==> TokenEntry(CidrTokens(tokens)[k]).Some?
    ensures CidrEntries(tokens).Some? ==>
              && |CidrEntries(tokens).value| == |CidrTokens(tokens)|
              && forall k :: 0 <= k < |CidrTokens(tokens)| ==> TokenEntry(CidrTokens(tokens)[k]) == Some(CidrEntries(tokens).value[k])
  {
    if tokens != [] {
      var init := tokens[..|tokens| - 1];
      var t := tokens[|tokens| - 1];
      CidrEntriesOfTokens(init);
      var ts := CidrTokens(init);
      if CidrToken(t) {
        var ts' := ts + [t];
        assert CidrTokens(tokens) == ts';
        assert forall k :: 0 <= k < |ts| ==> ts'[k] == ts[k];
        assert ts'[|ts|] == t;
      } else {
        assert CidrTokens(tokens) == ts;
      }
    }
  }

  /** The state of the `ifconfig` scan: the last `inet` address seen (empty before the
      first) and the entries found so far. */
  datatype Scan = Scan(current: string, found: seq<IpEntry>)

  /** One whitespace-separated part of an `inet` line; `None` stands for the
      `IndexError` of an `inet` or netmask part with nothing after it. A netmask whose
      fields `int()` rejects is skipped. */
  function PartStep(parts: seq<string>, i: nat, st: Scan): Option<Scan>
    requires i < |parts|
  {
    if parts[i] == "inet" then
      if i + 1 < |parts| then Some(st.(current := parts[i + 1])) else None
    else if Text.Contains(parts[i], "netmask") then
      if i + 1 >= |parts| then None
      else
        match IPv4.NetmaskToCidr(parts[i + 1])
        case None => Some(st)
        case Some(m) => Some(if st.current != [] then st.(found := st.found + [IpEntry(st.current, m)]) else st)
    else Some(st)
  }

  /** The first `n` parts of a line, scanned in order. */
  function ScanParts(parts: seq<string>, n: nat, st: Scan): Option<Scan>
    requires n <= |parts|
  {
    if n == 0 then Some(st)
    else
      match ScanParts(parts, n - 1, st)
      case None => None
      case Some(s) => PartStep(parts, n - 1, s)
  }

  /** A line that may carry an address: it mentions `inet ` and not the loopback address. */
  predicate InetLine(line: string) {
    Text.Contains(line, "inet ") && !Text.Contains(line, "127.0.0.1")
  }

  /** One line of `ifconfig` output, stripped; lines that are not `InetLine`s change nothing. */
  function ScanLine(line: string, st: Scan): Option<Scan> {
    var l := Text.Strip(line);
    if InetLine(l) then ScanParts(Text.Words(l), |Text.Words(l)|, st) else Some(st)
  }

  /** The lines of `ifconfig` output, scanned in order. */
  function ScanLines(lines: seq<string>, st: Scan): Option<Scan> {
    if lines == [] then Some(st)
    else
      match ScanLines(lines[..|lines| - 1], st)
      case None => None
      case Some(s) => ScanLine(lines[|lines| - 1], s)
  }

  /** Some `inet` part among the first `n` parts is followed by `ip`. */
  predicate NamedByInet(parts: seq<string>, n: nat, ip: string) {
    exists i :: 0 <= i < n && i + 1 < |parts| && parts[i] == "inet" && parts[i + 1] == ip
  }

  /** The scan of a line only adds entries, each for a non-empty address that was current
      before the line or that an `inet` part of the line named. */
  lemma {:induction false} ScanPartsGrows(parts: seq<string>, n: nat, st: Scan)
    requires n <= |parts| && ScanParts(parts, n, st).Some?
    ensures var st' := ScanParts(parts, n, st).value;
      && st.found <= st'.found
      && (st'.current == st.current || NamedByInet(parts, n, st'.current))
      && (forall k :: |st.found| <= k < |st'.found| ==>
            st'.found[k].ip != [] && (st'.found[k].ip == st.current || NamedByInet(parts, n, st'.found[k].ip)))
  {
    if n > 0 {
      ScanPartsGrows(parts, n - 1, st);
      var s := ScanParts(parts, n - 1, st).value;
      var st' := ScanParts(parts, n, st).value;
      assert forall ip :: NamedByInet(parts, n - 1, ip) ==> NamedByInet(parts, n, ip);
      if parts[n - 1] == "inet" {
        assert NamedByInet(parts, n, st'.current);
      }
      assert forall k :: 0 <= k < |s.found| ==> st'.found[k] == s.found[k];
    }
  }

  /** The scan of the whole output only adds entries, each with a non-empty address. */
  lemma {:induction false} ScanLinesGrows(lines: seq<string>, st: Scan)
    requires ScanLines(lines, st).Some?
    ensures st.found <= ScanLines(lines, st).value.found
    ensures forall k :: |st.found| <= k < |ScanLines(lines, st).value.found| ==> ScanLines(lines, st).value.found[k].ip != []
  {
    if lines != [] {
      var init := lines[..|lines| - 1];
      ScanLinesGrows(init, st);
      var s := ScanLines(init, st).value;
      var l := Text.Strip(lines[|lines| - 1]);
      if InetLine(l) {
        ScanPartsGrows(Text.Words(l), |Text.Words(l)|, s);
      }
    }
  }

  /** Once a part raises, the rest of the line is not scanned. */
  lemma {:induction false} ScanPartsFailed(parts: seq<string>, i: nat, n: nat, st: Scan)
    requires i <= n <= |parts| && ScanParts(parts, i, st).None?
    ensures ScanParts(parts, n, st).None?
    decreases n
  {
    if n > i {
      ScanPartsFailed(parts, i, n - 1, st);
    }
  }

  /** Once a line raises, the rest of the output is not scanned. */
  lemma {:induction false} ScanLinesFailed(lines: seq<string>, k: nat, st: Scan)
    requires k <= |lines| && ScanLines(lines[..k], st).None?
    ensures ScanLines(lines, st).None?
    decreases |lines| - k
  {
    if k < |lines| {
      assert lines[..k + 1][..k] == lines[..k];
      ScanLinesFailed(lines, k + 1, st);
    } else {
      assert lines[..k] == lines;
    }
  }

  /** Once a token raises, the rest are not parsed. */
  lemma {:induction false} CidrEntriesFailed(tokens: seq<string>, k: nat)
    requires k <= |tokens| && CidrEntries(tokens[..k]).None?
    ensures CidrEntries(tokens).None?
    decreases |tokens| - k
  {
    if k < |tokens| {
      assert tokens[..k + 1][..k] == tokens[..k];
      CidrEntriesFailed(tokens, k + 1);
    } else {
      assert tokens[..k] == tokens;
    }
  }

  /** The addresses of the `ip addr` reply; nothing when it failed or was blank. */
  function IpCommandEntries(r: Reply): Option<seq<IpEntry>> {
    if !Answered(r) then Some([]) else CidrEntries(Text.Words(Text.Strip(r.out)))
  }

  /** The addresses of the `ifconfig` reply; nothing when it failed or was blank. */
  function IfconfigEntries(r: Reply): Option<seq<IpEntry>> {
    if !Answered(r) then Some([])
    else
      match ScanLines(Text.SplitLines(Text.Strip(r.out)), Scan([], []))
      case None => None
      case Some(st) => Some(st.found)
  }

  /** The last resort: the peer address (or, when it is empty, the host) as a /32. */
  function PeerEntries(peer: Peer, host: string): seq<IpEntry> {
    match peer
    case PeerFailed => []
    case PeerName(n) => [IpEntry(if n != [] then n else host, 32)]
  }

  /** `get_remote_ip` as a value: `ip addr` first, `ifconfig` when that found nothing,
      the peer address when both found nothing; `None` stands for an exception that
      escapes the function. */
  function RemoteIp(ipReply: Reply, ifReply: Reply, peer: Peer, host: string): Option<seq<IpEntry>> {
    match IpCommandEntries(ipReply)
    case None => None
    case Some(first) =>
      if first != [] then Some(first)
      else
        match IfconfigEntries(ifReply)
        case None => None
        case Some(second) => Some(if second != [] then second else PeerEntries(peer, host))
  }

  /** The sources are tried in order and the first that finds an address wins; when
      neither command finds one, the answer is a single /32 entry for the peer, or
      nothing when the peer lookup fails. */
  lemma RemoteIpOrder(ipReply: Reply, ifReply: Reply, peer: Peer, host: string)
    ensures IpCommandEntries(ipReply).Some? && IpCommandEntries(ipReply).value != [] ==>
              RemoteIp(ipReply, ifReply, peer, host) == IpCommandEntries(ipReply)
    ensures IpCommandEntries(ipReply) == Some([]) && IfconfigEntries(ifReply).Some? && IfconfigEntries(ifReply).value != [] ==>
              RemoteIp(ipReply, ifReply, peer, host) == IfconfigEntries(ifReply)
    ensures IpCommandEntries(ipReply) == Some([]) && IfconfigEntries(ifReply) == Some([]) ==>
              RemoteIp(ipReply, ifReply, peer, host) ==
                Some(if peer.PeerName? then [IpEntry(if peer.name != [] then peer.name else host, 32)] else [])
  {
  }

  /** The loop over the `ip addr` tokens. */
  method ParseCidrTokens(cidrs: seq<string>) returns (r: Option<seq<IpEntry>>)
    ensures r == CidrEntries(cidrs)
  {
    var info: seq<IpEntry> := [];
    var k := 0;
    while k < |cidrs|
      invariant 0 <= k <= |cidrs|
      invariant CidrEntries(cidrs[..k]) == Some(info)
    {
      var cidr := cidrs[k];
      assert cidrs[..k + 1][..k] == cidrs[..k];
      if '/' in cidr && !Text.Contains(cidr, "127.0.0.1") {
        var pieces := Text.Split(cidr, '/');
        var mask := if |pieces| == 2 then Decimal.ParseInt(pieces[1]) else None;
        if mask.None? {
          CidrEntriesFailed(cidrs, k + 1);
          return None;
        }
        info := info + [IpEntry(pieces[0], mask.value)];
      }
      k := k + 1;
    }
    assert cidrs[..k] == cidrs;
    r := Some(info);
  }

  /** The loop over the parts of one `inet` line; `failed` reports the `IndexError`. */
  method ScanInetParts(parts: seq<string>, current0: string, info0: seq<IpEntry>)
    returns (failed: bool, current: string, info: seq<IpEntry>)
    ensures failed <==> ScanParts(parts, |parts|, Scan(current0, info0)).None?
    ensures !failed ==> ScanParts(parts, |parts|, Scan(current0, info0)) == Some(Scan(current, info))
  {
    current, info := current0, info0;
    var i := 0;
    while i < |parts|
      invariant 0 <= i <= |parts|
      invariant ScanParts(parts, i, Scan(current0, info0)) == Some(Scan(current, info))
    {
      if parts[i] == "inet" || Text.Contains(parts[i], "netmask") {
        if i + 1 >= |parts| {
          ScanPartsFailed(parts, i + 1, |parts|, Scan(current0, info0));
          return true, current, info;
        }
      }
      if parts[i] == "inet" {
        current := parts[i + 1];
      } else if Text.Contains(parts[i], "netmask") {
        var mask := IPv4.NetmaskToCidr(parts[i + 1]);
        if mask.Some? && current != [] {
          info := info + [IpEntry(current, mask.value)];
        }
      }
      i := i + 1;
    }
    failed := false;
  }

  /** The loop over the lines of the `ifconfig` output. */
  method ScanIfconfig(lines: seq<string>) returns (r: Option<seq<IpEntry>>)
    ensures r == match ScanLines(lines, Scan([], [])) case None => None case Some(st) => Some(st.found)
  {
    var current: string, info: seq<IpEntry> := [], [];
    var k := 0;
    while k < |lines|
      invariant 0 <= k <= |lines|
      invariant ScanLines(lines[..k], Scan([], [])) == Some(Scan(current, info))
    {
      var line := Text.Strip(lines[k]);
      assert lines[..k + 1][..k] == lines[..k];
      if InetLine(line) {
        var failed;
        failed, current, info := ScanInetParts(Text.Words(line), current, info);
        if failed {
          ScanLinesFailed(lines, k + 1, Scan([], []));
          return None;
        }
      }
      k := k + 1;
    }
    assert lines[..k] == lines;
    r := Some(info);
  }

  /** `get_remote_ip`. The two commands' replies and the peer lookup are parameters. */
  method GetRemoteIp(ipReply: Reply, ifReply: Reply, peer: Peer, host: string) returns (r: Option<seq<IpEntry>>)
    ensures r == RemoteIp(ipReply, ifReply, peer, host)
  {
    var info: seq<IpEntry> := [];
    if Answered(ipReply) {
      var parsed := ParseCidrTokens(Text.Words(Text.Strip(ipReply.out)));
      if parsed.None? {
        return None;
      }
      info := parsed.value;
    }
    if info == [] && Answered(ifReply) {
      var scanned := ScanIfconfig(Text.SplitLines(Text.Strip(ifReply.out)));
      if scanned.None? {
        return None;
      }
      info := scanned.value;
    }
    if info == [] {
      match peer {
        case PeerFailed =>
        case PeerName(name) =>
          info := [IpEntry(if name != [] then name else host, 32)];
      }
    }
    r := Some(info);
  }

  // ---------------------------------------------------------------------
  // `get_remote_hostname`
  // ---------------------------------------------------------------------

  /** What one `hostname` attempt gave: its standard output, or an exception. */
  datatype HostnameReply = Printed(out: string) | Raised

  /** An attempt that named the host: some non-blank output. */
  predicate NamedHost(r: HostnameReply) {
    r.Printed? && Text.Strip(r.out) != []
  }

  const HostnameAttempts: nat := 3

  /** `get_remote_hostname`: the stripped output of the first of three attempts that
      prints a non-blank name, or the session's host when none does. `attempt(k)` is
      what the `k`-th attempt gives. */
  method GetRemoteHostname(attempt: nat -> HostnameReply, host: string) returns (name: string)
    ensures || (exists k :: 0 <= k < HostnameAttempts && NamedHost(attempt(k)) && name == Text.Strip(attempt(k).out)
                            && forall j :: 0 <= j < k ==> !NamedHost(attempt(j)))
            || ((forall k :: 0 <= k < HostnameAttempts ==> !NamedHost(attempt(k))) && name == host)
  {
    var k := 0;
    while k < HostnameAttempts
      invariant 0 <= k <= HostnameAttempts
      invariant forall j :: 0 <= j < k ==> !NamedHost(attempt(j))
    {
      var reply := attempt(k);
      if reply.Printed? && Text.Strip(reply.out) != [] {
        return Text.Strip(reply.out);
      }
      k := k + 1;
    }
    name := host;
  }
}
