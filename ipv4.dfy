/**
 * IPv4 addresses and networks as Python's `ipaddress` module treats them:
 * an address is a 32-bit number, a network is an address with a prefix
 * length, masking clears the host bits (`strict=False`), and `overlaps`,
 * `hosts()` and the dotted-quad text form follow that module.
 */
module IPv4 {
  import opened Wrappers
  import Text
  import Decimal

  const AddressSpace: nat := 0x1_0000_0000
  const AllOnes: nat := 0xFFFF_FFFF

  type Addr = n: int | 0 <= n < 0x1_0000_0000
  type Prefix = p: int | 0 <= p <= 32

  function Pow2(k: nat): (r: nat)
    ensures r >= 1
  {
    if k == 0 then 1 else 2 * Pow2(k - 1)
  }

  // ---------------------------------------------------------------------
  // Arithmetic facts about division by powers of two
  // ---------------------------------------------------------------------

  lemma {:induction false} Pow2Add(m: nat, n: nat)
    ensures Pow2(m + n) == Pow2(m) * Pow2(n)
  {
    if n > 0 {
      Pow2Add(m, n - 1);
      assert Pow2(m + n) == 2 * Pow2(m + n - 1);
    }
  }

  lemma Pow2Monotone(m: nat, n: nat)
    requires m <= n
    ensures Pow2(m) <= Pow2(n)
  {
    Pow2Add(m, n - m);
  }

  /** Division has one quotient and one remainder. */
  lemma DivUnique(x: int, d: int, q: int, r: int)
    requires d > 0 && 0 <= r < d && x == d * q + r
    ensures x / d == q && x % d == r
  {
    var q', r' := x / d, x % d;
    assert d * q' + r' == d * q + r;
    if q' > q {
      assert d * (q' - q) == r - r';
      MulAtLeast(d, q' - q);
    } else if q' < q {
      assert d * (q - q') == r' - r;
      MulAtLeast(d, q - q');
    }
  }

  lemma MulAtLeast(d: int, k: int)
    requires d > 0 && k >= 1
    ensures d * k >= d
  {
    assert d * k == d * (k - 1) + d;
    MulNonNegative(d, k - 1);
  }

  lemma MulNonNegative(a: int, b: int)
    requires a >= 0 && b >= 0
    ensures a * b >= 0
  {
  }

  /** Dividing twice is dividing by the product. */
  lemma DivDiv(x: nat, a: nat, b: nat)
    requires a > 0 && b > 0
    ensures x / (a * b) == (x / a) / b
  {
    var q := x / a;
    var r := x % a;
    var q2 := q / b;
    var r2 := q % b;
    assert x == a * q + r;
    assert q == b * q2 + r2;
    assert x == (a * b) * q2 + (a * r2 + r) by {
      assert a * q == a * (b * q2) + a * r2;
      assert a * (b * q2) == (a * b) * q2;
    }
    assert a * r2 + r < a * b by {
      assert r2 <= b - 1;
      assert a * r2 <= a * (b - 1) by { MulNonNegative(a, b - 1 - r2); assert a * (b - 1) - a * r2 == a * (b - 1 - r2); }
      assert a * (b - 1) == a * b - a;
    }
    MulNonNegative(a, r2);
    DivUnique(x, a * b, q2, a * r2 + r);
  }

  lemma MulDivCancel(q: nat, d: nat)
    requires d > 0
    ensures (q * d) / d == q
  {
    DivUnique(q * d, d, q, 0);
  }

  /** The number of addresses in a network with prefix `p`. */
  function BlockSize(p: Prefix): (s: nat)
    ensures s >= 1
  {
    Pow2(32 - p)
  }

  /** `2^p` blocks of prefix `p` fill the address space exactly. */
  lemma BlocksFillSpace(p: Prefix)
    ensures BlockSize(p) * Pow2(p) == AddressSpace
  {
    Pow2Add(32 - p, p);
    Pow2Of32();
  }

  lemma Pow2Of32()
    ensures Pow2(32) == AddressSpace
  {
    assert Pow2(8) == 256;
    Pow2Add(8, 8);
    Pow2Add(16, 16);
  }

  /** A shorter prefix's block is a whole number of longer-prefix blocks. */
  lemma BlockNesting(short: Prefix, long: Prefix)
    requires short <= long
    ensures BlockSize(short) == BlockSize(long) * Pow2(long - short)
  {
    Pow2Add(32 - long, long - short);
  }

  // ---------------------------------------------------------------------
  // Networks
  // ---------------------------------------------------------------------

  /** `a & netmask`: the address with its host bits cleared. */
  function Masked(a: Addr, p: Prefix): (n: Addr)
    ensures n <= a && n % BlockSize(p) == 0
    ensures n + BlockSize(p) <= AddressSpace
  {
    var s := BlockSize(p);
    BlocksFillSpace(p);
    QuotientBound(a, s, Pow2(p));
    (a / s) * s
  }

  lemma MaskedIs(a: Addr, p: Prefix)
    ensures Masked(a, p) == (a / BlockSize(p)) * BlockSize(p)
  {
  }

  /** A number below `s * count` leaves a whole block of size `s` above its
      rounded-down multiple of `s`. */
  lemma QuotientBound(a: nat, s: nat, count: nat)
    requires s > 0 && a < s * count
    ensures (a / s) * s + s <= s * count
    ensures 0 <= (a / s) * s <= a && ((a / s) * s) % s == 0
  {
    var q := a / s;
    var r := a % s;
    DivUnique(q * s, s, q, 0);
    MulNonNegative(q, s);
    assert a == s * q + r;
    if q >= count {
      MulMonotone(count, q, s);
      assert false;
    }
    MulMonotone(q + 1, count, s);
    assert (q + 1) * s == q * s + s;
  }

  lemma MulMonotone(x: nat, y: nat, s: nat)
    requires x <= y
    ensures x * s <= y * s
  {
    MulNonNegative(y - x, s);
    assert y * s - x * s == (y - x) * s;
  }

  lemma MulCancel(u: int, v: int, s: int)
    requires s > 0 && u * s == v * s
    ensures u == v
  {
    if u < v {
      MulAtLeast(s, v - u);
    } else if v < u {
      MulAtLeast(s, u - v);
    }
  }

  /** The first address of the network: `network_address`. */
  function NetworkAddress(a: Addr, p: Prefix): Addr {
    Masked(a, p)
  }

  /** The last address of the network: `broadcast_address`. */
  function BroadcastAddress(a: Addr, p: Prefix): Addr {
    Masked(a, p) + BlockSize(p) - 1
  }

  /** `x in ip_network(a/p)`: `x & netmask == network_address`. */
  predicate InNetwork(x: Addr, a: Addr, p: Prefix) {
    Masked(x, p) == NetworkAddress(a, p)
  }

  /** Membership is agreement of the top `p` bits. */
  lemma InNetworkIff(x: Addr, a: Addr, p: Prefix)
    ensures InNetwork(x, a, p) <==> x / BlockSize(p) == a / BlockSize(p)
  {
    var s := BlockSize(p);
    MaskedIs(x, p);
    MaskedIs(a, p);
    if Masked(x, p) == Masked(a, p) {
      MulCancel(x / s, a / s, s);
    }
  }

  /** The first and last multiple-of-`s` block members keep the quotient by `s * c`. */
  lemma BlockEndsDivide(a: nat, s: nat, c: nat)
    requires s > 0 && c > 0
    ensures ((a / s) * s) / (s * c) == a / (s * c)
    ensures ((a / s) * s + s - 1) / (s * c) == a / (s * c)
  {
    var q := a / s;
    DivUnique(q * s, s, q, 0);
    DivUnique(q * s + s - 1, s, q, s - 1);
    MulNonNegative(q, s);
    DivDiv(q * s, s, c);
    DivDiv(q * s + s - 1, s, c);
    DivDiv(a, s, c);
  }

  /** Dividing the network or broadcast address of a longer prefix by a shorter
      prefix's block size gives the same quotient as the address itself. */
  lemma EndsDivide(a: Addr, long: Prefix, short: Prefix)
    requires short <= long
    ensures NetworkAddress(a, long) / BlockSize(short) == a / BlockSize(short)
    ensures BroadcastAddress(a, long) / BlockSize(short) == a / BlockSize(short)
  {
    BlockNesting(short, long);
    MaskedIs(a, long);
    BlockEndsDivide(a, BlockSize(long), Pow2(long - short));
  }

  /** `ip_network(a1/p1).overlaps(ip_network(a2/p2))`, as `ipaddress` defines it. */
  predicate Overlaps(a1: Addr, p1: Prefix, a2: Addr, p2: Prefix) {
    || InNetwork(NetworkAddress(a1, p1), a2, p2)
    || InNetwork(BroadcastAddress(a1, p1), a2, p2)
    || InNetwork(NetworkAddress(a2, p2), a1, p1)
    || InNetwork(BroadcastAddress(a2, p2), a1, p1)
  }

  function Min(x: int, y: int): int {
    if x <= y then x else y
  }

  /** One network's ends fall in the other only when both agree on the shorter prefix. */
  lemma EndInOtherImpliesCommon(a: Addr, p: Prefix, b: Addr, q: Prefix)
    requires q <= p
    ensures InNetwork(NetworkAddress(a, p), b, q) <==> a / BlockSize(q) == b / BlockSize(q)
    ensures InNetwork(BroadcastAddress(a, p), b, q) <==> a / BlockSize(q) == b / BlockSize(q)
  {
    EndsDivide(a, p, q);
    InNetworkIff(NetworkAddress(a, p), b, q);
    InNetworkIff(BroadcastAddress(a, p), b, q);
  }

  lemma EndInLongerImpliesCommon(a: Addr, p: Prefix, b: Addr, q: Prefix)
    requires p <= q
    ensures InNetwork(NetworkAddress(a, p), b, q) ==> a / BlockSize(p) == b / BlockSize(p)
    ensures InNetwork(BroadcastAddress(a, p), b, q) ==> a / BlockSize(p) == b / BlockSize(p)
  {
    var c := Pow2(q - p);
    BlockNesting(p, q);
    var sq := BlockSize(q);
    EndsDivide(a, p, p);
    EndsDivide(b, q, p);
    var n := NetworkAddress(a, p);
    var m := BroadcastAddress(a, p);
    InNetworkIff(n, b, q);
    InNetworkIff(m, b, q);
    DivDiv(n, sq, c);
    DivDiv(m, sq, c);
    DivDiv(b, sq, c);
  }

  /** Two CIDR blocks overlap exactly when the addresses agree on the
      first min(p1, p2) bits. */
  lemma OverlapsIff(a1: Addr, p1: Prefix, a2: Addr, p2: Prefix)
    ensures Overlaps(a1, p1, a2, p2) <==> a1 / BlockSize(Min(p1, p2)) == a2 / BlockSize(Min(p1, p2))
  {
    if p1 <= p2 {
      EndInOtherImpliesCommon(a2, p2, a1, p1);
      EndInLongerImpliesCommon(a1, p1, a2, p2);
    } else {
      EndInOtherImpliesCommon(a1, p1, a2, p2);
      EndInLongerImpliesCommon(a2, p2, a1, p1);
    }
  }

  /** Overlap does not depend on the order of the two networks. */
  lemma OverlapsSymmetric(a1: Addr, p1: Prefix, a2: Addr, p2: Prefix)
    ensures Overlaps(a1, p1, a2, p2) == Overlaps(a2, p2, a1, p1)
  {
    OverlapsIff(a1, p1, a2, p2);
    OverlapsIff(a2, p2, a1, p1);
  }

  // ---------------------------------------------------------------------
  // The addresses of a network
  // ---------------------------------------------------------------------

  /** Membership is lying between the network and broadcast addresses. */
  lemma InNetworkRange(x: Addr, a: Addr, p: Prefix)
    ensures InNetwork(x, a, p) <==> NetworkAddress(a, p) <= x <= BroadcastAddress(a, p)
  {
    var s := BlockSize(p);
    var q := a / s;
    var n := q * s;
    InNetworkIff(x, a, p);
    MaskedIs(a, p);
    assert NetworkAddress(a, p) == n && BroadcastAddress(a, p) == n + s - 1;
    if x / s == q {
      assert x == s * q + x % s;
    }
    if n <= x <= n + s - 1 {
      DivUnique(x, s, q, x - n);
    }
  }

  /** `count` consecutive addresses from `start`. */
  function Run(start: Addr, count: nat): (r: seq<Addr>)
    requires start + count <= AddressSpace
    ensures |r| == count
    ensures forall i :: 0 <= i < count ==> r[i] == start + i
  {
    seq(count, i requires 0 <= i < count => start + i)
  }

  /** `ip_network(a/p).hosts()`: every address but the network and broadcast
      addresses, except that a /31 yields both of its addresses and a /32 its
      single one. */
  function Hosts(a: Addr, p: Prefix): (hs: seq<Addr>)
    ensures forall i, j :: 0 <= i < j < |hs| ==> hs[i] < hs[j]
  {
    var n := NetworkAddress(a, p);
    var s := BlockSize(p);
    if p >= 31 then Run(n, s)
    else
      Pow2Monotone(2, 32 - p);
      assert Pow2(2) == 4;
      Run(n + 1, s - 2)
  }

  /** An address is a host of the network exactly when it lies in the network
      and, for prefixes up to 30, is neither its network nor its broadcast address. */
  lemma HostsExactly(a: Addr, p: Prefix, x: Addr)
    ensures x in Hosts(a, p) <==>
      InNetwork(x, a, p) && (p <= 30 ==> x != NetworkAddress(a, p) && x != BroadcastAddress(a, p))
  {
    InNetworkRange(x, a, p);
    var n := NetworkAddress(a, p);
    var hs := Hosts(a, p);
    if p >= 31 {
      if n <= x <= BroadcastAddress(a, p) {
        assert hs[x - n] == x;
      }
    } else {
      if n < x < BroadcastAddress(a, p) {
        assert hs[x - n - 1] == x;
      }
    }
  }

  /** How many hosts a network yields. */
  lemma HostsCount(a: Addr, p: Prefix)
    ensures |Hosts(a, p)| == if p >= 31 then BlockSize(p) else BlockSize(p) - 2
  {
  }

  /** A /30 yields its two middle addresses. */
  lemma HostsOfSlash30(a: Addr)
    ensures Hosts(a, 30) == [NetworkAddress(a, 30) + 1, NetworkAddress(a, 30) + 2]
  {
    assert BlockSize(30) == 4 by { assert Pow2(2) == 4; }
  }

  /** A /32 yields its one address. */
  lemma HostsOfSlash32(a: Addr)
    ensures Hosts(a, 32) == [a]
  {
    assert BlockSize(32) == 1;
    MaskedIs(a, 32);
  }

  // ---------------------------------------------------------------------
  // Netmasks and bit counts
  // ---------------------------------------------------------------------

  /** The number of one bits of `x`: `bin(x).count("1")` for `x >= 0`. */
  function PopCount(x: nat): nat {
    if x == 0 then 0 else x % 2 + PopCount(x / 2)
  }

  /** The netmask of prefix `p`: `p` one bits followed by `32 - p` zero bits. */
  function PrefixMask(p: Prefix): Addr {
    BlocksFillSpace(p);
    MulMonotone(1, Pow2(p), BlockSize(p));
    AddressSpace - BlockSize(p)
  }

  /** One step of the definition of PopCount, including at zero. */
  lemma PopCountStep(x: nat)
    ensures PopCount(x) == x % 2 + PopCount(x / 2)
  {
  }

  /** The `k` bits of `x` below bit `k`, one halving at a time. */
  function LowBits(x: nat, k: nat): nat {
    if k == 0 then 0 else x % 2 + 2 * LowBits(x / 2, k - 1)
  }

  /** The bits of `x` from bit `k` up, shifted down by `k`. */
  function HighBits(x: nat, k: nat): nat {
    if k == 0 then x else HighBits(x / 2, k - 1)
  }

  /** LowBits and HighBits are the remainder and the quotient by `2^k`. */
  lemma {:induction false} LowHighBits(x: nat, k: nat)
    ensures LowBits(x, k) == x % Pow2(k) && HighBits(x, k) == x / Pow2(k)
  {
    if k == 0 {
      DivUnique(x, 1, x, 0);
    } else {
      LowHighBits(x / 2, k - 1);
      var p' := Pow2(k - 1);
      DivModOf(x / 2, p');
      DivModOf(x, 2);
      HalvingStep(x, p', LowBits(x / 2, k - 1), HighBits(x / 2, k - 1));
      DivUnique(x, Pow2(k), HighBits(x, k), LowBits(x, k));
    }
  }

  /** Putting a halving back: `x = 2 * (x / 2) + x % 2` with `x / 2 = p * high + low`. */
  lemma HalvingStep(x: nat, p: nat, low: nat, high: nat)
    requires x / 2 == p * high + low && low < p
    requires x == 2 * (x / 2) + x % 2 && 0 <= x % 2 < 2
    ensures x == (2 * p) * high + (x % 2 + 2 * low) && x % 2 + 2 * low < 2 * p
  {
    assert 2 * (p * high) == (2 * p) * high;
  }

  lemma DivModOf(x: int, d: int)
    requires d > 0
    ensures x == d * (x / d) + x % d && 0 <= x % d < d
  {
  }

  /** The bit added below a number shows up as its lowest bit. */
  lemma PopCountPush(bit: nat, y: nat)
    requires bit < 2
    ensures PopCount(bit + 2 * y) == bit + PopCount(y)
  {
    var x := bit + 2 * y;
    DivUnique(x, 2, y, bit);
    PopCountStep(x);
  }

  /** The bits of `x` are those below bit `k` and those above it. */
  lemma {:induction false} PopCountSplit(x: nat, k: nat)
    ensures PopCount(x) == PopCount(LowBits(x, k)) + PopCount(HighBits(x, k))
  {
    if k > 0 {
      PopCountSplit(x / 2, k - 1);
      PopCountStep(x);
      PopCountPush(x % 2, LowBits(x / 2, k - 1));
    }
  }

  lemma {:induction false} PopCountOfOnes(p: nat)
    ensures PopCount(Pow2(p) - 1) == p
  {
    if p > 0 {
      PopCountOfOnes(p - 1);
      var m := Pow2(p) - 1;
      DivUnique(m, 2, Pow2(p - 1) - 1, 1);
    }
  }

  /** Taking one block off a space of `count` blocks leaves `count - 1` blocks. */
  lemma AllButOneBlock(count: nat, s: nat)
    requires count >= 1 && s >= 1
    ensures (s * count - s) / s == count - 1 && (s * count - s) % s == 0
  {
    assert s * count - s == s * (count - 1);
    MulNonNegative(s, count - 1);
    DivUnique(s * count - s, s, count - 1, 0);
  }

  /** The netmask of prefix `p` has `p` one bits. */
  lemma PopCountPrefixMask(p: Prefix)
    ensures PopCount(PrefixMask(p)) == p
  {
    var s := BlockSize(p);
    var count := Pow2(p);
    var m := PrefixMask(p);
    BlocksFillSpace(p);
    assert m == s * count - s;
    AllButOneBlock(count, s);
    LowHighBits(m, 32 - p);
    assert LowBits(m, 32 - p) == 0;
    assert HighBits(m, 32 - p) == count - 1;
    PopCountSplit(m, 32 - p);
    PopCountOfOnes(p);
    assert PopCount(0) == 0;
  }

  // ---------------------------------------------------------------------
  // Dotted-quad text
  // ---------------------------------------------------------------------

  /** The four bytes of an address, most significant first. */
  function Octets(a: Addr): (os: seq<nat>)
    ensures |os| == 4 && forall i :: 0 <= i < 4 ==> os[i] < 256
  {
    [a / 0x100_0000, (a / 0x1_0000) % 256, (a / 256) % 256, a % 256]
  }

  /** The address whose big-endian bytes are `os`: `int.from_bytes(os, 'big')`. */
  function FromOctets(os: seq<nat>): (a: Addr)
    requires |os| == 4 && forall i :: 0 <= i < 4 ==> os[i] < 256
  {
    os[0] * 0x100_0000 + os[1] * 0x1_0000 + os[2] * 256 + os[3]
  }

  lemma FromOctetsOfOctets(a: Addr)
    ensures FromOctets(Octets(a)) == a
  {
    var a1 := a / 256;
    var a2 := a1 / 256;
    var a3 := a2 / 256;
    DivDiv(a, 256, 256);
    DivDiv(a, 0x1_0000, 256);
    assert a2 == a / 0x1_0000;
    assert a3 == a / 0x100_0000;
    assert a == 256 * a1 + a % 256;
    assert a1 == 256 * a2 + a1 % 256;
    assert a2 == 256 * a3 + a2 % 256;
  }

  lemma OctetsOfFromOctets(os: seq<nat>)
    requires |os| == 4 && forall i :: 0 <= i < 4 ==> os[i] < 256
    ensures Octets(FromOctets(os)) == os
  {
    var x := FromOctets(os);
    var y := os[0] * 0x1_0000 + os[1] * 256 + os[2];
    var z := os[0] * 256 + os[1];
    DivUnique(x, 256, y, os[3]);
    DivUnique(y, 256, z, os[2]);
    DivUnique(z, 256, os[0], os[1]);
    DivDiv(x, 256, 256);
    DivDiv(x, 0x1_0000, 256);
  }

  /** The one bits of `x` are those of its low byte and those above it. */
  lemma PopCountLowByte(x: nat)
    ensures PopCount(x) == PopCount(x % 256) + PopCount(x / 256)
  {
    assert Pow2(8) == 256;
    LowHighBits(x, 8);
    PopCountSplit(x, 8);
  }

  /** The one bits of an address are the one bits of its four bytes. */
  lemma PopCountOctets(a: Addr)
    ensures PopCount(a) == PopCount(Octets(a)[0]) + PopCount(Octets(a)[1]) + PopCount(Octets(a)[2]) + PopCount(Octets(a)[3])
  {
    var a1 := a / 256;
    var a2 := a1 / 256;
    var a3 := a2 / 256;
    PopCountLowByte(a);
    PopCountLowByte(a1);
    PopCountLowByte(a2);
    DivDiv(a, 256, 256);
    DivDiv(a, 0x1_0000, 256);
    assert a3 < 256;
    assert Octets(a) == [a3, a2 % 256, a1 % 256, a % 256];
  }

  /** `str(IPv4Address(a))`: the four bytes in decimal joined by dots. */
  function FormatAddr(a: Addr): string {
    Text.Join(AddrFields(a), ".")
  }

  /** The four decimal fields of an address's text. */
  function AddrFields(a: Addr): (fields: seq<string>)
    ensures |fields| == 4
    ensures forall i :: 0 <= i < 4 ==> fields[i] == Decimal.NatToString(Octets(a)[i])
    ensures forall i :: 0 <= i < 4 ==> Decimal.AllDigits(fields[i]) && '.' !in fields[i]
  {
    var os := Octets(a);
    [Decimal.NatToString(os[0]), Decimal.NatToString(os[1]),
     Decimal.NatToString(os[2]), Decimal.NatToString(os[3])]
  }

  /** One dotted-quad field, as `ipaddress` reads it: one to three ASCII digits,
      no leading zero unless the field is `0`, at most 255. */
  function ParseOctet(t: string): (r: Option<nat>)
    ensures r.Some? ==> r.value < 256
  {
    if t == [] || !Decimal.AllDigits(t) || |t| > 3 then None
    else if t != "0" && t[0] == '0' then None
    else
      var v := Decimal.Value(t);
      if v > 255 then None else Some(v)
  }

  /** `IPv4Address(s)`: exactly four dot-separated fields. */
  function ParseAddr(s: string): (r: Option<Addr>)
  {
    var fields := Text.Split(s, '.');
    if |fields| != 4 then None
    else
      match (ParseOctet(fields[0]), ParseOctet(fields[1]), ParseOctet(fields[2]), ParseOctet(fields[3]))
      case (Some(o0), Some(o1), Some(o2), Some(o3)) => Some(FromOctets([o0, o1, o2, o3]))
      case _ => None
  }

  lemma NatToStringShort(n: nat)
    requires n < 1000
    ensures |Decimal.NatToString(n)| <= 3
  {
    if n >= 10 {
      NatToStringShort(n / 10);
    }
  }

  lemma ParseOctetOfNatToString(o: nat)
    requires o < 256
    ensures ParseOctet(Decimal.NatToString(o)) == Some(o)
  {
    var t := Decimal.NatToString(o);
    NatToStringShort(o);
    Decimal.ValueOfNatToString(o);
    if |t| == 1 && t[0] == '0' {
      assert t == "0";
    }
  }

  /** Reading back the text of an address gives the address. */
  lemma ParseAddrOfFormatAddr(a: Addr)
    ensures ParseAddr(FormatAddr(a)) == Some(a)
  {
    var os := Octets(a);
    var fields := AddrFields(a);
    Text.SplitJoin(fields, '.');
    ParseOctetOfNatToString(os[0]);
    ParseOctetOfNatToString(os[1]);
    ParseOctetOfNatToString(os[2]);
    ParseOctetOfNatToString(os[3]);
    FromOctetsOfOctets(a);
  }

  /** `ipaddress` accepts only the canonical text: the address it reads
      prints back as the very string it was read from. */
  lemma FormatAddrOfParseAddr(s: string, a: Addr)
    requires ParseAddr(s) == Some(a)
    ensures FormatAddr(a) == s
  {
    var fields := Text.Split(s, '.');
    var os := seq(4, i requires 0 <= i < 4 => ParseOctet(fields[i]).value);
    forall i | 0 <= i < 4
      ensures Decimal.NatToString(os[i]) == fields[i]
    {
      Decimal.NatToStringOfValue(fields[i]);
    }
    assert a == FromOctets(os);
    OctetsOfFromOctets(os);
    assert [Decimal.NatToString(os[0]), Decimal.NatToString(os[1]),
            Decimal.NatToString(os[2]), Decimal.NatToString(os[3])] == fields;
    Text.JoinSplit(s, '.');
  }

  /** Text that reads as an address holds no `/`. */
  lemma ParsedAddrHasNoSlash(s: string)
    requires ParseAddr(s).Some?
    ensures '/' !in s
  {
    if '/' in s {
      Text.SplitKeepsChars(s, '.', '/');
      var fields := Text.Split(s, '.');
      var i :| 0 <= i < |fields| && '/' in fields[i];
      assert false;
    }
  }

  // ---------------------------------------------------------------------
  // Netmask in dotted-quad form to prefix length
  // ---------------------------------------------------------------------

  function Abs(v: int): nat {
    if v < 0 then -v else v
  }

  /** `int(f)` for each dot-separated field, `None` where it raises. */
  function ParsedFields(fields: seq<string>): (ps: seq<Option<int>>)
    ensures |ps| == |fields|
    ensures forall i :: 0 <= i < |fields| ==> ps[i] == Decimal.ParseInt(fields[i])
  {
    seq(|fields|, i requires 0 <= i < |fields| => Decimal.ParseInt(fields[i]))
  }

  /** The one bits of the parsed fields summed; `None` if any field failed. */
  function SumOfOnes(ps: seq<Option<int>>): (r: Option<nat>)
    ensures r.Some? <==> forall i :: 0 <= i < |ps| ==> ps[i].Some?
  {
    if ps == [] then Some(0)
    else if ps[0].Some? && SumOfOnes(ps[1..]).Some? then Some(PopCount(Abs(ps[0].value)) + SumOfOnes(ps[1..]).value)
    else None
  }

  /** Every dot-separated field is one `int()` accepts. */
  predicate AllFieldsParse(fields: seq<string>) {
    forall i :: 0 <= i < |fields| ==> Decimal.ParseInt(fields[i]).Some?
  }

  /** `netmask_to_cidr`: the number of one bits in the mask's fields; `None`
      stands for the `ValueError` of a field `int()` rejects. */
  function NetmaskToCidr(netmask: string): (r: Option<nat>)
    ensures r.Some? <==> AllFieldsParse(Text.Split(netmask, '.'))
  {
    var fields := Text.Split(netmask, '.');
    var ps := ParsedFields(fields);
    SumOfOnes(ps)
  }

  /** The count is the number of one bits of the whole address, contiguous or not. */
  lemma NetmaskToCidrCountsBits(a: Addr)
    ensures NetmaskToCidr(FormatAddr(a)) == Some(PopCount(a))
  {
    var os := Octets(a);
    var fields := AddrFields(a);
    assert Text.Split(FormatAddr(a), '.') == fields by {
      Text.SplitJoin(fields, '.');
    }
    var ps := ParsedFields(fields);
    assert SumOfOnes(ps) == Some(SumPopCount(os)) by {
      AddrFieldsParse(a);
      SumOfOnesOfParsed(ps, os);
    }
    assert SumPopCount(os) == PopCount(a) by {
      SumPopCountOfFour(os);
      PopCountOctets(a);
    }
  }

  function SumPopCount(vs: seq<nat>): nat {
    if vs == [] then 0 else PopCount(vs[0]) + SumPopCount(vs[1..])
  }

  lemma {:induction false} SumOfOnesOfParsed(ps: seq<Option<int>>, vs: seq<nat>)
    requires |ps| == |vs|
    requires forall i :: 0 <= i < |vs| ==> ps[i] == Some(vs[i] as int)
    ensures SumOfOnes(ps) == Some(SumPopCount(vs))
  {
    if ps != [] {
      SumOfOnesOfParsed(ps[1..], vs[1..]);
      assert Abs(ps[0].value) == vs[0];
    }
  }

  lemma SumPopCountOfFour(vs: seq<nat>)
    requires |vs| == 4
    ensures SumPopCount(vs) == PopCount(vs[0]) + PopCount(vs[1]) + PopCount(vs[2]) + PopCount(vs[3])
  {
    assert SumPopCount(vs[3..]) == PopCount(vs[3]) by { assert vs[3..][1..] == []; }
    assert SumPopCount(vs[2..]) == PopCount(vs[2]) + SumPopCount(vs[3..]) by { assert vs[2..][1..] == vs[3..]; }
    assert SumPopCount(vs[1..]) == PopCount(vs[1]) + SumPopCount(vs[2..]) by { assert vs[1..][1..] == vs[2..]; }
  }

  lemma AddrFieldsParse(a: Addr)
    ensures forall i :: 0 <= i < 4 ==> Decimal.ParseInt(AddrFields(a)[i]) == Some(Octets(a)[i] as int)
  {
    forall i | 0 <= i < 4
      ensures Decimal.ParseInt(AddrFields(a)[i]) == Some(Octets(a)[i] as int)
    {
      Decimal.ParseIntOfNatToString(Octets(a)[i]);
    }
  }

  /** The dotted netmask of prefix `p` converts back to `p`. */
  lemma NetmaskToCidrOfPrefixMask(p: Prefix)
    ensures NetmaskToCidr(FormatAddr(PrefixMask(p))) == Some(p)
  {
    NetmaskToCidrCountsBits(PrefixMask(p));
    PopCountPrefixMask(p);
  }

  // ---------------------------------------------------------------------
  // Network text: `IPv4Network(s, strict=False)`
  // ---------------------------------------------------------------------

  /** A network as `IPv4Network` holds it: host bits already cleared. */
  datatype Network = Network(address: Addr, prefix: Prefix)

  /** A prefix length written as ASCII digits, at most 32. */
  function ParsePrefixLength(t: string): (r: Option<Prefix>)
    ensures r.Some? ==> t != [] && Decimal.AllDigits(t) && Decimal.Value(t) == r.value
  {
    if t == [] || !Decimal.AllDigits(t) then None
    else
      var v := Decimal.Value(t);
      if v <= 32 then Some(v) else None
  }

  /** The prefix `q >= from` whose netmask is `x`, if any. */
  function FindPrefix(x: Addr, from: nat): (r: Option<Prefix>)
    requires from <= 33
    ensures r.Some? ==> PrefixMask(r.value) == x
    ensures r.None? ==> forall q: Prefix :: from <= q ==> PrefixMask(q) != x
    decreases 33 - from
  {
    if from == 33 then None
    else if PrefixMask(from) == x then Some(from)
    else FindPrefix(x, from + 1)
  }

  /** A netmask `/m` in any of the forms `IPv4Network` takes: a prefix length,
      a dotted netmask, or a dotted hostmask. */
  function ParseNetmask(t: string): (r: Option<Prefix>)
  {
    match ParsePrefixLength(t)
    case Some(p) => Some(p)
    case None =>
      match ParseAddr(t)
      case None => None
      case Some(x) =>
        match FindPrefix(x, 0)
        case Some(p) => Some(p)
        case None => FindPrefix(AllOnes - x, 0)
  }

  /** `IPv4Network(s, strict=False)`; `None` stands for the `ValueError`. */
  function ParseNetwork(s: string): (r: Option<Network>)
    ensures r.Some? ==> r.value.address == Masked(r.value.address, r.value.prefix)
  {
    var pieces := Text.Split(s, '/');
    if |pieces| > 2 then None
    else
      match ParseAddr(pieces[0])
      case None => None
      case Some(a) =>
        if |pieces| == 1 then
          MaskedIs(a, 32);
          Some(Network(a, 32))
        else
          match ParseNetmask(pieces[1])
          case None => None
          case Some(p) => MaskedTwice(a, p); Some(Network(Masked(a, p), p))
  }

  lemma MaskedTwice(a: Addr, p: Prefix)
    ensures Masked(Masked(a, p), p) == Masked(a, p)
  {
    var s := BlockSize(p);
    MaskedIs(a, p);
    MaskedIs(Masked(a, p), p);
    MulDivCancel(a / s, s);
  }

  /** The prefix forms of a netmask: exactly the masks of the form `1...10...0`
      or `0...01...1` are accepted besides a plain length. */
  lemma ParseNetmaskOfMasks(p: Prefix)
    ensures ParseNetmask(FormatAddr(PrefixMask(p))) == Some(p)
  {
    var t := FormatAddr(PrefixMask(p));
    ParseAddrOfFormatAddr(PrefixMask(p));
    NotAllDigits(t);
    var r := FindPrefix(PrefixMask(p), 0);
    assert r.Some?;
    PrefixMaskInjective(r.value, p);
  }

  lemma NotAllDigits(t: string)
    requires ParseAddr(t).Some?
    ensures !Decimal.AllDigits(t)
  {
    if Decimal.AllDigits(t) {
      Text.SplitNoSep(t, '.');
      assert false;
    }
  }

  /** Longer prefixes have strictly larger netmasks. */
  lemma PrefixMaskIncreasing(p: Prefix, q: Prefix)
    requires p < q
    ensures PrefixMask(p) < PrefixMask(q)
  {
    Pow2Monotone(32 - q + 1, 32 - p);
    assert Pow2(32 - q + 1) == 2 * Pow2(32 - q);
  }

  lemma PrefixMaskInjective(p: Prefix, q: Prefix)
    requires PrefixMask(p) == PrefixMask(q)
    ensures p == q
  {
    if p < q {
      PrefixMaskIncreasing(p, q);
    } else if q < p {
      PrefixMaskIncreasing(q, p);
    }
  }

  /** A CIDR written `address/length` reads as that network with its host bits cleared. */
  lemma ParseNetworkOfCidr(s: string, a: Addr, p: Prefix)
    requires ParseAddr(s) == Some(a)
    ensures ParseNetwork(s + "/" + Decimal.NatToString(p)) == Some(Network(Masked(a, p), p))
  {
    var t := Decimal.NatToString(p);
    ParsedAddrHasNoSlash(s);
    Text.SplitNoSep(t, '/');
    Text.SplitAfterField(s, '/', t);
    assert s + "/" + t == s + ([ '/' ] + t);
    Decimal.ValueOfNatToString(p);
  }

  /** A bare address reads as the /32 network of that address. */
  lemma ParseNetworkOfAddr(s: string, a: Addr)
    requires ParseAddr(s) == Some(a)
    ensures ParseNetwork(s) == Some(Network(a, 32))
  {
    ParsedAddrHasNoSlash(s);
    Text.SplitNoSep(s, '/');
  }
}
