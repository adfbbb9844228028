/** Address patterns of traffic rules: exact addresses, bare IPs and CIDR blocks, matched against
    peers whose IPv4-mapped IPv6 addresses count as IPv4. */
module Addresses {
  import opened Words

  const U128_SPAN: nat := 0x1_0000_0000_0000_0000_0000_0000_0000_0000

  type u128 = x: int | 0 <= x < U128_SPAN

  datatype Ip = V4(v4: u32) | V6(v6: u128)

  datatype SocketAddr = SocketAddr(ip: Ip, port: nat)

  datatype Pattern = Any | Exact(addr: SocketAddr) | IpOnly(ip: Ip) | Cidr(network: Ip, prefixLen: nat)

  function Width(ip: Ip): nat { if ip.V4? then 32 else 128 }

  function Bits(ip: Ip): nat { if ip.V4? then ip.v4 else ip.v6 }

  /** The patterns the parser produces. */
  predicate Parsed(p: Pattern) { p.Cidr? ==> p.prefixLen <= Width(p.network) }

  /** Section 2.5.5.2 of RFC 4291: eighty zero bits, sixteen one bits, an IPv4 address. */
  const MAPPED_PREFIX: nat := 0xffff

  function Mapped(v4: u32): Ip { V6(MAPPED_PREFIX * U32_SPAN + v4) }

  /** `to_canonical`. */
  function Canonical(ip: Ip): Ip {
    if ip.V6? && ip.v6 / U32_SPAN == MAPPED_PREFIX then V4(ip.v6 % U32_SPAN) else ip
  }

  /** `MAX.checked_shl(n).unwrap_or(0)` for a word of `w` bits. */
  function ShiftedMask(w: nat, n: nat): nat {
    if n >= w then 0 else (Pow2(w) - 1) * Pow2(n) % Pow2(w)
  }

  predicate CidrContains(network: Ip, prefixLen: nat, addr: Ip)
    requires prefixLen <= Width(network)
  {
    if network.V4? != addr.V4? then false
    else if prefixLen == 0 then true
    else
      var mask := ShiftedMask(Width(network), Width(network) - prefixLen);
      And(Bits(network), mask) == And(Bits(addr), mask)
  }

  predicate Matches(p: Pattern, addr: SocketAddr)
    requires Parsed(p)
  {
    var ip := Canonical(addr.ip);
    match p
    case Any => true
    case Exact(sa) => ip == Canonical(sa.ip) && addr.port == sa.port
    case IpOnly(q) => ip == Canonical(q)
    case Cidr(network, prefixLen) => CidrContains(network, prefixLen, ip)
  }

  // ── What a CIDR block contains ──

  function Bit(x: nat, i: nat): nat { x / Pow2(i) % 2 }

  /** The first `p` bits of two `w`-bit words agree. */
  predicate SameLeadingBits(w: nat, p: nat, a: nat, b: nat)
    requires p <= w
  {
    forall i :: w - p <= i < w ==> Bit(a, i) == Bit(b, i)
  }

  lemma Spans()
    ensures Pow2(32) == U32_SPAN && Pow2(128) == U128_SPAN
  {
    hide Pow2;
    Pow2Values();
    Pow2Add(64, 64);
  }

  lemma BitsBelow(ip: Ip)
    ensures Bits(ip) < Pow2(Width(ip))
  {
    hide Pow2;
    Spans();
  }

  /** Shifting in `n` zeros leaves ones above them. */
  lemma MaskIs(w: nat, n: nat)
    requires n < w
    ensures Pow2(n) <= Pow2(w) && ShiftedMask(w, n) == Pow2(w) - Pow2(n)
  {
    hide Pow2;
    Pow2Monotone(n, w);
    var P, N := Pow2(w), Pow2(n);
    assert (P - 1) * N == (N - 1) * P + (P - N);
    Pow2Positive(n);
    DivModUnique((P - 1) * N, P, N - 1, P - N);
  }

  lemma Pow2Positive(n: nat)
    ensures Pow2(n) >= 1
  {
  }

  lemma Pow2Next(n: nat)
    ensures Pow2(n + 1) == 2 * Pow2(n)
  {
  }

  /** Dropping one bit fewer adds that bit at the end. */
  lemma ShiftNext(x: nat, k: nat)
    ensures x / Pow2(k) == 2 * (x / Pow2(k + 1)) + Bit(x, k)
  {
    hide Pow2;
    Pow2Positive(k);
    Pow2Next(k);
    DivTwice(x, Pow2(k));
  }

  lemma DivTwice(x: nat, n: nat)
    requires n > 0
    ensures x / n / 2 == x / (2 * n)
  {
    var q, r := x / n, x % n;
    var h, b := q / 2, q % 2;
    assert q * n == h * (2 * n) + b * n by { assert (2 * h + b) * n == 2 * h * n + b * n; }
    assert b * n == 0 || b * n == n;
    DivModUnique(x, 2 * n, h, b * n + r);
  }

  /** Equal shifted words are words with equal leading bits. */
  lemma {:induction false} ShiftsEqual(w: nat, p: nat, a: nat, b: nat)
    requires p <= w && a < Pow2(w) && b < Pow2(w)
    ensures a / Pow2(w - p) == b / Pow2(w - p) <==> SameLeadingBits(w, p, a, b)
    decreases p
  {
    hide Pow2, Bit;
    Pow2Positive(w);
    if p == 0 {
      DivModUnique(a, Pow2(w), 0, a);
      DivModUnique(b, Pow2(w), 0, b);
    } else {
      ShiftsEqual(w, p - 1, a, b);
      ShiftNext(a, w - p);
      ShiftNext(b, w - p);
      OneBit(a, w - p);
      OneBit(b, w - p);
    }
  }

  lemma OneBit(x: nat, i: nat)
    ensures 0 <= Bit(x, i) < 2
  {
  }

  /** Clearing the low bits keeps exactly the shifted word. */
  lemma ClearedEqual(a: nat, b: nat, n: nat)
    requires n > 0
    ensures a - a % n == b - b % n <==> a / n == b / n
  {
    assert a - a % n == n * (a / n) && b - b % n == n * (b / n);
    if n * (a / n) == n * (b / n) { MulCancel(n, a / n, b / n); }
  }

  lemma MulCancel(n: nat, x: nat, y: nat)
    requires n > 0 && n * x == n * y
    ensures x == y
  {
    MulAtLeast(x - y, n);
    assert (x - y) * n == n * x - n * y;
  }

  /** Equal masked words are words with equal leading bits. */
  lemma MaskedEqual(w: nat, p: nat, a: nat, b: nat)
    requires 0 < p <= w && a < Pow2(w) && b < Pow2(w)
    ensures And(a, ShiftedMask(w, w - p)) == And(b, ShiftedMask(w, w - p)) <==> SameLeadingBits(w, p, a, b)
  {
    hide Pow2, And, Bit, ShiftedMask;
    MaskIs(w, w - p);
    AndHighMask(a, w - p, w);
    AndHighMask(b, w - p, w);
    Pow2Positive(w - p);
    ClearedEqual(a, b, Pow2(w - p));
    ShiftsEqual(w, p, a, b);
  }

  /** A block contains exactly the addresses of its family that share its prefix (section 3.1 of
      RFC 4632). */
  lemma CidrContainsExactly(network: Ip, prefixLen: nat, addr: Ip)
    requires prefixLen <= Width(network)
    ensures CidrContains(network, prefixLen, addr) <==>
              network.V4? == addr.V4? && SameLeadingBits(Width(network), prefixLen, Bits(network), Bits(addr))
  {
    hide Pow2, And, Bit, ShiftedMask;
    if network.V4? == addr.V4? && prefixLen > 0 {
      BitsBelow(network);
      BitsBelow(addr);
      MaskedEqual(Width(network), prefixLen, Bits(network), Bits(addr));
    }
  }

  // ── What a pattern covers ──

  /** A mapped address: ones from bit 32 up to bit 48, and the IPv4 address below them. */
  lemma MappedIs(v4: u32)
    ensures Mapped(v4).v6 == Pow2(48) - Pow2(32) + v4
  {
    assert Pow2(16) == 0x1_0000 by { Pow2Small(); hide Pow2; Pow2Add(4, 4); Pow2Add(8, 8); }
    hide Pow2;
    Spans();
    Pow2Add(16, 32);
  }

  /** An address that stands for an IPv4 address: that address, or its mapped form. */
  predicate StandsFor(ip: Ip, v4: u32) { ip == V4(v4) || ip == Mapped(v4) }

  /** The same address, or two forms of one IPv4 address. */
  ghost predicate SameHost(a: Ip, b: Ip) { a == b || exists v4: u32 :: StandsFor(a, v4) && StandsFor(b, v4) }

  /** The addresses a pattern is for. A block of IPv4 addresses covers them in either form, and a block
      of IPv6 addresses none that stands for an IPv4 address. */
  ghost predicate Covers(p: Pattern, addr: SocketAddr)
    requires Parsed(p)
  {
    match p
    case Any => true
    case Exact(sa) => SameHost(sa.ip, addr.ip) && sa.port == addr.port
    case IpOnly(ip) => SameHost(ip, addr.ip)
    case Cidr(V4(net), n) => exists v4: u32 :: StandsFor(addr.ip, v4) && SameLeadingBits(32, n, net, v4)
    case Cidr(V6(net), n) =>
      && addr.ip.V6? && (forall v4: u32 :: !StandsFor(addr.ip, v4))
      && SameLeadingBits(128, n, net, addr.ip.v6)
  }

  /** The canonical form is the IPv4 address stood for, if there is one. */
  lemma CanonicalIs(ip: Ip)
    ensures forall v4: u32 :: StandsFor(ip, v4) <==> Canonical(ip) == V4(v4)
    ensures Canonical(ip).V6? ==> Canonical(ip) == ip
  {
    forall v4: u32 ensures StandsFor(ip, v4) <==> Canonical(ip) == V4(v4) {
      DivModUnique(MAPPED_PREFIX * U32_SPAN + v4, U32_SPAN, MAPPED_PREFIX, v4);
      if ip.V6? { assert ip.v6 == ip.v6 / U32_SPAN * U32_SPAN + ip.v6 % U32_SPAN; }
    }
  }

  lemma SameHostIs(a: Ip, b: Ip)
    ensures SameHost(a, b) <==> Canonical(a) == Canonical(b)
  {
    hide Canonical, StandsFor;
    CanonicalIs(a);
    CanonicalIs(b);
    if Canonical(a) == Canonical(b) && Canonical(a).V4? {
      assert StandsFor(a, Canonical(a).v4) && StandsFor(b, Canonical(a).v4);
    }
  }

  /** A pattern matches exactly the addresses it covers. */
  lemma MatchesExactly(p: Pattern, addr: SocketAddr)
    requires Parsed(p)
    ensures Matches(p, addr) <==> Covers(p, addr)
  {
    hide Canonical, StandsFor, CidrContains, SameLeadingBits, SameHost;
    match p
    case Any =>
    case Exact(sa) => SameHostIs(sa.ip, addr.ip);
    case IpOnly(ip) => SameHostIs(ip, addr.ip);
    case Cidr(network, n) =>
      var ip := Canonical(addr.ip);
      CanonicalIs(addr.ip);
      CidrContainsExactly(network, n, ip);
      if ip.V4? { assert StandsFor(addr.ip, ip.v4); }
  }

  /** An IPv4-mapped peer matches every pattern exactly as the IPv4 peer it stands for. */
  lemma MappedMatchesAlike(p: Pattern, v4: u32, port: nat)
    requires Parsed(p)
    ensures Matches(p, SocketAddr(Mapped(v4), port)) == Matches(p, SocketAddr(V4(v4), port))
  {
    DivModUnique(MAPPED_PREFIX * U32_SPAN + v4, U32_SPAN, MAPPED_PREFIX, v4);
    assert Canonical(Mapped(v4)) == V4(v4);
  }

  /** So does a pattern written in mapped form, except that a block over a mapped network contains
      no peer at all that is matched as IPv4. */
  lemma MappedPatterns(v4: u32, addr: SocketAddr, port: nat)
    ensures Matches(IpOnly(Mapped(v4)), addr) == Matches(IpOnly(V4(v4)), addr)
    ensures Matches(Exact(SocketAddr(Mapped(v4), port)), addr) == Matches(Exact(SocketAddr(V4(v4), port)), addr)
    ensures forall n :: 0 <= n <= 128 && Canonical(addr.ip).V4? ==> !Matches(Cidr(Mapped(v4), n), addr)
  {
    DivModUnique(MAPPED_PREFIX * U32_SPAN + v4, U32_SPAN, MAPPED_PREFIX, v4);
    assert Canonical(Mapped(v4)) == V4(v4);
  }
}
