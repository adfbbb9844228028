/** Machine words: fixed-width integers, wrap-around arithmetic, bitwise AND and
    little-endian encoding, written out over unbounded integers. */
module Words {

  const U32_SPAN: nat := 0x1_0000_0000
  const U64_SPAN: nat := 0x1_0000_0000_0000_0000

  type byte = b: int | 0 <= b < 256
  type u32 = x: int | 0 <= x < U32_SPAN
  type u64 = x: int | 0 <= x < U64_SPAN

  /** `wrapping_add` on `u64`. */
  function WrappingAdd(a: u64, b: nat): u64 { (a + b) % U64_SPAN }

  /** `wrapping_sub` on `u64`. */
  function WrappingSub(a: u64, b: u64): u64 { (a - b) % U64_SPAN }

  /** The `as i64` reinterpretation of a `u64`. */
  function AsI64(x: u64): int { if x < 0x8000_0000_0000_0000 then x else x - U64_SPAN }

  function Min(a: int, b: int): int { if a <= b then a else b }

  function Max(a: int, b: int): int { if a >= b then a else b }

  // ── Powers of two ──

  function Pow2(k: nat): (r: nat)
    ensures r >= 1
  {
    if k == 0 then 1 else 2 * Pow2(k - 1)
  }

  ghost predicate IsPow2(n: nat) { exists k: nat :: Pow2(k) == n }

  lemma {:induction false} Pow2Add(j: nat, k: nat)
    ensures Pow2(j + k) == Pow2(j) * Pow2(k)
  {
    if j > 0 {
      Pow2Add(j - 1, k);
      assert Pow2(j + k) == 2 * Pow2(j - 1 + k);
      assert 2 * (Pow2(j - 1) * Pow2(k)) == (2 * Pow2(j - 1)) * Pow2(k);
    }
  }

  lemma Pow2Values()
    ensures Pow2(6) == 64 && Pow2(32) == U32_SPAN && Pow2(64) == U64_SPAN
  {
    hide Pow2;
    assert Pow2(2) == 4 && Pow2(4) == 16 by { Pow2Small(); }
    Pow2Add(2, 4);
    Pow2Add(4, 4);
    Pow2Add(8, 8);
    Pow2Add(16, 16);
    Pow2Add(32, 32);
  }

  lemma Pow2Small()
    ensures Pow2(2) == 4 && Pow2(4) == 16
  {
  }

  lemma {:induction false} Pow2Monotone(j: nat, k: nat)
    requires j <= k
    ensures Pow2(j) <= Pow2(k)
  {
    if j < k { Pow2Monotone(j, k - 1); }
  }

  /** A power of two no wider than a word divides the word's span. */
  lemma Pow2Divides(n: nat)
    requires IsPow2(n) && n <= U64_SPAN
    ensures n >= 1 && U64_SPAN % n == 0
  {
    var k: nat :| Pow2(k) == n;
    Pow2Values();
    assert k <= 64 by {
      if k > 64 { Pow2Monotone(65, k); }
    }
    Pow2Add(64 - k, k);
    MultipleMod(Pow2(64 - k), n);
  }

  lemma MultipleMod(q: nat, n: nat)
    requires n > 0
    ensures (q * n) % n == 0
  {
    DivModUnique(q * n, n, q, 0);
  }

  // ── Division facts ──

  lemma MulAtLeast(a: int, n: int)
    requires n > 0
    ensures a >= 1 ==> a * n >= n
    ensures a <= -1 ==> a * n <= -n
    ensures a == 0 ==> a * n == 0
  {
    if a >= 1 { assert (a - 1) * n >= 0; }
    if a <= -1 { assert (a + 1) * n <= 0; }
  }

  /** Quotient and remainder are unique. */
  lemma DivModUnique(x: int, n: int, q: int, r: int)
    requires n > 0 && x == q * n + r && 0 <= r < n
    ensures x / n == q && x % n == r
  {
    var d := q - x / n;
    MulAtLeast(d, n);
    assert d * n == q * n - (x / n) * n;
  }

  /** Reducing modulo a multiple of `n` first does not change the value modulo `n`. */
  lemma ModOfMod(x: nat, m: nat, n: nat)
    requires m > 0 && n > 0 && m % n == 0
    ensures (x % m) % n == x % n
  {
    var a, b := x / m, m / n;
    var y := x % m;
    assert x == m * a + y && m == n * b;
    var c, r := y / n, y % n;
    assert y == n * c + r;
    calc {
      x;
      (n * b) * a + n * c + r;
      { assert (n * b) * a == n * (b * a); }
      n * (b * a) + n * c + r;
      { assert n * (b * a) + n * c == (b * a + c) * n; }
      (b * a + c) * n + r;
    }
    DivModUnique(x, n, b * a + c, r);
  }

  /** `(x % n + k) % n == (x + k) % n`. */
  lemma ModAdd(x: nat, k: nat, n: nat)
    requires n > 0
    ensures (x % n + k) % n == (x + k) % n
  {
    var y := x % n + k;
    var c, r := y / n, y % n;
    var a := x / n;
    assert x == n * a + x % n && y == n * c + r;
    assert x + k == n * a + y;
    assert n * a + n * c == (a + c) * n;
    DivModUnique(x + k, n, a + c, r);
  }

  /** Two values strictly less than one period apart differ modulo the period. */
  lemma ModDistinct(p: nat, q: nat, n: nat)
    requires p < q < p + n
    ensures p % n != q % n
  {
    var d := q / n - p / n;
    MulAtLeast(d, n);
    assert d * n == (q / n) * n - (p / n) * n;
  }

  lemma ModPeriod(p: nat, n: nat)
    requires n > 0
    ensures (p + n) % n == p % n
  {
    assert p == n * (p / n) + p % n;
    assert n * (p / n) + n == (p / n + 1) * n;
    DivModUnique(p + n, n, p / n + 1, p % n);
  }

  // ── Bitwise AND ──

  /** Bitwise AND of two non-negative integers. */
  function And(x: nat, y: nat): nat
    decreases x
  {
    if x == 0 || y == 0 then 0
    else 2 * And(x / 2, y / 2) + (if x % 2 == 1 && y % 2 == 1 then 1 else 0)
  }

  /** The low `k` bits of `x`. */
  function LowBits(x: nat, k: nat): nat {
    if k == 0 then 0 else 2 * LowBits(x / 2, k - 1) + x % 2
  }

  lemma {:induction false} LowBitsMod(x: nat, k: nat)
    ensures LowBits(x, k) == x % Pow2(k)
  {
    if k > 0 {
      LowBitsMod(x / 2, k - 1);
      ModTwice(x, Pow2(k - 1));
    }
  }

  lemma ModTwice(x: nat, h: nat)
    requires h > 0
    ensures x % (2 * h) == 2 * (x / 2 % h) + x % 2
  {
    var c, r := x / 2 / h, x / 2 % h;
    assert 2 * (h * c) == c * (2 * h);
    DivModUnique(x, 2 * h, c, 2 * r + x % 2);
  }

  lemma {:induction false} AndLowBits(x: nat, k: nat)
    ensures And(x, Pow2(k) - 1) == LowBits(x, k)
  {
    if k > 0 { AndLowBits(x / 2, k - 1); }
    if x == 0 { LowBitsOfSmall(0, k); }
  }

  /** A value below `2^k` is its own low `k` bits. */
  lemma {:induction false} LowBitsOfSmall(x: nat, k: nat)
    requires x < Pow2(k)
    ensures LowBits(x, k) == x
  {
    if k > 0 { LowBitsOfSmall(x / 2, k - 1); }
  }

  lemma {:induction false} AndHighBits(x: nat, k: nat, w: nat)
    requires k <= w && x < Pow2(w)
    ensures Pow2(k) <= Pow2(w)
    ensures And(x, Pow2(w) - Pow2(k)) == x - LowBits(x, k)
  {
    hide And, LowBits, Pow2;
    Pow2Monotone(k, w);
    if k == 0 {
      Pow2Unfold(0);
      LowBitsUnfold(x, 0);
      AndLowBits(x, w);
      LowBitsOfSmall(x, w);
    } else {
      Pow2Unfold(k);
      Pow2Unfold(w);
      LowBitsUnfold(x, k);
      AndHighBits(x / 2, k - 1, w - 1);
      AndEven(x, Pow2(w - 1) - Pow2(k - 1));
    }
  }

  lemma Pow2Unfold(k: nat)
    ensures Pow2(k) == if k == 0 then 1 else 2 * Pow2(k - 1)
  {
  }

  lemma LowBitsUnfold(x: nat, k: nat)
    ensures LowBits(x, k) == if k == 0 then 0 else x % 2 + 2 * LowBits(x / 2, k - 1)
  {
  }

  lemma AndEven(x: nat, e: nat)
    ensures And(x, 2 * e) == 2 * And(x / 2, e)
  {
    assert (2 * e) / 2 == e && (2 * e) % 2 == 0;
  }

  /** ANDing with `2^k - 1` keeps the low `k` bits. */
  lemma AndLowMask(x: nat, k: nat)
    ensures And(x, Pow2(k) - 1) == x % Pow2(k)
  {
    AndLowBits(x, k);
    LowBitsMod(x, k);
  }

  /** ANDing a `w`-bit value with `2^w - 2^k` clears the low `k` bits. */
  lemma AndHighMask(x: nat, k: nat, w: nat)
    requires k <= w && x < Pow2(w)
    ensures Pow2(k) <= Pow2(w)
    ensures And(x, Pow2(w) - Pow2(k)) == x - x % Pow2(k)
  {
    AndHighBits(x, k, w);
    LowBitsMod(x, k);
  }

  // ── Little-endian words ──

  /** `u32::to_le_bytes`. */
  function ToLe32(x: u32): (s: seq<byte>)
    ensures |s| == 4
  {
    [x % 256, (x / 0x100) % 256, (x / 0x1_0000) % 256, x / 0x100_0000]
  }

  /** `u32::from_le_bytes`. */
  function FromLe32(s: seq<byte>): u32
    requires |s| == 4
  {
    (s[0] as int) + 0x100 * (s[1] as int) + 0x1_0000 * (s[2] as int) + 0x100_0000 * (s[3] as int)
  }

  /** The first byte is the least significant. */
  lemma Le32Value(x: u32)
    ensures var s := ToLe32(x); s[0] as int + 0x100 * s[1] as int + 0x1_0000 * s[2] as int + 0x100_0000 * s[3] as int == x
  {
  }

  lemma Le32RoundTrip(x: u32)
    ensures FromLe32(ToLe32(x)) == x
  {
    assert x % 256 + 256 * (x / 256) == x;
  }

  lemma Le32Canonical(s: seq<byte>)
    requires |s| == 4
    ensures ToLe32(FromLe32(s)) == s
  {
    var x := FromLe32(s);
    assert x / 0x100 == (s[1] as int) + 0x100 * (s[2] as int) + 0x1_0000 * (s[3] as int);
    assert x / 0x1_0000 == (s[2] as int) + 0x100 * (s[3] as int);
  }
}
