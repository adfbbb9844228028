/** Copies between byte buffers, as `copy_nonoverlapping` makes them. */
module Copies {
  import opened Words

  /** `s` with `bytes` copied over it at `off`. */
  function Splice(s: seq<byte>, off: nat, bytes: seq<byte>): (r: seq<byte>)
    requires off + |bytes| <= |s|
    ensures |r| == |s|
  {
    s[..off] + bytes + s[off + |bytes|..]
  }

  /** `s` with one byte stored. */
  function WithByte(s: seq<byte>, i: nat, b: byte): seq<byte>
    requires i < |s|
  {
    s[i := b]
  }

  /** `copy_nonoverlapping` into an array. */
  method CopyIn(dst: array<byte>, off: nat, bytes: seq<byte>)
    requires off + |bytes| <= dst.Length
    modifies dst
    ensures dst[..] == Splice(old(dst[..]), off, bytes)
  {
    forall k | 0 <= k < |bytes| { dst[off + k] := bytes[k]; }
  }

  /** Two adjacent copies are one. */
  lemma TwoSplices(s: seq<byte>, off: nat, a: seq<byte>, b: seq<byte>)
    requires off + |a| + |b| <= |s|
    ensures Splice(Splice(s, off, a), off + |a|, b) == Splice(s, off, a + b)
  {
  }

  lemma SpliceNothing(s: seq<byte>, off: nat)
    requires off <= |s|
    ensures Splice(s, off, []) == s
  {
  }

  lemma SliceOfSlice(s: seq<byte>, a: nat, b: nat, start: nat, n: nat)
    requires a + start + n <= b <= |s|
    ensures s[a..b][start..start + n] == s[a + start..a + start + n]
  {
    var x, y := s[a..b][start..start + n], s[a + start..a + start + n];
    assert forall k :: 0 <= k < n ==> x[k] == y[k];
  }

  lemma SpliceOutside(s: seq<byte>, off: nat, bytes: seq<byte>, lo: nat, hi: nat)
    requires off + |bytes| <= |s| && lo <= hi <= |s| && (hi <= off || off + |bytes| <= lo)
    ensures Splice(s, off, bytes)[lo..hi] == s[lo..hi]
  {
    var x, y := Splice(s, off, bytes)[lo..hi], s[lo..hi];
    assert forall k :: 0 <= k < hi - lo ==> x[k] == y[k];
  }

  lemma SpliceInside(s: seq<byte>, lo: nat, hi: nat, k: nat, bytes: seq<byte>)
    requires lo + k + |bytes| <= hi <= |s|
    ensures Splice(s, lo + k, bytes)[lo..hi] == Splice(s[lo..hi], k, bytes)
  {
    var x, y := Splice(s, lo + k, bytes)[lo..hi], Splice(s[lo..hi], k, bytes);
    assert forall j :: 0 <= j < hi - lo ==> x[j] == y[j];
  }

  lemma PrefixesEqual(a: seq<byte>, b: seq<byte>, s: seq<byte>)
    requires a <= s && b <= s && |a| == |b|
    ensures a == b
  {
    assert a == s[..|a|] == b;
  }

  // ── Copies into and out of a circular buffer ──

  /** `write_wrapping`: copy up to the end of the buffer, then the rest to its start. */
  function WriteWrapped(data: seq<byte>, off: nat, src: seq<byte>): (r: seq<byte>)
    requires off < |data| && |src| <= |data|
    ensures |r| == |data|
  {
    var first := Min(|src|, |data| - off);
    Splice(Splice(data, off, src[..first]), 0, src[first..])
  }

  /** `read_wrapping`: the bytes up to the end of the buffer, then the rest from its start. */
  function ReadWrapped(data: seq<byte>, off: nat, n: nat): (r: seq<byte>)
    requires off < |data| && n <= |data|
    ensures |r| == n
  {
    var first := Min(n, |data| - off);
    data[off..off + first] + data[..n - first]
  }

  /** Cell of absolute byte position `q` in a circular buffer of `cap` bytes. */
  function Cell(cap: nat, q: nat): (a: nat)
    requires cap > 0
    ensures a < cap
  {
    q % cap
  }

  lemma CellIs(cap: nat, q: nat)
    requires cap > 0
    ensures q % cap == Cell(cap, q)
    ensures q < cap ==> Cell(cap, q) == q
  {
    if q < cap { DivModUnique(q, cap, 0, q); }
  }

  lemma CellAdd(cap: nat, q: nat, k: nat)
    requires cap > 0
    ensures Cell(cap, Cell(cap, q) + k) == Cell(cap, q + k)
  {
    ModAdd(q, k, cap);
  }

  lemma CellPeriod(cap: nat, q: nat)
    requires cap > 0
    ensures Cell(cap, q + cap) == Cell(cap, q)
  {
    ModPeriod(q, cap);
  }

  /** Byte `j` of a wrapped copy lands at `(off + j) mod cap`, and nothing else changes. */
  lemma WriteWrappedAt(data: seq<byte>, off: nat, src: seq<byte>, j: nat)
    requires off < |data| && |src| <= |data| && j < |data|
    ensures WriteWrapped(data, off, src)[Cell(|data|, off + j)]
         == if j < |src| then src[j] else data[Cell(|data|, off + j)]
  {
    var cap := |data|;
    if off + j < cap { DivModUnique(off + j, cap, 0, off + j); } else { DivModUnique(off + j, cap, 1, off + j - cap); }
  }

  lemma ReadWrappedAt(data: seq<byte>, off: nat, n: nat, j: nat)
    requires off < |data| && j < n <= |data|
    ensures ReadWrapped(data, off, n)[j] == data[Cell(|data|, off + j)]
  {
    var cap := |data|;
    if off + j < cap { DivModUnique(off + j, cap, 0, off + j); } else { DivModUnique(off + j, cap, 1, off + j - cap); }
  }

  lemma ReadWrappedPrefix(data: seq<byte>, off: nat, m: nat, n: nat)
    requires off < |data| && m <= n <= |data|
    ensures ReadWrapped(data, off, m) == ReadWrapped(data, off, n)[..m]
  {
    var x, y := ReadWrapped(data, off, m), ReadWrapped(data, off, n);
    assert forall k :: 0 <= k < m ==> x[k] == y[k];
  }
}
