/**
  Raw memory as seen by the transcoder: bytes, little-endian fixed-width
  fields (the x86-64 / aarch64 layout the buffers are built for), zero fill,
  and PostgreSQL's MAXALIGN rounding.
 */
module Bytes {

  newtype byte = b: int | 0 <= b < 256

  const U16Limit: nat := 0x1_0000
  const U32Limit: nat := 0x1_0000_0000
  const U64Limit: nat := 0x1_0000_0000_0000_0000

  function Pow256(w: nat): (r: nat)
    ensures r >= 1
  {
    if w == 0 then 1 else 256 * Pow256(w - 1)
  }

  /** The low `w` bytes of `v`, least significant first (a `memcpy` of a `w`-byte integer). */
  function LeBytes(v: nat, w: nat): (r: seq<byte>)
    ensures |r| == w
  {
    if w == 0 then [] else [(v % 256) as byte] + LeBytes(v / 256, w - 1)
  }

  /** The unsigned integer a little-endian field holds. */
  function LeValue(s: seq<byte>): nat
  {
    if |s| == 0 then 0 else s[0] as nat + 256 * LeValue(s[1..])
  }

  /** `(uint32) v` */
  function U32(v: int): (r: nat)
    ensures r < U32Limit
    ensures 0 <= v < U32Limit ==> r == v
  {
    v % U32Limit
  }

  /** `(uint16) v` */
  function U16(v: int): (r: nat)
    ensures r < U16Limit
    ensures 0 <= v < U16Limit ==> r == v
  {
    v % U16Limit
  }

  /** `n` bytes of `memset(…, c, n)` (also `palloc0` when `c` is 0). */
  function Fill(n: nat, c: byte): (r: seq<byte>)
    ensures |r| == n
    ensures forall i :: 0 <= i < n ==> r[i] == c
  {
    seq(n, _ => c)
  }

  function Zeros(n: nat): (r: seq<byte>)
    ensures |r| == n
    ensures forall i :: 0 <= i < n ==> r[i] == 0
  {
    Fill(n, 0)
  }

  /** MAXALIGN(n): the least multiple of MAXIMUM_ALIGNOF (8 on the 64-bit platforms targeted) not below `n`. */
  function MaxAlign(n: nat): (r: nat)
    ensures r % 8 == 0
    ensures n <= r < n + 8
  {
    (n + 7) / 8 * 8
  }

  /** A slice of a slice is a slice of the original. */
  lemma SliceOfSlice(s: seq<byte>, a: nat, b: nat, c: nat, d: nat)
    requires a <= b <= |s| && c <= d <= b - a
    ensures s[a..b][c..d] == s[a + c .. a + d]
  {
    forall k | 0 <= k < d - c
      ensures s[a..b][c..d][k] == s[a + c .. a + d][k]
    {
    }
  }

  /** A slice of the second part of a concatenation, found at the first part's length. */
  lemma ShiftSlice(a: seq<byte>, b: seq<byte>, x: nat, y: nat)
    requires x <= y <= |b|
    ensures (a + b)[|a| + x .. |a| + y] == b[x..y]
  {
    forall k | 0 <= k < y - x
      ensures (a + b)[|a| + x .. |a| + y][k] == b[x..y][k]
    {
    }
  }

  /** A slice of zeros is zeros. */
  lemma ZerosSlice(n: nat, a: nat, b: nat)
    requires a <= b <= n
    ensures Zeros(n)[a..b] == Zeros(b - a)
  {
  }

  lemma MaxAlignOfAligned(n: nat)
    requires n % 8 == 0
    ensures MaxAlign(n) == n
  {
  }

  lemma AlignedSum(a: nat, b: nat)
    requires a % 8 == 0 && b % 8 == 0
    ensures (a + b) % 8 == 0
  {
  }

  lemma Pow256Values()
    ensures Pow256(2) == U16Limit
    ensures Pow256(4) == U32Limit
    ensures Pow256(8) == U64Limit
  {
  }

  /** Decoding an encoded field gives back the value it was written from. */
  lemma {:induction false} LeRoundTrip(v: nat, w: nat)
    requires v < Pow256(w)
    ensures LeValue(LeBytes(v, w)) == v
  {
    if w > 0 {
      var s := LeBytes(v, w);
      assert s[1..] == LeBytes(v / 256, w - 1);
      LeRoundTrip(v / 256, w - 1);
    }
  }

  lemma {:induction false} LeValueBound(s: seq<byte>)
    ensures LeValue(s) < Pow256(|s|)
  {
    if |s| > 0 {
      LeValueBound(s[1..]);
    }
  }

  lemma LeRoundTrip16(v: nat)
    requires v < U16Limit
    ensures LeValue(LeBytes(v, 2)) == v
  {
    Pow256Values();
    LeRoundTrip(v, 2);
  }

  lemma LeRoundTrip32(v: nat)
    requires v < U32Limit
    ensures LeValue(LeBytes(v, 4)) == v
  {
    Pow256Values();
    LeRoundTrip(v, 4);
  }

  lemma LeRoundTrip64(v: nat)
    requires v < U64Limit
    ensures LeValue(LeBytes(v, 8)) == v
  {
    Pow256Values();
    LeRoundTrip(v, 8);
  }

  /** An array of `uint32` laid out in memory, e.g. `uint32 offsets[]`. */
  function LeArray32(vs: seq<nat>): (r: seq<byte>)
    ensures |r| == 4 * |vs|
  {
    if |vs| == 0 then [] else LeBytes(vs[0], 4) + LeArray32(vs[1..])
  }

  /** Element `i` of a `uint32` array occupies bytes `4i .. 4i+4`. */
  lemma {:induction false} LeArray32Slice(vs: seq<nat>, i: nat)
    requires i < |vs|
    ensures LeArray32(vs)[4 * i .. 4 * i + 4] == LeBytes(vs[i], 4)
  {
    if i > 0 {
      LeArray32Slice(vs[1..], i - 1);
      var r := LeArray32(vs);
      assert r == LeBytes(vs[0], 4) + LeArray32(vs[1..]);
      ShiftSlice(LeBytes(vs[0], 4), LeArray32(vs[1..]), 4 * (i - 1), 4 * (i - 1) + 4);
      assert r[4 * i .. 4 * i + 4] == LeArray32(vs[1..])[4 * (i - 1) .. 4 * (i - 1) + 4];
    }
  }

  /** An array of 8-byte values laid out in memory, e.g. `Datum values[]`. */
  function LeArray64(vs: seq<nat>): (r: seq<byte>)
    ensures |r| == 8 * |vs|
  {
    if |vs| == 0 then [] else LeBytes(vs[0], 8) + LeArray64(vs[1..])
  }

  /** Element `i` of an 8-byte array occupies bytes `8i .. 8i+8`. */
  lemma {:induction false} LeArray64Slice(vs: seq<nat>, i: nat)
    requires i < |vs|
    ensures LeArray64(vs)[8 * i .. 8 * i + 8] == LeBytes(vs[i], 8)
  {
    if i > 0 {
      LeArray64Slice(vs[1..], i - 1);
      var r := LeArray64(vs);
      assert r == LeBytes(vs[0], 8) + LeArray64(vs[1..]);
      ShiftSlice(LeBytes(vs[0], 8), LeArray64(vs[1..]), 8 * (i - 1), 8 * (i - 1) + 8);
      assert r[8 * i .. 8 * i + 8] == LeArray64(vs[1..])[8 * (i - 1) .. 8 * (i - 1) + 8];
    }
  }
}
