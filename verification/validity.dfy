/**
  Validity bitmaps in the Arrow C Data Interface layout, which the KDS column
  format shares: one bit per row, packed least-significant-bit first into
  64-bit little-endian words, bit `i` set exactly when row `i` is not null.
  Models `validity_bitmap_bytes` and `copy_validity_bitmap` of arrow_kds.c.
 */
module Validity {
  import opened Wrappers
  import opened Bits
  import opened Bytes

  const WordBits: nat := 64
  const WordBytes: nat := 8

  /** `validity_bitmap_bytes`: whole 64-bit words covering `n` bits, rounded to MAXALIGN. */
  function ValidityBitmapBytes(n: nat): (r: nat)
    ensures r % WordBytes == 0
    ensures n <= WordBits * (r / WordBytes)
    ensures r > 0 ==> WordBits * (r / WordBytes - 1) < n
    ensures r == 0 <==> n == 0
  {
    MaxAlign(((n + 63) / 64) * WordBytes)
  }

  /** The `w`-th 64-bit word of a bitmap, `((const uint64 *) bm)[w]`. */
  function WordAt(bm: seq<byte>, w: nat): nat
    requires WordBytes * w + WordBytes <= |bm|
  {
    LeValue(bm[WordBytes * w .. WordBytes * w + WordBytes])
  }

  /** `(bm[i / 64] >> (i % 64)) & 1`: whether the bitmap marks row `i` valid. */
  predicate ValidBit(bm: seq<byte>, i: nat)
    requires WordBytes * (i / WordBits) + WordBytes <= |bm|
  {
    Bit(WordAt(bm, i / WordBits), i % WordBits)
  }

  /** A row's bit depends only on the bitmap's first words, up to and including its own. */
  lemma ValidBitPrefix(bm: seq<byte>, k: nat, i: nat)
    requires WordBytes * (i / WordBits) + WordBytes <= k <= |bm|
    ensures ValidBit(bm[..k], i) == ValidBit(bm, i)
  {
    var w := i / WordBits;
    assert bm[..k][WordBytes * w .. WordBytes * w + WordBytes] == bm[WordBytes * w .. WordBytes * w + WordBytes];
  }

  /** Every bit position of a whole-word bitmap lies in one of its words. */
  lemma BitInBitmap(bm: seq<byte>, i: nat)
    requires |bm| % WordBytes == 0 && i < 8 * |bm|
    ensures WordBytes * (i / WordBits) + WordBytes <= |bm|
  {
  }

  /** The bit of every row of an `n`-row batch lies in the `n`-row bitmap. */
  lemma RowInBitmap(n: nat, i: nat)
    requires i < n
    ensures WordBytes * (i / WordBits) + WordBytes <= ValidityBitmapBytes(n)
  {
  }

  /**
    The bitmap `copy_validity_bitmap` writes when the source has none: the
    whole area set to 0xFF, then the last word masked with
    `(~0ULL) >> (64 - n % 64)` when `n` is not a multiple of 64.
   */
  function AllValidBitmap(n: nat): (bm: seq<byte>)
    ensures |bm| == ValidityBitmapBytes(n)
  {
    var len := ValidityBitmapBytes(n);
    var filled := Fill(len, 0xFF);
    BitmapLength(n);
    if n % WordBits != 0 then
      var w := n / WordBits;
      var mask := Shr(Ones(WordBits), WordBits - n % WordBits);
      filled[..WordBytes * w] + LeBytes(And(WordAt(filled, w), mask), WordBytes)
    else
      filled
  }

  /** The bitmap holds the `n / 64` full words, plus one partial word when `n % 64 != 0`. */
  lemma BitmapLength(n: nat)
    ensures n % WordBits != 0 ==> ValidityBitmapBytes(n) == WordBytes * (n / WordBits) + WordBytes
    ensures n % WordBits == 0 ==> ValidityBitmapBytes(n) == WordBytes * (n / WordBits)
  {
  }

  /** `copy_validity_bitmap`: a present source bitmap is copied, an absent one synthesized. */
  function CopyValidityBitmap(src: Option<seq<byte>>, n: nat): (bm: seq<byte>)
    requires src.Some? ==> |src.value| >= ValidityBitmapBytes(n)
    ensures |bm| == ValidityBitmapBytes(n)
    ensures src.Some? ==> bm == src.value[..ValidityBitmapBytes(n)]
    ensures src.None? ==> forall i :: 0 <= i < 8 * |bm| ==> (ValidBit(bm, i) <==> i < n)
  {
    if src.None? then
      AllValidAllBits(n);
      AllValidBitmap(n)
    else
      src.value[..ValidityBitmapBytes(n)]
  }

  /** Number of valid bits among positions `0 .. k-1`. */
  function CountValid(bm: seq<byte>, k: nat): nat
    requires |bm| % WordBytes == 0 && k <= 8 * |bm|
  {
    if k == 0 then 0
    else
      BitInBitmap(bm, k - 1);
      CountValid(bm, k - 1) + (if ValidBit(bm, k - 1) then 1 else 0)
  }

  lemma {:induction false} LeValueAllOnes(k: nat)
    ensures LeValue(Fill(k, 0xFF)) == Ones(8 * k)
  {
    if k > 0 {
      assert Fill(k, 0xFF)[1..] == Fill(k - 1, 0xFF);
      LeValueAllOnes(k - 1);
      var a := 8 * (k - 1);
      assert Ones(a + 8) == 255 + 256 * Ones(a) by {
        assert Ones(a + 1) == 1 + 2 * Ones(a);
        assert Ones(a + 2) == 1 + 2 * Ones(a + 1);
        assert Ones(a + 3) == 1 + 2 * Ones(a + 2);
        assert Ones(a + 4) == 1 + 2 * Ones(a + 3);
        assert Ones(a + 5) == 1 + 2 * Ones(a + 4);
        assert Ones(a + 6) == 1 + 2 * Ones(a + 5);
        assert Ones(a + 7) == 1 + 2 * Ones(a + 6);
        assert Ones(a + 8) == 1 + 2 * Ones(a + 7);
      }
    }
  }

  lemma FilledWord(len: nat, w: nat)
    requires WordBytes * w + WordBytes <= len
    ensures WordAt(Fill(len, 0xFF), w) == Ones(WordBits)
  {
    assert Fill(len, 0xFF)[WordBytes * w .. WordBytes * w + WordBytes] == Fill(8, 0xFF);
    LeValueAllOnes(8);
  }

  /**
    With no source bitmap, the synthesized bitmap marks exactly rows `0 .. n-1`
    valid; the trailing bits of the last word are cleared.
   */
  lemma AllValidAllBits(n: nat)
    ensures forall i :: 0 <= i < 8 * |AllValidBitmap(n)| ==>
      (ValidBit(AllValidBitmap(n), i) <==> i < n)
  {
    forall i | 0 <= i < 8 * |AllValidBitmap(n)|
      ensures ValidBit(AllValidBitmap(n), i) <==> i < n
    {
      AllValidBit(n, i);
    }
  }

  lemma AllValidBit(n: nat, i: nat)
    requires i < 8 * |AllValidBitmap(n)|
    ensures ValidBit(AllValidBitmap(n), i) <==> i < n
  {
    var bm := AllValidBitmap(n);
    BitInBitmap(bm, i);
    BitmapIndexFacts(n, i);
    if n % WordBits != 0 && i / WordBits == n / WordBits {
      AllValidLastWord(n, i);
    } else {
      AllValidFullWord(n, i / WordBits);
      BitOnes(WordBits, i % WordBits);
    }
  }

  /** Where bit `i` sits relative to the `n` valid rows. */
  lemma BitmapIndexFacts(n: nat, i: nat)
    requires i < 8 * ValidityBitmapBytes(n)
    ensures n % WordBits != 0 ==> ValidityBitmapBytes(n) == WordBytes * (n / WordBits) + WordBytes
    ensures n % WordBits == 0 ==> ValidityBitmapBytes(n) == WordBytes * (n / WordBits)
    ensures i / WordBits <= n / WordBits
    ensures n % WordBits == 0 ==> i / WordBits < n / WordBits
    ensures i / WordBits < n / WordBits ==> i < n
    ensures i / WordBits == n / WordBits ==> (i < n <==> i % WordBits < n % WordBits)
  {
  }

  /** Every word before the masked one is all ones. */
  lemma AllValidFullWord(n: nat, w: nat)
    requires WordBytes * w + WordBytes <= ValidityBitmapBytes(n)
    requires n % WordBits != 0 ==> w < n / WordBits
    ensures WordAt(AllValidBitmap(n), w) == Ones(WordBits)
  {
    var len := ValidityBitmapBytes(n);
    var filled := Fill(len, 0xFF);
    var bm := AllValidBitmap(n);
    if n % WordBits != 0 {
      var k := n / WordBits;
      BitmapLength(n);
      assert bm[..WordBytes * k] == filled[..WordBytes * k];
      assert bm[WordBytes * w .. WordBytes * w + WordBytes]
          == filled[WordBytes * w .. WordBytes * w + WordBytes];
    }
    FilledWord(len, w);
  }

  /** The masked last word keeps exactly the low `n % 64` bits. */
  lemma AllValidLastWord(n: nat, i: nat)
    requires n % WordBits != 0 && i / WordBits == n / WordBits
    requires WordBytes * (i / WordBits) + WordBytes <= |AllValidBitmap(n)|
    ensures ValidBit(AllValidBitmap(n), i) <==> i % WordBits < n % WordBits
  {
    LastWordValue(n);
    MaskedWordBit(AllValidBitmap(n), n, i);
  }

  /** In a word holding the mask for `n`, bit `i` is set exactly below `n % 64`. */
  lemma MaskedWordBit(bm: seq<byte>, n: nat, i: nat)
    requires n % WordBits != 0 && i / WordBits == n / WordBits
    requires WordBytes * (i / WordBits) + WordBytes <= |bm|
    requires WordAt(bm, n / WordBits) == And(Ones(WordBits), Shr(Ones(WordBits), WordBits - n % WordBits))
    ensures ValidBit(bm, i) <==> i % WordBits < n % WordBits
  {
    MaskBit(WordBits, n % WordBits, i % WordBits);
  }

  lemma LastWordValue(n: nat)
    requires n % WordBits != 0
    ensures WordBytes * (n / WordBits) + WordBytes <= |AllValidBitmap(n)|
    ensures WordAt(AllValidBitmap(n), n / WordBits)
         == And(Ones(WordBits), Shr(Ones(WordBits), WordBits - n % WordBits))
  {
    var len := ValidityBitmapBytes(n);
    var filled := Fill(len, 0xFF);
    var w := n / WordBits;
    var mask := Shr(Ones(WordBits), WordBits - n % WordBits);
    BitmapLength(n);
    FilledWord(len, w);
    var last := And(Ones(WordBits), mask);
    AndBound(Ones(WordBits), mask);
    OnesBelow64();
    WordAfterPrefix(filled[..WordBytes * w], last, w);
  }

  /** A word written after `w` whole words reads back as itself. */
  lemma WordAfterPrefix(prefix: seq<byte>, v: nat, w: nat)
    requires |prefix| == WordBytes * w && v < U64Limit
    ensures WordAt(prefix + LeBytes(v, WordBytes), w) == v
  {
    assert (prefix + LeBytes(v, WordBytes))[WordBytes * w .. WordBytes * w + WordBytes] == LeBytes(v, WordBytes);
    LeRoundTrip64(v);
  }

  lemma OnesBelow64()
    ensures Ones(WordBits) < U64Limit
  {
    OnesPlusOne(WordBits);
    Pow2Bytes(8);
    Pow256Values();
    assert Pow2(WordBits) == U64Limit;
  }

  lemma {:induction false} Pow2Bytes(k: nat)
    ensures Pow2(8 * k) == Pow256(k)
  {
    if k > 0 {
      Pow2Bytes(k - 1);
      var a := 8 * (k - 1);
      assert Pow2(a + 8) == 256 * Pow2(a) by {
        assert Pow2(a + 8) == 2 * Pow2(a + 7);
        assert Pow2(a + 7) == 2 * Pow2(a + 6);
        assert Pow2(a + 6) == 2 * Pow2(a + 5);
        assert Pow2(a + 5) == 2 * Pow2(a + 4);
        assert Pow2(a + 4) == 2 * Pow2(a + 3);
        assert Pow2(a + 3) == 2 * Pow2(a + 2);
        assert Pow2(a + 2) == 2 * Pow2(a + 1);
        assert Pow2(a + 1) == 2 * Pow2(a);
      }
    }
  }

  /** `~0 & (~0 >> (w - m))` has bit `j` set exactly for `j < m`. */
  lemma MaskBit(w: nat, m: nat, j: nat)
    requires 0 < m <= w && j < w
    ensures Bit(And(Ones(w), Shr(Ones(w), w - m)), j) <==> j < m
  {
    BitAnd(Ones(w), Shr(Ones(w), w - m), j);
    BitShr(Ones(w), w - m, j);
    BitOnes(w, w - m + j);
    BitOnes(w, j);
  }

  /** `bm` marks exactly the rows `0 .. n-1` valid. */
  predicate MarksFirst(bm: seq<byte>, n: nat)
  {
    forall i :: 0 <= i < 8 * |bm| && WordBytes * (i / WordBits) + WordBytes <= |bm| ==>
      (ValidBit(bm, i) <==> i < n)
  }

  lemma {:induction false} CountPrefix(bm: seq<byte>, n: nat, k: nat)
    requires |bm| % WordBytes == 0 && MarksFirst(bm, n) && k <= 8 * |bm|
    ensures CountValid(bm, k) == if k <= n then k else n
  {
    if k > 0 {
      CountPrefix(bm, n, k - 1);
      BitInBitmap(bm, k - 1);
    }
  }

  /** The synthesized bitmap's population count is exactly the row count. */
  lemma AllValidPopCount(n: nat)
    ensures CountValid(AllValidBitmap(n), 8 * |AllValidBitmap(n)|) == n
  {
    var bm := AllValidBitmap(n);
    AllValidAllBits(n);
    assert MarksFirst(bm, n);
    CountPrefix(bm, n, 8 * |bm|);
    assert n <= 8 * |bm|;
  }
}
