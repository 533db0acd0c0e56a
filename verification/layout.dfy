/**
  Regions laid out back to back in one buffer: where each one starts, and
  that the bytes found there are the region's bytes.
 */
module Layout {
  import opened Bytes

  function Sum(xs: seq<nat>): nat
  {
    if |xs| == 0 then 0 else xs[0] + Sum(xs[1..])
  }

  /** The regions one after another. */
  function Concat(rs: seq<seq<byte>>): seq<byte>
  {
    if |rs| == 0 then [] else rs[0] + Concat(rs[1..])
  }

  /** Start of each region when the first starts at `start` and region `i` has size `sizes[i]`. */
  function OffsetsFrom(sizes: seq<nat>, start: nat): (offs: seq<nat>)
    ensures |offs| == |sizes|
  {
    if |sizes| == 0 then [] else [start] + OffsetsFrom(sizes[1..], start + sizes[0])
  }

  /** Regions follow each other in order, and the last one ends where the sum of the sizes says. */
  lemma {:induction false} OffsetsLayout(sizes: seq<nat>, start: nat, i: nat)
    requires i < |sizes|
    ensures i == 0 ==> OffsetsFrom(sizes, start)[i] == start
    ensures i + 1 < |sizes| ==> OffsetsFrom(sizes, start)[i + 1] == OffsetsFrom(sizes, start)[i] + sizes[i]
    ensures start <= OffsetsFrom(sizes, start)[i]
    ensures OffsetsFrom(sizes, start)[i] + sizes[i] <= start + Sum(sizes)
    ensures i + 1 == |sizes| ==> OffsetsFrom(sizes, start)[i] + sizes[i] == start + Sum(sizes)
  {
    var offs := OffsetsFrom(sizes, start);
    var rest := OffsetsFrom(sizes[1..], start + sizes[0]);
    assert offs == [start] + rest;
    if i > 0 {
      OffsetsLayout(sizes[1..], start + sizes[0], i - 1);
      assert sizes[1..][i - 1] == sizes[i];
      if i + 1 < |sizes| {
        assert sizes[1..][i] == sizes[i + 1];
      }
    } else if |sizes| > 1 {
      OffsetsLayout(sizes[1..], start + sizes[0], 0);
    }
  }

  predicate SizesMatch(rs: seq<seq<byte>>, sizes: seq<nat>)
  {
    |rs| == |sizes| && forall j :: 0 <= j < |rs| ==> |rs[j]| == sizes[j]
  }

  lemma {:induction false} ConcatLength(rs: seq<seq<byte>>, sizes: seq<nat>)
    requires SizesMatch(rs, sizes)
    ensures |Concat(rs)| == Sum(sizes)
  {
    if |rs| > 0 {
      ConcatLength(rs[1..], sizes[1..]);
    }
  }

  /** `region` occupies `buf` from byte `off` on. */
  predicate PlacedAt(buf: seq<byte>, off: nat, region: seq<byte>)
  {
    off + |region| <= |buf| && buf[off .. off + |region|] == region
  }

  /** A placement survives putting `a` in front, shifted by `a`'s length. */
  lemma PlacedAfter(a: seq<byte>, b: seq<byte>, off: nat, target: nat, region: seq<byte>)
    requires PlacedAt(b, off, region) && target == |a| + off
    ensures PlacedAt(a + b, target, region)
  {
    ShiftSlice(a, b, off, off + |region|);
  }

  /** The first part of a concatenation is placed at its start. */
  lemma PlacedFirst(a: seq<byte>, b: seq<byte>, target: nat)
    requires target == 0
    ensures PlacedAt(a + b, target, a)
  {
    assert (a + b)[..|a|] == a;
  }

  /** Region `i` is found at its offset. */
  lemma {:induction false} ConcatPlacement(rs: seq<seq<byte>>, sizes: seq<nat>, start: nat, i: nat)
    requires SizesMatch(rs, sizes) && i < |rs|
    ensures start <= OffsetsFrom(sizes, start)[i]
    ensures PlacedAt(Concat(rs), OffsetsFrom(sizes, start)[i] - start, rs[i])
  {
    OffsetsLayout(sizes, start, i);
    assert Concat(rs) == rs[0] + Concat(rs[1..]);
    if i == 0 {
      PlacedFirst(rs[0], Concat(rs[1..]), OffsetsFrom(sizes, start)[i] - start);
    } else {
      var start' := start + sizes[0];
      assert sizes[0] == |rs[0]|;
      assert SizesMatch(rs[1..], sizes[1..]) by {
        forall j | 0 <= j < |rs| - 1
          ensures |rs[1..][j]| == sizes[1..][j]
        {
          assert rs[1..][j] == rs[j + 1];
        }
      }
      ConcatPlacement(rs[1..], sizes[1..], start', i - 1);
      OffsetsTail(sizes, start, i);
      assert rs[1..][i - 1] == rs[i];
      PlacedAfter(rs[0], Concat(rs[1..]), OffsetsFrom(sizes[1..], start')[i - 1] - start',
                  OffsetsFrom(sizes, start)[i] - start, rs[i]);
    }
  }

  /** Past the first region, offsets are those of the remaining regions. */
  lemma OffsetsTail(sizes: seq<nat>, start: nat, i: nat)
    requires 0 < i < |sizes|
    ensures OffsetsFrom(sizes, start)[i] == OffsetsFrom(sizes[1..], start + sizes[0])[i - 1]
  {
    assert OffsetsFrom(sizes, start) == [start] + OffsetsFrom(sizes[1..], start + sizes[0]);
  }

  /** The same, for regions that follow a header `h` in one buffer. */
  lemma BufferPlacement(h: seq<byte>, rs: seq<seq<byte>>, sizes: seq<nat>, i: nat)
    requires SizesMatch(rs, sizes) && i < |rs|
    ensures |h| <= OffsetsFrom(sizes, |h|)[i]
    ensures PlacedAt(h + Concat(rs), OffsetsFrom(sizes, |h|)[i], rs[i])
  {
    ConcatPlacement(rs, sizes, |h|, i);
    var off := OffsetsFrom(sizes, |h|)[i];
    assert |h| <= off;
    PlacedAfter(h, Concat(rs), off - |h|, off, rs[i]);
  }

  /**
    `BufferPlacement` for a buffer, offset table and region known only by
    name, so callers need not unfold how they were built.
   */
  lemma PlacementIn(buf: seq<byte>, h: seq<byte>, rs: seq<seq<byte>>, sizes: seq<nat>,
                    offs: seq<nat>, i: nat, region: seq<byte>)
    requires SizesMatch(rs, sizes) && i < |rs|
    requires buf == h + Concat(rs) && offs == OffsetsFrom(sizes, |h|) && rs[i] == region
    ensures i < |offs| && |h| <= offs[i]
    ensures PlacedAt(buf, offs[i], region)
  {
    BufferPlacement(h, rs, sizes, i);
  }
}
