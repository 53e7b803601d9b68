/**
  `getBitmap`: one bit per word (1 = in no hole), least significant bit
  first within each byte, padding bits past the last word cleared, behind a
  2-byte little-endian byte count.
 */
module Bitmap {
  import opened Wrappers
  import opened HoleList
  import opened Extents
  import opened MemoryPool

  /** Bit k of a byte, bit 0 being the least significant. */
  predicate BitOf(b: bv8, k: nat)
    requires k < 8
  {
    (b >> k) & 1 == 1
  }

  /** The bit of word w in packed data: bit w % 8 of byte w / 8. */
  predicate WordBit(data: seq<bv8>, w: nat)
    requires w / 8 < |data|
  {
    BitOf(data[w / 8], w % 8)
  }

  /** Bytes needed for one bit per word: the word count divided by 8, rounded up. */
  function ByteCount(n: nat): (b: nat)
    ensures 8 * b >= n
    ensures b > 0 ==> 8 * (b - 1) < n
  {
    n / 8 + (if n % 8 != 0 then 1 else 0)
  }

  lemma AllOnes(k: nat)
    requires k < 8
    ensures BitOf(0xFF, k)
  {
  }

  /** Clearing bit j of a byte leaves every other bit alone. */
  lemma ClearBit(b: bv8, j: nat, k: nat)
    requires j < 8 && k < 8
    ensures BitOf(b & !((1 as bv8) << j), k) <==> k != j && BitOf(b, k)
  {
  }

  /** Masking with `0xFF >> (8 - r)` keeps exactly the low r bits. */
  lemma MaskLow(b: bv8, r: nat, k: nat)
    requires 0 < r < 8 && k < 8
    ensures BitOf(b & ((0xFF as bv8) >> (8 - r)), k) <==> k < r && BitOf(b, k)
  {
  }

  /** Clearing the bit of word b changes the bit of no other word. */
  lemma ClearWordBit(data: seq<bv8>, b: nat, w: nat)
    requires b / 8 < |data| && w / 8 < |data|
    ensures WordBit(data[b / 8 := data[b / 8] & !((1 as bv8) << (b % 8))], w) <==> w != b && WordBit(data, w)
  {
    var out := data[b / 8 := data[b / 8] & !((1 as bv8) << (b % 8))];
    if w / 8 == b / 8 {
      assert w == b <==> w % 8 == b % 8 by {
        assert w == 8 * (w / 8) + w % 8 && b == 8 * (b / 8) + b % 8;
      }
      ClearBit(data[b / 8], b % 8, w % 8);
    } else {
      assert out[w / 8] == data[w / 8] && w != b;
    }
  }

  /** Clearing the bit of word b clears that bit and only that bit. */
  lemma ClearWordBitAll(data: seq<bv8>, b: nat)
    requires b / 8 < |data|
    ensures var out := data[b / 8 := data[b / 8] & !((1 as bv8) << (b % 8))];
      forall w :: 0 <= w < 8 * |data| ==> (WordBit(out, w) <==> w != b && WordBit(data, w))
  {
    forall w | 0 <= w < 8 * |data|
      ensures WordBit(data[b / 8 := data[b / 8] & !((1 as bv8) << (b % 8))], w) <==> w != b && WordBit(data, w)
    {
      ClearWordBit(data, b, w);
    }
  }

  /** Word w lies in the last byte of the bitmap of n words, or else below n. */
  lemma LastByteWords(n: nat, w: nat)
    requires n % 8 != 0 && w / 8 < ByteCount(n)
    ensures w / 8 == ByteCount(n) - 1 ==> (w < n <==> w % 8 < n % 8)
    ensures w / 8 != ByteCount(n) - 1 ==> w < n
  {
    assert ByteCount(n) - 1 == n / 8;
  }

  /** Masking the last byte clears exactly the bits of words at or past n. */
  lemma MaskWordBit(data: seq<bv8>, n: nat, w: nat)
    requires n % 8 != 0 && |data| == ByteCount(n) && w / 8 < |data|
    ensures WordBit(data[|data| - 1 := data[|data| - 1] & ((0xFF as bv8) >> (8 - n % 8))], w) <==> w < n && WordBit(data, w)
  {
    LastByteWords(n, w);
    if w / 8 == |data| - 1 {
      MaskLow(data[|data| - 1], n % 8, w % 8);
    }
  }

  /** Packed data in which the bit of each word w < 8 * |data| is set iff w < n and no hole of hs contains w. */
  predicate Marks(data: seq<bv8>, n: nat, hs: seq<Hole>) {
    forall w :: 0 <= w < 8 * |data| ==> (WordBit(data, w) <==> !(w < n && Covered(hs, w)))
  }

  /** The loop invariant of `ClearHole`: the bits of the first i words of hole are cleared too. */
  predicate MarksUpTo(data: seq<bv8>, n: nat, prev: seq<Hole>, hole: Hole, i: nat) {
    forall w :: 0 <= w < 8 * |data| ==>
      (WordBit(data, w) <==> !(w < n && (Covered(prev, w) || InRange(hole.offset, i, w))))
  }

  /** Clearing the bit of word `hole.offset + i` (when it is below n) extends the invariant by one word. */
  lemma MarksUpToStep(before: seq<bv8>, out: seq<bv8>, n: nat, prev: seq<Hole>, hole: Hole, i: nat)
    requires |out| == |before| && MarksUpTo(before, n, prev, hole, i)
    requires forall w :: 0 <= w < 8 * |out| ==>
      (WordBit(out, w) <==> !(w < n && w == hole.offset + i) && WordBit(before, w))
    ensures MarksUpTo(out, n, prev, hole, i + 1)
  {
    forall w | 0 <= w < 8 * |out|
      ensures WordBit(out, w) <==> !(w < n && (Covered(prev, w) || InRange(hole.offset, i + 1, w)))
    {
      assert InRange(hole.offset, i + 1, w) <==> InRange(hole.offset, i, w) || w == hole.offset + i;
    }
  }

  /** Once every word of hole is cleared, the data marks the holes prev + [hole]. */
  lemma MarksUpToDone(data: seq<bv8>, n: nat, prev: seq<Hole>, hole: Hole)
    requires MarksUpTo(data, n, prev, hole, hole.size)
    ensures Marks(data, n, prev + [hole])
  {
    forall w | 0 <= w < 8 * |data|
      ensures Covered(prev + [hole], w) <==> Covered(prev, w) || InRange(hole.offset, hole.size, w)
    {
      CoveredLast(prev, hole, w);
    }
  }

  /** One step of the inner loop: clears the bit of word b, unless b is past the pool. */
  function ClearWord(data: seq<bv8>, n: nat, b: nat): (out: seq<bv8>)
    requires |data| == ByteCount(n)
    ensures |out| == |data|
    ensures forall w :: 0 <= w < 8 * |data| ==>
      (WordBit(out, w) <==> !(w < n && w == b) && WordBit(data, w))
  {
    if b < n then
      ClearWordBitAll(data, b);
      data[b / 8 := data[b / 8] & !((1 as bv8) << (b % 8))]
    else
      data
  }

  /** The inner loop of `getBitmap`: clears the bit of every word of `hole` below n. */
  method ClearHole(buffer: seq<bv8>, n: nat, hole: Hole, ghost prev: seq<Hole>) returns (out: seq<bv8>)
    requires |buffer| == ByteCount(n) && Marks(buffer, n, prev)
    ensures |out| == |buffer|
    ensures Marks(out, n, prev + [hole])
  {
    out := buffer;
    var i := 0;
    while i < hole.size
      invariant 0 <= i <= hole.size
      invariant |out| == |buffer|
      invariant MarksUpTo(out, n, prev, hole, i)
    {
      ghost var before := out;
      out := ClearWord(out, n, hole.offset + i);
      MarksUpToStep(before, out, n, prev, hole, i);
      i := i + 1;
    }
    MarksUpToDone(out, n, prev, hole);
  }

  /** The last-byte fix-up of `getBitmap`: clears the padding bits past word n. */
  function ClearPadding(data: seq<bv8>, n: nat): (out: seq<bv8>)
    requires |data| == ByteCount(n) && n > 0
    ensures |out| == |data|
    ensures forall w :: 0 <= w < 8 * |data| ==> (WordBit(out, w) <==> w < n && WordBit(data, w))
  {
    if n % 8 != 0 then
      var last := |data| - 1;
      var out := data[last := data[last] & ((0xFF as bv8) >> (8 - n % 8))];
      assert forall w :: 0 <= w < 8 * |data| ==> (WordBit(out, w) <==> w < n && WordBit(data, w)) by {
        forall w | 0 <= w < 8 * |data|
          ensures WordBit(out, w) <==> w < n && WordBit(data, w)
        {
          MaskWordBit(data, n, w);
        }
      }
      out
    else
      data
  }

  /**
    `getBitmap()`: `None` for a pool not in use; otherwise the byte count B of
    the packed bitmap in two little-endian bytes, then B bytes in which the
    bit of word w is set iff w is a word of the pool that lies in no hole;
    in a valid pool, that is exactly when w belongs to a live allocation.
   */
  method GetBitmap(p: Pool) returns (r: Option<seq<bv8>>)
    ensures r.None? <==> !p.initialized || p.sizeInWords == 0
    ensures r.Some? ==>
      var size := ByteCount(p.sizeInWords);
      && |r.value| == 2 + size
      && r.value[0] == (size % 256) as bv8
      && r.value[1] == ((size / 256) % 256) as bv8
      && forall w :: 0 <= w < 8 * size ==> (WordBit(r.value[2..], w) <==> w < p.sizeInWords && !Covered(p.holes, w))
    ensures r.Some? && Valid(p) ==>
      forall w :: 0 <= w < p.sizeInWords ==> (WordBit(r.value[2..], w) <==> Allocated(p.allocations, p.wordSize, w))
  {
    if !p.initialized || p.sizeInWords == 0 {
      return None;
    }
    var n := p.sizeInWords;
    var size := n / 8;
    if n % 8 != 0 {
      size := size + 1;
    }
    var buffer: seq<bv8> := seq(size, _ => 0xFF);
    forall w | 0 <= w < 8 * size
      ensures WordBit(buffer, w)
    {
      AllOnes(w % 8);
    }
    var h := 0;
    while h < |p.holes|
      invariant 0 <= h <= |p.holes|
      invariant |buffer| == size
      invariant Marks(buffer, n, p.holes[..h])
    {
      assert p.holes[..h + 1] == p.holes[..h] + [p.holes[h]];
      buffer := ClearHole(buffer, n, p.holes[h], p.holes[..h]);
      h := h + 1;
    }
    assert p.holes[..h] == p.holes;
    var bitmap := ClearPadding(buffer, n);
    var result := [(size % 256) as bv8, ((size / 256) % 256) as bv8] + bitmap;
    assert result[2..] == bitmap;
    return Some(result);
  }
}
