/**
  The free-extent record and the fixed-width hole-list encoding that
  `getList` produces for the placement strategies:
  `[count, offset0, size0, offset1, size1, ...]`, one `uint16_t` per field.
 */
module HoleList {

  /** A free extent of the pool: `size` words starting at word `offset`. */
  datatype Hole = Hole(offset: nat, size: nat)

  /** Number of distinct values of a `uint16_t` field. */
  const U16_MODULUS: nat := 0x1_0000

  /** The value a `uint16_t` field keeps when a wider count is stored in it. */
  function U16(x: nat): (r: nat)
    ensures r < U16_MODULUS
    ensures r <= x
    ensures x < U16_MODULUS ==> r == x
  {
    x % U16_MODULUS
  }

  /** The offset/size fields of the holes, in list order. */
  function Fields(hs: seq<Hole>): (r: seq<nat>)
    ensures |r| == 2 * |hs|
    ensures forall i :: 0 <= i < |hs| ==> r[2 * i] == U16(hs[i].offset) && r[2 * i + 1] == U16(hs[i].size)
  {
    if hs == [] then []
    else
      var tail := Fields(hs[1..]);
      assert forall i :: 1 <= i < |hs| ==> hs[i] == hs[1..][i - 1];
      [U16(hs[0].offset), U16(hs[0].size)] + tail
  }

  /** The encoded hole list handed to a placement strategy. */
  function GetList(hs: seq<Hole>): (r: seq<nat>)
    ensures |r| == 1 + 2 * |hs|
    ensures r[0] == U16(|hs|)
    ensures forall i :: 0 <= i < |hs| ==> r[2 * i + 1] == U16(hs[i].offset) && r[2 * i + 2] == U16(hs[i].size)
    ensures forall k :: 0 <= k < |r| ==> r[k] < U16_MODULUS
    ensures WellFormedList(r)
  {
    var fields := Fields(hs);
    var r := [U16(|hs|)] + fields;
    assert forall k :: 1 <= k < |r| ==> r[k] == fields[k - 1];
    forall k | 1 <= k < |r|
      ensures r[k] < U16_MODULUS
    {
      var i := (k - 1) / 2;
      if (k - 1) % 2 == 0 {
        assert fields[2 * i] == U16(hs[i].offset);
      } else {
        assert fields[2 * i + 1] == U16(hs[i].size);
      }
    }
    r
  }

  /** An encoded list whose count is backed by that many offset/size pairs. */
  predicate WellFormedList(list: seq<nat>) {
    |list| >= 1 && |list| >= 1 + 2 * list[0]
  }

  /** Offset field of the k-th encoded hole. */
  function OffsetAt(list: seq<nat>, k: nat): nat
    requires WellFormedList(list) && k < list[0]
  {
    list[2 * k + 1]
  }

  /** Size field of the k-th encoded hole. */
  function SizeAt(list: seq<nat>, k: nat): nat
    requires WellFormedList(list) && k < list[0]
  {
    list[2 * k + 2]
  }

  /** Reads the holes back out of an encoded list, as a strategy does. */
  function Decode(list: seq<nat>): (hs: seq<Hole>)
    requires WellFormedList(list)
    ensures |hs| == list[0]
    ensures forall k :: 0 <= k < |hs| ==> hs[k].offset == OffsetAt(list, k) && hs[k].size == SizeAt(list, k)
  {
    seq(list[0], k requires 0 <= k < list[0] => Hole(OffsetAt(list, k), SizeAt(list, k)))
  }

  /** Every field of the hole list fits in 16 bits. */
  predicate FitsU16(hs: seq<Hole>) {
    && |hs| < U16_MODULUS
    && forall i :: 0 <= i < |hs| ==> hs[i].offset < U16_MODULUS && hs[i].size < U16_MODULUS
  }

  /** When nothing is truncated, decoding the encoded list gives the holes back. */
  lemma DecodeGetList(hs: seq<Hole>)
    requires FitsU16(hs)
    ensures Decode(GetList(hs)) == hs
  {
  }

  /** A 65536-word hole is encoded with size 0: the truncation is visible to strategies. */
  lemma FullPoolHoleEncodesSizeZero()
    ensures GetList([Hole(0, 65536)]) == [1, 0, 0]
  {
    var r := GetList([Hole(0, 65536)]);
    assert r[2] == U16(65536) == 0;
  }
}
