/**
  The ordered hole sequence of the pool and the two edits the allocation
  engine makes to it: carving a request off the front of a hole (allocate)
  and coalescing a released extent back in (free).
 */
module Extents {
  import opened HoleList

  /** `size_t` arithmetic is modulo 2^64. */
  const SIZE_T_MODULUS: nat := 0x1_0000_0000_0000_0000

  /** The value a `size_t` keeps of an integer result. */
  function SizeT(x: int): (r: nat)
    ensures r < SIZE_T_MODULUS
    ensures 0 <= x < SIZE_T_MODULUS ==> r == x
  {
    x % SIZE_T_MODULUS
  }

  /** One past the last word of a hole. */
  function End(h: Hole): nat {
    h.offset + h.size
  }

  /** Word `w` lies in the `len` words starting at `start`. */
  predicate InRange(start: int, len: int, w: int) {
    start <= w < start + len
  }

  predicate Contains(h: Hole, w: int) {
    InRange(h.offset, h.size, w)
  }

  /** Word `w` is free: some hole of the sequence contains it. */
  predicate Covered(hs: seq<Hole>, w: int) {
    exists i :: 0 <= i < |hs| && Contains(hs[i], w)
  }

  /**
    The hole-sequence invariant: every hole is non-empty, and the holes are
    sorted by offset with at least one word between any two of them (so they
    neither overlap nor touch).
   */
  predicate WellFormed(hs: seq<Hole>) {
    && (forall i :: 0 <= i < |hs| ==> hs[i].size > 0)
    && (forall i, j :: 0 <= i < j < |hs| ==> End(hs[i]) < hs[j].offset)
  }

  /** Every hole ends at or before word `n`. */
  predicate WithinPool(hs: seq<Hole>, n: nat) {
    forall i :: 0 <= i < |hs| ==> End(hs[i]) <= n
  }

  /** The extent `[off, off + len)` shares no word with any hole. */
  predicate Apart(hs: seq<Hole>, off: nat, len: nat) {
    forall i :: 0 <= i < |hs| ==> End(hs[i]) <= off || off + len <= hs[i].offset
  }

  /** Every hole starts at or after word `lo`. */
  predicate StartsFrom(hs: seq<Hole>, lo: int) {
    forall i :: 0 <= i < |hs| ==> hs[i].offset >= lo
  }

  // ---------------------------------------------------------------------------
  // Coverage by a non-empty sequence splits into its head and its tail.

  lemma CoveredFirst(hs: seq<Hole>, w: int)
    requires |hs| > 0
    ensures Covered(hs, w) <==> Contains(hs[0], w) || Covered(hs[1..], w)
  {
    if Covered(hs, w) {
      var i :| 0 <= i < |hs| && Contains(hs[i], w);
      if i > 0 {
        assert hs[1..][i - 1] == hs[i];
      }
    }
    if Covered(hs[1..], w) {
      var i :| 0 <= i < |hs[1..]| && Contains(hs[1..][i], w);
      assert hs[i + 1] == hs[1..][i];
    }
  }

  lemma CoveredLast(hs: seq<Hole>, h: Hole, w: int)
    ensures Covered(hs + [h], w) <==> Covered(hs, w) || Contains(h, w)
  {
    var s := hs + [h];
    if Covered(s, w) {
      var i :| 0 <= i < |s| && Contains(s[i], w);
      if i < |hs| {
        assert hs[i] == s[i];
      }
    }
    if Covered(hs, w) {
      var i :| 0 <= i < |hs| && Contains(hs[i], w);
      assert s[i] == hs[i];
    }
    if Contains(h, w) {
      assert s[|hs|] == h;
    }
  }

  /** A word covered by holes that all start at or after `lo` is at or after `lo`. */
  lemma CoveredFrom(hs: seq<Hole>, lo: int, w: int)
    requires StartsFrom(hs, lo) && Covered(hs, w)
    ensures w >= lo
  {
    var i :| 0 <= i < |hs| && Contains(hs[i], w);
  }

  // ---------------------------------------------------------------------------
  // Coalescing (free)

  /**
    Puts the released extent `[off, off + len)` back into the hole sequence,
    scanning the holes in order: a hole ending at `off` grows to the right
    (and absorbs the next hole when that one starts at `off + len`); a hole
    starting at `off + len` grows to the left; the first hole past the extent
    gets a new hole inserted before it; with no such hole the extent is
    appended at the end.
   */
  function Coalesce(hs: seq<Hole>, off: nat, len: nat): (r: seq<Hole>)
    ensures |hs| - 1 <= |r| <= |hs| + 1
    ensures |r| > 0
    decreases |hs|
  {
    if hs == [] then
      [Hole(off, len)]
    else if End(hs[0]) == off then
      if |hs| > 1 && hs[1].offset == off + len then
        [Hole(hs[0].offset, hs[0].size + len + hs[1].size)] + hs[2..]
      else
        [Hole(hs[0].offset, hs[0].size + len)] + hs[1..]
    else if hs[0].offset == off + len then
      [Hole(hs[0].offset - len, hs[0].size + len)] + hs[1..]
    else if off < hs[0].offset then
      [Hole(off, len)] + hs
    else
      [hs[0]] + Coalesce(hs[1..], off, len)
  }

  /** The holes after coalescing cover exactly the old holes plus the released extent. */
  lemma {:induction false} CoalesceCovers(hs: seq<Hole>, off: nat, len: nat, w: int)
    ensures Covered(Coalesce(hs, off, len), w) <==> Covered(hs, w) || InRange(off, len, w)
    decreases |hs|
  {
    var r := Coalesce(hs, off, len);
    CoveredFirst(r, w);
    if hs == [] {
      assert !Covered(r[1..], w);
    } else {
      CoveredFirst(hs, w);
      if End(hs[0]) == off {
        if |hs| > 1 && hs[1].offset == off + len {
          assert r[1..] == hs[1..][1..];
          CoveredFirst(hs[1..], w);
        }
      } else if hs[0].offset == off + len {
      } else if off < hs[0].offset {
        assert r[1..] == hs;
      } else {
        CoalesceCovers(hs[1..], off, len, w);
      }
    }
  }

  /** Coalescing never creates a hole starting below the lowest start already present. */
  lemma {:induction false} CoalesceStartsFrom(hs: seq<Hole>, off: nat, len: nat, lo: int)
    requires StartsFrom(hs, lo) && off >= lo
    ensures StartsFrom(Coalesce(hs, off, len), lo)
    decreases |hs|
  {
    if hs != [] && End(hs[0]) != off && hs[0].offset != off + len && off >= hs[0].offset {
      CoalesceStartsFrom(hs[1..], off, len, lo);
    }
  }

  /** Coalescing keeps every hole inside the pool when the extent is inside it. */
  lemma {:induction false} CoalesceWithinPool(hs: seq<Hole>, off: nat, len: nat, n: nat)
    requires WithinPool(hs, n) && off + len <= n
    ensures WithinPool(Coalesce(hs, off, len), n)
    decreases |hs|
  {
    if hs != [] && End(hs[0]) != off && hs[0].offset != off + len && off >= hs[0].offset {
      CoalesceWithinPool(hs[1..], off, len, n);
    }
  }

  /** A hole placed in front of a well-formed sequence that starts past its end and a word beyond. */
  lemma WellFormedCons(h: Hole, t: seq<Hole>)
    requires h.size > 0 && WellFormed(t) && StartsFrom(t, End(h) + 1)
    ensures WellFormed([h] + t)
  {
    var r := [h] + t;
    assert forall j :: 1 <= j < |r| ==> r[j] == t[j - 1];
  }

  /** Dropping holes from the front keeps the invariant, and the rest start past the dropped ones. */
  lemma WellFormedSuffix(hs: seq<Hole>, m: nat)
    requires WellFormed(hs) && 0 < m <= |hs|
    ensures WellFormed(hs[m..])
    ensures StartsFrom(hs[m..], End(hs[m - 1]) + 1)
  {
    assert forall j :: 0 <= j < |hs[m..]| ==> hs[m..][j] == hs[j + m];
  }

  /** Left merge that also absorbs the next hole. */
  lemma CoalesceBridgeWellFormed(hs: seq<Hole>, off: nat, len: nat)
    requires WellFormed(hs) && |hs| > 1 && End(hs[0]) == off && hs[1].offset == off + len
    ensures WellFormed([Hole(hs[0].offset, hs[0].size + len + hs[1].size)] + hs[2..])
  {
    WellFormedSuffix(hs, 2);
    WellFormedCons(Hole(hs[0].offset, hs[0].size + len + hs[1].size), hs[2..]);
  }

  /** Left merge only: the grown hole still ends a word or more before the next one. */
  lemma CoalesceLeftWellFormed(hs: seq<Hole>, off: nat, len: nat)
    requires WellFormed(hs) && |hs| > 0 && len > 0 && Apart(hs, off, len) && End(hs[0]) == off
    requires !(|hs| > 1 && hs[1].offset == off + len)
    ensures WellFormed([Hole(hs[0].offset, hs[0].size + len)] + hs[1..])
  {
    WellFormedSuffix(hs, 1);
    if |hs| > 1 {
      assert off + len < hs[1].offset by {
        assert End(hs[0]) < hs[1].offset;
        assert End(hs[1]) <= off || off + len <= hs[1].offset;
      }
      assert forall j :: 0 <= j < |hs[1..]| ==> hs[1..][j] == hs[j + 1];
      assert StartsFrom(hs[1..], off + len + 1);
    }
    WellFormedCons(Hole(hs[0].offset, hs[0].size + len), hs[1..]);
  }

  /** Right merge: the grown hole ends where the old one did. */
  lemma CoalesceRightWellFormed(hs: seq<Hole>, off: nat, len: nat)
    requires WellFormed(hs) && |hs| > 0 && hs[0].offset == off + len
    ensures WellFormed([Hole(off, hs[0].size + len)] + hs[1..])
  {
    WellFormedSuffix(hs, 1);
    WellFormedCons(Hole(off, hs[0].size + len), hs[1..]);
  }

  /** Insertion in front of the first hole past the extent. */
  lemma CoalesceInsertWellFormed(hs: seq<Hole>, off: nat, len: nat)
    requires WellFormed(hs) && |hs| > 0 && len > 0 && Apart(hs, off, len)
    requires off < hs[0].offset && hs[0].offset != off + len
    ensures WellFormed([Hole(off, len)] + hs)
  {
    assert off + len < hs[0].offset by {
      assert End(hs[0]) <= off || off + len <= hs[0].offset;
    }
    assert StartsFrom(hs, off + len + 1) by {
      assert forall j :: 0 < j < |hs| ==> End(hs[0]) < hs[j].offset;
    }
    WellFormedCons(Hole(off, len), hs);
  }

  /**
    Coalescing a non-empty extent that overlaps no hole keeps the sequence
    sorted, non-overlapping and non-adjacent.
   */
  lemma {:induction false} CoalesceWellFormed(hs: seq<Hole>, off: nat, len: nat)
    requires WellFormed(hs) && len > 0 && Apart(hs, off, len)
    ensures WellFormed(Coalesce(hs, off, len))
    decreases |hs|, 1
  {
    if hs == [] {
    } else if End(hs[0]) == off {
      if |hs| > 1 && hs[1].offset == off + len {
        CoalesceBridgeWellFormed(hs, off, len);
      } else {
        CoalesceLeftWellFormed(hs, off, len);
      }
    } else if hs[0].offset == off + len {
      CoalesceRightWellFormed(hs, off, len);
    } else if off < hs[0].offset {
      CoalesceInsertWellFormed(hs, off, len);
    } else {
      CoalesceSkipWellFormed(hs, off, len);
    }
  }

  /** The extent lies past the first hole: that hole stays in front of the coalesced rest. */
  lemma {:induction false} CoalesceSkipWellFormed(hs: seq<Hole>, off: nat, len: nat)
    requires WellFormed(hs) && len > 0 && Apart(hs, off, len) && |hs| > 0
    requires End(hs[0]) != off && hs[0].offset != off + len && off >= hs[0].offset
    ensures WellFormed(Coalesce(hs, off, len))
    decreases |hs|, 0
  {
    assert End(hs[0]) < off;
    WellFormedSuffix(hs, 1);
    var rest := Coalesce(hs[1..], off, len);
    assert Coalesce(hs, off, len) == [hs[0]] + rest;
    CoalesceWellFormed(hs[1..], off, len);
    CoalesceStartsFrom(hs[1..], off, len, End(hs[0]) + 1);
    WellFormedCons(hs[0], rest);
  }

  // ---------------------------------------------------------------------------
  // Carving (allocate)

  /**
    Takes `len` words off the front of the first hole that starts at `off`;
    the hole is dropped when nothing of it is left. The size is reduced with
    `size_t` arithmetic, as in `MemoryManager/MemoryManager.cpp`. With no hole at `off` nothing changes.
   */
  function Carve(hs: seq<Hole>, off: nat, len: nat): (r: seq<Hole>)
    ensures |hs| - 1 <= |r| <= |hs|
    decreases |hs|
  {
    if hs == [] then
      []
    else if hs[0].offset == off then
      var rest := SizeT(hs[0].size - len);
      if rest == 0 then hs[1..] else [Hole(hs[0].offset + len, rest)] + hs[1..]
    else
      [hs[0]] + Carve(hs[1..], off, len)
  }

  /** Hole `k` starts at `off` and has room for `len` words. */
  predicate FitsAt(hs: seq<Hole>, k: nat, off: nat, len: nat) {
    && k < |hs|
    && hs[k].offset == off
    && len <= hs[k].size < SIZE_T_MODULUS
  }

  /** When no hole starts at `off`, carving changes nothing. */
  lemma {:induction false} CarveMissing(hs: seq<Hole>, off: nat, len: nat)
    requires forall i :: 0 <= i < |hs| ==> hs[i].offset != off
    ensures Carve(hs, off, len) == hs
    decreases |hs|
  {
    if hs != [] {
      CarveMissing(hs[1..], off, len);
    }
  }

  /** After carving, a word is free iff it was free and is not one of the carved words. */
  lemma {:induction false} CarveCovers(hs: seq<Hole>, k: nat, off: nat, len: nat, w: int)
    requires WellFormed(hs) && FitsAt(hs, k, off, len)
    ensures Covered(Carve(hs, off, len), w) <==> Covered(hs, w) && !InRange(off, len, w)
    decreases k
  {
    var r := Carve(hs, off, len);
    CoveredFirst(hs, w);
    if k == 0 {
      if Covered(hs[1..], w) {
        CoveredFrom(hs[1..], End(hs[0]) + 1, w);
      }
      WellFormedSuffix(hs, 1);
      if SizeT(hs[0].size - len) != 0 {
        CoveredFirst(r, w);
      }
    } else {
      assert hs[0].offset != off by {
        assert End(hs[0]) < hs[k].offset;
      }
      CoveredFirst(r, w);
      assert hs[1..][k - 1] == hs[k];
      CarveCovers(hs[1..], k - 1, off, len, w);
    }
  }

  /** Carving the front hole keeps the invariant. */
  lemma CarveFrontWellFormed(hs: seq<Hole>, off: nat, len: nat)
    requires WellFormed(hs) && FitsAt(hs, 0, off, len)
    ensures WellFormed(Carve(hs, off, len))
    ensures StartsFrom(Carve(hs, off, len), hs[0].offset)
  {
    WellFormedSuffix(hs, 1);
    assert StartsFrom(hs[1..], hs[0].offset);
    if hs[0].size != len {
      assert Carve(hs, off, len) == [Hole(off + len, hs[0].size - len)] + hs[1..];
      WellFormedCons(Hole(off + len, hs[0].size - len), hs[1..]);
    } else {
      assert Carve(hs, off, len) == hs[1..];
    }
  }

  /** Carving keeps the hole sequence sorted, non-overlapping and non-adjacent. */
  lemma {:induction false} CarveWellFormed(hs: seq<Hole>, k: nat, off: nat, len: nat)
    requires WellFormed(hs) && FitsAt(hs, k, off, len)
    ensures WellFormed(Carve(hs, off, len))
    ensures StartsFrom(Carve(hs, off, len), hs[0].offset)
    decreases k
  {
    if k == 0 {
      CarveFrontWellFormed(hs, off, len);
    } else {
      assert hs[0].offset != off by {
        assert End(hs[0]) < hs[k].offset;
      }
      WellFormedSuffix(hs, 1);
      assert hs[1..][k - 1] == hs[k];
      var rest := Carve(hs[1..], off, len);
      assert Carve(hs, off, len) == [hs[0]] + rest;
      CarveWellFormed(hs[1..], k - 1, off, len);
      WellFormedCons(hs[0], rest);
    }
  }

  /** Carving never moves the end of a hole, so the holes stay inside the pool. */
  lemma {:induction false} CarveWithinPool(hs: seq<Hole>, off: nat, len: nat, n: nat)
    requires WithinPool(hs, n)
    requires forall i :: 0 <= i < |hs| && hs[i].offset == off ==> len <= hs[i].size
    ensures WithinPool(Carve(hs, off, len), n)
    decreases |hs|
  {
    if hs != [] && hs[0].offset != off {
      CarveWithinPool(hs[1..], off, len, n);
    }
  }

  /** Round trip when the front hole was used up entirely. */
  lemma CoalesceRefillsFront(hs: seq<Hole>, off: nat, len: nat)
    requires WellFormed(hs) && |hs| > 0 && hs[0].offset == off && hs[0].size == len
    ensures Coalesce(hs[1..], off, len) == hs
  {
    if |hs| > 1 {
      assert End(hs[0]) < hs[1].offset;
      assert Coalesce(hs[1..], off, len) == [Hole(off, len)] + hs[1..];
    }
    assert [Hole(off, len)] + hs[1..] == hs;
  }

  /** Round trip when the front hole kept some words. */
  lemma CoalesceRegrowsFront(hs: seq<Hole>, off: nat, len: nat)
    requires |hs| > 0 && hs[0].offset == off && len < hs[0].size
    ensures Coalesce([Hole(off + len, hs[0].size - len)] + hs[1..], off, len) == hs
  {
    assert [Hole(off, hs[0].size)] + hs[1..] == hs;
  }

  /**
    Coalescing the extent just carved restores the hole sequence exactly:
    the carve and the coalesce undo each other.
   */
  lemma {:induction false} CoalesceUndoesCarve(hs: seq<Hole>, k: nat, off: nat, len: nat)
    requires WellFormed(hs) && FitsAt(hs, k, off, len) && len > 0
    ensures Coalesce(Carve(hs, off, len), off, len) == hs
    decreases k
  {
    if k == 0 {
      if hs[0].size == len {
        assert Carve(hs, off, len) == hs[1..];
        CoalesceRefillsFront(hs, off, len);
      } else {
        assert Carve(hs, off, len) == [Hole(off + len, hs[0].size - len)] + hs[1..];
        CoalesceRegrowsFront(hs, off, len);
      }
    } else {
      assert End(hs[0]) < hs[k].offset;
      assert hs[1..][k - 1] == hs[k];
      WellFormedSuffix(hs, 1);
      var c := Carve(hs[1..], off, len);
      assert Carve(hs, off, len) == [hs[0]] + c;
      CoalesceUndoesCarve(hs[1..], k - 1, off, len);
      assert Coalesce([hs[0]] + c, off, len) == [hs[0]] + Coalesce(c, off, len);
      assert [hs[0]] + hs[1..] == hs;
    }
  }

  /** Freeing words 4-7 between holes (0,4) and (8,4) merges everything into one hole (0,12). */
  lemma CoalesceBothSides()
    ensures Coalesce([Hole(0, 4), Hole(8, 4)], 4, 4) == [Hole(0, 12)]
  {
  }
}
