/**
  The pool of the later revision (`MemoryManager/MemoryManager.cpp`): its
  lifecycle, the allocation engine and the pool invariant. Addresses are
  byte offsets from the (abstract) start of the backing block; the null
  pointer is `None`.
 */
module MemoryPool {
  import opened Wrappers
  import opened HoleList
  import opened Extents
  import opened Placement

  /** Largest pool `initialize` accepts, in words. */
  const MAX_WORDS: nat := 65536

  /**
    The manager's state. `initialized` stands for a non-null backing block;
    `allocations` maps an allocation's byte offset to its size in words.
   */
  datatype Pool = Pool(
    wordSize: nat,
    initialized: bool,
    sizeInWords: nat,
    holes: seq<Hole>,
    allocations: map<nat, nat>)

  /** Word `w` belongs to a live allocation. */
  predicate Allocated(allocs: map<nat, nat>, wordSize: nat, w: int)
    requires wordSize > 0
  {
    exists a :: a in allocs && InRange(a / wordSize, allocs[a], w)
  }

  /** Every allocation starts on a word boundary, is non-empty and lies inside the pool. */
  predicate AllocationsInPool(allocs: map<nat, nat>, wordSize: nat, n: nat)
    requires wordSize > 0
  {
    forall a :: a in allocs ==> a % wordSize == 0 && allocs[a] > 0 && a / wordSize + allocs[a] <= n
  }

  /** No two allocations share a word. */
  predicate AllocationsDisjoint(allocs: map<nat, nat>, wordSize: nat)
    requires wordSize > 0
  {
    forall a, b :: a in allocs && b in allocs && a != b ==>
      a / wordSize + allocs[a] <= b / wordSize || b / wordSize + allocs[b] <= a / wordSize
  }

  /** Holes and allocations together tile the pool: each word is in exactly one of the two. */
  predicate Tiled(holes: seq<Hole>, allocs: map<nat, nat>, wordSize: nat, n: nat)
    requires wordSize > 0
  {
    forall w :: 0 <= w < n ==> (Covered(holes, w) <==> !Allocated(allocs, wordSize, w))
  }

  /** The pool invariant every operation preserves. */
  predicate Valid(p: Pool) {
    if !p.initialized then
      p.holes == [] && p.allocations == map[]
    else
      && p.wordSize > 0
      && 0 < p.sizeInWords <= MAX_WORDS
      && WellFormed(p.holes)
      && WithinPool(p.holes, p.sizeInWords)
      && AllocationsInPool(p.allocations, p.wordSize, p.sizeInWords)
      && AllocationsDisjoint(p.allocations, p.wordSize)
      && Tiled(p.holes, p.allocations, p.wordSize, p.sizeInWords)
  }

  /** The word size is set whenever the pool is in use (the constructor's argument). */
  predicate Usable(p: Pool) {
    p.initialized ==> p.wordSize > 0
  }

  // ---------------------------------------------------------------------------
  // Lifecycle

  /** A freshly constructed manager: no block, no holes, no allocations. */
  function NewPool(wordSize: nat): (p: Pool)
    ensures Valid(p) && !p.initialized && p.wordSize == wordSize
  {
    Pool(wordSize, false, 0, [], map[])
  }

  /** `shutdown`: releases the block and clears both collections; word size and word count stay. */
  function Shutdown(p: Pool): (q: Pool)
    ensures Valid(q) && !q.initialized
    ensures q.wordSize == p.wordSize && q.sizeInWords == p.sizeInWords
  {
    p.(initialized := false, holes := [], allocations := map[])
  }

  /** `initialize` rejects an empty pool, a zero word size and more than 65536 words. */
  predicate AcceptsSize(p: Pool, n: nat) {
    n != 0 && p.wordSize != 0 && n <= MAX_WORDS
  }

  /**
    `initialize(n)`: on a rejected size nothing happens; otherwise a pool in
    use is shut down first, then a hole spanning the whole pool is appended.
   */
  function Initialize(p: Pool, n: nat): (q: Pool)
    ensures !AcceptsSize(p, n) ==> q == p
    ensures AcceptsSize(p, n) ==>
      && q.initialized && q.sizeInWords == n && q.wordSize == p.wordSize
      && (forall w :: 0 <= w < n ==> Covered(q.holes, w))
  {
    if n == 0 || p.wordSize == 0 then p
    else if n > MAX_WORDS then p
    else
      var base := if p.initialized then Shutdown(p) else p;
      var q := base.(initialized := true, holes := base.holes + [Hole(0, n)], sizeInWords := n);
      var last := q.holes[|q.holes| - 1];
      assert forall w :: 0 <= w < n ==> Contains(last, w);
      q
  }

  /** From a valid state, an accepted `initialize` leaves one hole over the whole pool and no allocations. */
  lemma InitializeFresh(p: Pool, n: nat)
    requires Valid(p) && AcceptsSize(p, n)
    ensures Initialize(p, n).holes == [Hole(0, n)]
    ensures Initialize(p, n).allocations == map[]
    ensures Valid(Initialize(p, n))
  {
    var q := Initialize(p, n);
    assert q.holes == [Hole(0, n)];
    forall w | 0 <= w < n
      ensures Covered(q.holes, w) <==> !Allocated(q.allocations, q.wordSize, w)
    {
      assert Contains(q.holes[0], w);
    }
  }

  /** `initialize` on a pool in use behaves as `shutdown` followed by `initialize`. */
  lemma InitializeRestarts(p: Pool, n: nat)
    requires Valid(p)
    ensures Initialize(p, n) == (if AcceptsSize(p, n) then Initialize(Shutdown(p), n) else p)
  {
  }

  /** `shutdown` is idempotent and leaves the pool ready for another `initialize`. */
  lemma ShutdownIdempotent(p: Pool, n: nat)
    ensures Shutdown(Shutdown(p)) == Shutdown(p)
    ensures AcceptsSize(p, n) ==> Initialize(Shutdown(p), n).initialized
  {
  }

  // ---------------------------------------------------------------------------
  // Allocation

  /** Request size in words: `sizeInBytes` divided by the word size, rounded up. */
  function WordsFor(bytes: nat, wordSize: nat): (words: nat)
    requires wordSize > 0
    ensures words * wordSize >= bytes
    ensures words > 0 ==> (words - 1) * wordSize < bytes
    ensures bytes > 0 ==> words > 0
  {
    var q := bytes / wordSize;
    var words := if bytes % wordSize > 0 then q + 1 else q;
    assert bytes == q * wordSize + bytes % wordSize;
    assert words * wordSize == if bytes % wordSize > 0 then q * wordSize + wordSize else q * wordSize;
    words
  }

  /**
    `allocate(sizeInBytes)`: converts the request to words, asks the strategy
    for an offset in the encoded hole list, carves the request off the hole
    starting there and records the allocation under its byte offset, which it
    returns. A zero request, an unused pool, a request larger than the pool
    and a "no fit" answer all return `None` and change nothing.
   */
  function Allocate(p: Pool, s: Strategy, bytes: nat): (res: (Pool, Option<nat>))
    requires Usable(p)
    ensures res.1.None? ==> res.0 == p
    ensures bytes == 0 || !p.initialized ==> res.1.None?
    ensures res.1.Some? ==>
      && p.initialized
      && res.1.value % p.wordSize == 0
      && WordsFor(bytes, p.wordSize) <= p.sizeInWords
      && res.0.allocations == p.allocations[res.1.value := WordsFor(bytes, p.wordSize)]
      && res.0.holes == Carve(p.holes, res.1.value / p.wordSize, WordsFor(bytes, p.wordSize))
      && res.0.wordSize == p.wordSize && res.0.sizeInWords == p.sizeInWords && res.0.initialized
    ensures p.initialized ==>
      var words := WordsFor(bytes, p.wordSize);
      var r := Choose(s, words, GetList(p.holes));
      && (res.1.Some? <==> bytes > 0 && words <= p.sizeInWords && r != NO_FIT)
      && (res.1.Some? ==> res.1.value == r * p.wordSize)
  {
    if bytes == 0 || !p.initialized then (p, None)
    else
      var words := WordsFor(bytes, p.wordSize);
      if words > p.sizeInWords then (p, None)
      else
        var r := Choose(s, words, GetList(p.holes));
        if r == NO_FIT then (p, None)
        else
          var off := r as nat;
          var addr := off * p.wordSize;
          MulDiv(off, p.wordSize);
          (p.(holes := Carve(p.holes, off, words), allocations := p.allocations[addr := words]), Some(addr))
  }

  /** Multiplying a word offset by the word size is undone by dividing by it. */
  lemma MulDiv(off: nat, wordSize: nat)
    requires wordSize > 0
    ensures (off * wordSize) / wordSize == off
    ensures (off * wordSize) % wordSize == 0
  {
    var a := off * wordSize;
    var d := off - a / wordSize;
    assert d * wordSize == a % wordSize;
    MulBound(d, wordSize);
  }

  /** A non-zero multiple of a positive number is at least that number in size. */
  lemma MulBound(d: int, m: int)
    requires m > 0
    ensures d >= 1 ==> d * m >= m
    ensures d <= -1 ==> d * m <= -m
  {
  }

  /** A word offset inside the pool gives a byte offset inside the block. */
  lemma MulInside(off: nat, n: nat, wordSize: nat)
    requires wordSize > 0 && off < n
    ensures off * wordSize < n * wordSize
  {
    assert n * wordSize == off * wordSize + (n - off) * wordSize;
  }

  // ---------------------------------------------------------------------------
  // Release

  /** `free(address)` acts: the pool is in use, the address is inside the block and is a live allocation. */
  predicate Releases(p: Pool, addr: int) {
    && p.initialized
    && 0 <= addr < p.sizeInWords * p.wordSize
    && addr as nat in p.allocations
  }

  /**
    `free(address)`: ignored unless `Releases(p, address)`; otherwise removes
    the allocation and coalesces its words back into the hole sequence.
   */
  function Free(p: Pool, addr: int): (q: Pool)
    requires Usable(p)
    ensures !Releases(p, addr) ==> q == p
    ensures Releases(p, addr) ==>
      && q.allocations == p.allocations - {addr as nat}
      && q.wordSize == p.wordSize && q.sizeInWords == p.sizeInWords && q.initialized
      && forall w :: Covered(q.holes, w) <==>
           Covered(p.holes, w) || InRange(addr / p.wordSize, p.allocations[addr as nat], w)
  {
    if !p.initialized then p
    else if addr < 0 || addr >= p.sizeInWords * p.wordSize then p
    else if addr as nat !in p.allocations then p
    else
      var len := p.allocations[addr as nat];
      var off := addr / p.wordSize;
      assert forall w :: Covered(Coalesce(p.holes, off, len), w) <==> Covered(p.holes, w) || InRange(off, len, w) by {
        forall w ensures Covered(Coalesce(p.holes, off, len), w) <==> Covered(p.holes, w) || InRange(off, len, w) {
          CoalesceCovers(p.holes, off, len, w);
        }
      }
      p.(allocations := p.allocations - {addr as nat}, holes := Coalesce(p.holes, off, len))
  }

  /** A second `free` of the same address changes nothing: double frees are harmless. */
  lemma DoubleFree(p: Pool, addr: int)
    requires Usable(p)
    ensures Free(Free(p, addr), addr) == Free(p, addr)
  {
  }

  // ---------------------------------------------------------------------------
  // Allocation table facts

  lemma AllocatedInsert(allocs: map<nat, nat>, wordSize: nat, a: nat, len: nat, w: int)
    requires wordSize > 0 && a !in allocs
    ensures Allocated(allocs[a := len], wordSize, w) <==> Allocated(allocs, wordSize, w) || InRange(a / wordSize, len, w)
  {
    var m := allocs[a := len];
    if Allocated(m, wordSize, w) {
      var b :| b in m && InRange(b / wordSize, m[b], w);
      if b != a {
        assert b in allocs && InRange(b / wordSize, allocs[b], w);
      }
    }
    if Allocated(allocs, wordSize, w) {
      var b :| b in allocs && InRange(b / wordSize, allocs[b], w);
      assert b in m && InRange(b / wordSize, m[b], w);
    }
    if InRange(a / wordSize, len, w) {
      assert a in m && InRange(a / wordSize, m[a], w);
    }
  }

  lemma AllocatedRemove(allocs: map<nat, nat>, wordSize: nat, a: nat, w: int)
    requires wordSize > 0 && a in allocs && AllocationsDisjoint(allocs, wordSize)
    ensures Allocated(allocs - {a}, wordSize, w) <==> Allocated(allocs, wordSize, w) && !InRange(a / wordSize, allocs[a], w)
  {
    var m := allocs - {a};
    if Allocated(m, wordSize, w) {
      var b :| b in m && InRange(b / wordSize, m[b], w);
      assert b in allocs && b != a && m[b] == allocs[b];
      assert a / wordSize + allocs[a] <= b / wordSize || b / wordSize + allocs[b] <= a / wordSize;
      assert !InRange(a / wordSize, allocs[a], w);
    }
    if Allocated(allocs, wordSize, w) && !InRange(a / wordSize, allocs[a], w) {
      var b :| b in allocs && InRange(b / wordSize, allocs[b], w);
      assert b in m && InRange(b / wordSize, m[b], w);
    }
  }

  // ---------------------------------------------------------------------------
  // Invariant preservation

  /** A word that is free under the invariant belongs to no allocation. */
  lemma FreeWordUnallocated(p: Pool, w: nat, i: nat, a: nat)
    requires Valid(p) && p.initialized
    requires i < |p.holes| && Contains(p.holes[i], w)
    requires a in p.allocations
    ensures !InRange(a / p.wordSize, p.allocations[a], w)
  {
    assert Covered(p.holes, w);
    assert w < p.sizeInWords by {
      assert End(p.holes[i]) <= p.sizeInWords;
    }
  }

  /** The hole a strategy picks in a valid pool starts at the reported offset and is large enough. */
  lemma ChosenHole(p: Pool, s: Strategy, words: nat) returns (k: nat)
    requires Valid(p) && p.initialized && words > 0
    requires Choose(s, words, GetList(p.holes)) != NO_FIT
    ensures FitsAt(p.holes, k, Choose(s, words, GetList(p.holes)) as nat, words)
  {
    var list := GetList(p.holes);
    var r := Choose(s, words, list);
    var j :| 0 <= j < list[0] && r == OffsetAt(list, j) && SizeAt(list, j) >= words;
    k := j;
    var h := p.holes[k];
    assert End(h) <= p.sizeInWords <= MAX_WORDS;
    assert h.size != U16_MODULUS by {
      assert U16(U16_MODULUS) == 0;
    }
  }

  /** The words of a hole are disjoint from every allocation. */
  lemma HoleApartFromAllocations(p: Pool, k: nat, len: nat, b: nat)
    requires Valid(p) && p.initialized && k < |p.holes| && 0 < len <= p.holes[k].size
    requires b in p.allocations
    ensures p.allocations[b] == 0 || b / p.wordSize + p.allocations[b] <= p.holes[k].offset
      || p.holes[k].offset + len <= b / p.wordSize
  {
    var off := p.holes[k].offset;
    var start := b / p.wordSize;
    if p.allocations[b] > 0 && start + p.allocations[b] > off && off + len > start {
      var w := if start < off then off else start;
      FreeWordUnallocated(p, w, k, b);
    }
  }

  /** Carving `words` words off the front of hole k and recording them as an allocation keeps the invariant. */
  lemma CarveKeepsValid(p: Pool, k: nat, words: nat)
    requires Valid(p) && p.initialized && words > 0
    requires k < |p.holes| && FitsAt(p.holes, k, p.holes[k].offset, words)
    ensures
      var off := p.holes[k].offset;
      Valid(p.(holes := Carve(p.holes, off, words), allocations := p.allocations[off * p.wordSize := words]))
  {
    var ws := p.wordSize;
    var hs := p.holes;
    var off := hs[k].offset;
    var addr := off * ws;
    var q := p.(holes := Carve(hs, off, words), allocations := p.allocations[addr := words]);
    MulDiv(off, ws);
    assert forall i :: 0 <= i < |hs| && hs[i].offset == off ==> i == k;
    CarveWellFormed(hs, k, off, words);
    CarveWithinPool(hs, off, words, p.sizeInWords);
    assert addr !in p.allocations by {
      if addr in p.allocations {
        FreeWordUnallocated(p, off, k, addr);
      }
    }
    assert AllocationsInPool(q.allocations, ws, q.sizeInWords);
    forall b | b in p.allocations
      ensures b / ws + p.allocations[b] <= off || off + words <= b / ws
    {
      HoleApartFromAllocations(p, k, words, b);
    }
    assert AllocationsDisjoint(q.allocations, ws);
    forall w | 0 <= w < p.sizeInWords
      ensures Covered(q.holes, w) <==> !Allocated(q.allocations, ws, w)
    {
      CarveCovers(hs, k, off, words, w);
      AllocatedInsert(p.allocations, ws, addr, words, w);
    }
  }

  /** `allocate` preserves the pool invariant. */
  lemma AllocatePreservesValid(p: Pool, s: Strategy, bytes: nat)
    requires Valid(p)
    ensures Valid(Allocate(p, s, bytes).0)
  {
    var res := Allocate(p, s, bytes);
    if res.1.Some? {
      var words := WordsFor(bytes, p.wordSize);
      var k := ChosenHole(p, s, words);
      CarveKeepsValid(p, k, words);
    }
  }

  /** `free` preserves the pool invariant. */
  lemma FreePreservesValid(p: Pool, addr: int)
    requires Valid(p)
    ensures Valid(Free(p, addr))
  {
    if Releases(p, addr) {
      var q := Free(p, addr);
      var ws := p.wordSize;
      var a := addr as nat;
      var len := p.allocations[a];
      var off := a / ws;
      forall i | 0 <= i < |p.holes|
        ensures End(p.holes[i]) <= off || off + len <= p.holes[i].offset
      {
        HoleApartFromAllocations(p, i, p.holes[i].size, a);
      }
      CoalesceWellFormed(p.holes, off, len);
      CoalesceWithinPool(p.holes, off, len, p.sizeInWords);
      forall w | 0 <= w < p.sizeInWords
        ensures Covered(q.holes, w) <==> !Allocated(q.allocations, ws, w)
      {
        CoalesceCovers(p.holes, off, len, w);
        AllocatedRemove(p.allocations, ws, a, w);
      }
    }
  }

  /**
    `allocate` followed by `free` of the returned address restores the exact
    previous pool: the hole sequence and the allocation table.
   */
  lemma AllocateFreeRoundTrip(p: Pool, s: Strategy, bytes: nat)
    requires Valid(p)
    ensures Allocate(p, s, bytes).1.Some? ==> Free(Allocate(p, s, bytes).0, Allocate(p, s, bytes).1.value) == p
  {
    var res := Allocate(p, s, bytes);
    if res.1.Some? {
      var q := res.0;
      var ws := p.wordSize;
      var words := WordsFor(bytes, ws);
      var off := Choose(s, words, GetList(p.holes)) as nat;
      var addr := off * ws;
      MulDiv(off, ws);
      var k := ChosenHole(p, s, words);
      assert addr !in p.allocations by {
        if addr in p.allocations {
          FreeWordUnallocated(p, off, k, addr);
        }
      }
      assert off < p.sizeInWords by {
        assert End(p.holes[k]) <= p.sizeInWords;
      }
      MulInside(off, p.sizeInWords, ws);
      assert Releases(q, addr);
      CoalesceUndoesCarve(p.holes, k, off, words);
      assert q.allocations - {addr} == p.allocations;
    }
  }

  // ---------------------------------------------------------------------------
  // Examples, and the largest pool

  /**
    A pool of the largest accepted size never serves a request: its one hole
    is encoded with size 0, so neither strategy sees room in it.
   */
  lemma FullPoolRefusesAllocation(s: Strategy, wordSize: nat, bytes: nat)
    requires wordSize > 0
    ensures Allocate(Initialize(NewPool(wordSize), MAX_WORDS), s, bytes).1.None?
  {
    var p := Initialize(NewPool(wordSize), MAX_WORDS);
    InitializeFresh(NewPool(wordSize), MAX_WORDS);
    FullPoolHoleEncodesSizeZero();
    var list := GetList(p.holes);
    assert list == [1, 0, 0];
    if bytes > 0 {
      var words := WordsFor(bytes, wordSize);
      assert !BestCandidate(list, words, 0) && !WorstCandidate(list, words, 0);
      assert Choose(s, words, list) == NO_FIT;
    }
  }

  /** Largest pool whose one hole the 16-bit hole list can describe. */
  const MAX_ENCODABLE_WORDS: nat := U16_MODULUS - 1

  /**
    `initialize(n)` with the size limit lowered to what the hole list can
    describe; otherwise it is `initialize`.
   */
  function InitializeEncodable(p: Pool, n: nat): (q: Pool)
    ensures !AcceptsSize(p, n) || n > MAX_ENCODABLE_WORDS ==> q == p
    ensures AcceptsSize(p, n) && n <= MAX_ENCODABLE_WORDS ==> q.initialized && q.sizeInWords == n
  {
    if n > MAX_ENCODABLE_WORDS then p else Initialize(p, n)
  }

  /** A list holding one hole at offset 0 gives that hole to any request that fits it. */
  lemma SingleHoleChosen(list: seq<nat>, n: nat, words: nat)
    requires list == [1, 0, n] && words <= n && n > 0
    ensures Choose(WorstFitStrategy, words, list) == 0
    ensures n < SENTINEL ==> Choose(BestFitStrategy, words, list) == 0
  {
    assert WellFormedList(list);
    assert WorstCandidate(list, words, 0);
    var w := WorstFit(words, list);
    assert w == 0;
    if n < SENTINEL {
      assert BestCandidate(list, words, 0);
      var b := BestFit(words, list);
      assert b == 0;
    }
  }

  /** An 8-word pool of 1-byte words serves a 3-byte request from word 0, with either strategy. */
  lemma AllocateExample(s: Strategy)
    ensures var (q, r) := Allocate(Initialize(NewPool(1), 8), s, 3);
            r == Some(0) && q.holes == [Hole(3, 5)] && q.allocations == map[0 := 3]
  {
    var p := Initialize(NewPool(1), 8);
    assert p == Pool(1, true, 8, [Hole(0, 8)], map[]);
    assert WordsFor(3, 1) == 3;
    var list := GetList(p.holes);
    assert list == [1, 0, 8];
    SingleHoleChosen(list, 8, 3);
    assert Carve(p.holes, 0, 3) == [Hole(3, 5)];
  }

  /** An initialized pool that is one hole of at most 65535 words serves any request that fits it. */
  lemma SingleHoleServes(q: Pool, bytes: nat)
    requires Usable(q) && q.initialized && q.holes == [Hole(0, q.sizeInWords)]
    requires 0 < bytes && WordsFor(bytes, q.wordSize) <= q.sizeInWords <= MAX_ENCODABLE_WORDS
    ensures Allocate(q, WorstFitStrategy, bytes).1 == Some(0)
    ensures q.sizeInWords < SENTINEL ==> Allocate(q, BestFitStrategy, bytes).1 == Some(0)
  {
    var list := GetList(q.holes);
    assert list == [1, 0, q.sizeInWords];
    SingleHoleChosen(list, q.sizeInWords, WordsFor(bytes, q.wordSize));
  }

  /**
    With the lowered limit, a freshly initialized pool serves every request
    that fits in it: worst-fit always, best-fit below 10000 words.
   */
  lemma EncodablePoolServes(p: Pool, n: nat, bytes: nat)
    requires Valid(p) && AcceptsSize(p, n) && n <= MAX_ENCODABLE_WORDS
    requires 0 < bytes && WordsFor(bytes, p.wordSize) <= n
    ensures Allocate(InitializeEncodable(p, n), WorstFitStrategy, bytes).1 == Some(0)
    ensures n < SENTINEL ==> Allocate(InitializeEncodable(p, n), BestFitStrategy, bytes).1 == Some(0)
  {
    InitializeFresh(p, n);
    SingleHoleServes(Initialize(p, n), bytes);
  }
}
