/**
  The earlier revision of the manager (`MemoryManager.cpp` at the top of the
  repository). It keeps the same hole list, but it has no allocation table,
  does not record the pool size, places requests first-fit itself, and its
  `free` does nothing. Its `shutdown` also zeroes the word size, which the
  later revision no longer does.
 */
module FirstFit {
  import opened Wrappers
  import opened HoleList
  import opened Extents
  import MemoryPool

  /** `initialized` stands for a non-null backing block. */
  datatype Pool = Pool(wordSize: nat, initialized: bool, holes: seq<Hole>)

  /** Allocation divides by the word size once the pool is initialized. */
  predicate Usable(p: Pool) {
    p.initialized ==> p.wordSize > 0
  }

  /** What a pool of this revision keeps true between calls, as far as it can. */
  predicate Valid(p: Pool) {
    && Usable(p)
    && WellFormed(p.holes)
    && WithinPool(p.holes, MemoryPool.MAX_WORDS)
    && (!p.initialized ==> p.holes == [])
  }

  /** The constructor: a word size and nothing else. */
  function NewPool(wordSize: nat): (p: Pool)
    ensures Valid(p) && !p.initialized && p.wordSize == wordSize
  {
    Pool(wordSize, false, [])
  }

  predicate AcceptsSize(p: Pool, n: nat) {
    n != 0 && p.wordSize != 0 && n <= MemoryPool.MAX_WORDS
  }

  // ---------------------------------------------------------------------------
  // Lifecycle, as written

  /** `shutdown`: drops the block and the holes, and resets the word size to 0. */
  function Shutdown(p: Pool): (q: Pool)
    ensures Valid(q) && !q.initialized && q.wordSize == 0
  {
    Pool(0, false, [])
  }

  /**
    `initialize(n)`: a rejected size changes nothing; otherwise any current
    block is shut down first and the hole `(0, n)` is appended.
   */
  function Initialize(p: Pool, n: nat): (q: Pool)
    ensures !AcceptsSize(p, n) ==> q == p
    ensures AcceptsSize(p, n) ==> q.initialized && |q.holes| > 0 && q.holes[|q.holes| - 1] == Hole(0, n)
    ensures AcceptsSize(p, n) && !p.initialized ==> q.wordSize == p.wordSize && q.holes == p.holes + [Hole(0, n)]
    ensures AcceptsSize(p, n) && p.initialized ==> q.wordSize == 0 && q.holes == [Hole(0, n)]
  {
    if n == 0 || p.wordSize == 0 then p
    else if n > MemoryPool.MAX_WORDS then p
    else
      var base := if p.initialized then Shutdown(p) else p;
      base.(initialized := true, holes := base.holes + [Hole(0, n)])
  }

  /** After a shutdown the word size is 0, so no later `initialize` is accepted. */
  lemma ShutdownDisables(p: Pool, n: nat, bytes: nat)
    ensures Initialize(Shutdown(p), n) == Shutdown(p)
    ensures Allocate(Shutdown(p), bytes) == (Shutdown(p), None)
  {
  }

  /** A fresh pool takes a valid size to exactly one hole covering it. */
  lemma InitializeFresh(p: Pool, n: nat)
    requires Valid(p) && !p.initialized && AcceptsSize(p, n)
    ensures Initialize(p, n).holes == [Hole(0, n)]
    ensures Valid(Initialize(p, n))
  {
  }

  /**
    Re-initializing an initialized pool leaves it initialized with word size
    0: the invariant breaks, and the next `allocate` divides by zero.
   */
  lemma ReinitializeZeroesWordSize()
    ensures Valid(Initialize(NewPool(4), 8))
    ensures Initialize(Initialize(NewPool(4), 8), 8).initialized
    ensures Initialize(Initialize(NewPool(4), 8), 8).wordSize == 0
    ensures !Valid(Initialize(Initialize(NewPool(4), 8), 8))
  {
  }

  // ---------------------------------------------------------------------------
  // Lifecycle, corrected

  /** Shutdown as the later revision does it: the word size survives. */
  function Release(p: Pool): (q: Pool)
    ensures !q.initialized && q.holes == [] && q.wordSize == p.wordSize
  {
    p.(initialized := false, holes := [])
  }

  /**
    `initialize(n)` with a shutdown that keeps the word size: it keeps the
    invariant, and an accepted size always leaves exactly one hole `(0, n)`.
   */
  function InitializeKeepingWordSize(p: Pool, n: nat): (q: Pool)
    ensures !AcceptsSize(p, n) ==> q == p
    ensures AcceptsSize(p, n) ==> q.initialized && q.wordSize == p.wordSize
    ensures Valid(p) ==> Valid(q)
    ensures Valid(p) && AcceptsSize(p, n) ==> q.holes == [Hole(0, n)]
  {
    if n == 0 || p.wordSize == 0 then p
    else if n > MemoryPool.MAX_WORDS then p
    else
      var base := if p.initialized then Release(p) else p;
      base.(initialized := true, holes := base.holes + [Hole(0, n)])
  }

  /** With the corrected initialize a re-initialized pool serves requests again. */
  lemma ReinitializeThenAllocate()
    ensures var q := InitializeKeepingWordSize(InitializeKeepingWordSize(NewPool(4), 8), 8);
            Allocate(q, 5) == (q.(holes := [Hole(2, 6)]), Some(0))
  {
    var p := InitializeKeepingWordSize(NewPool(4), 8);
    assert p == Pool(4, true, [Hole(0, 8)]);
    var q := InitializeKeepingWordSize(p, 8);
    assert q == Pool(4, true, [Hole(0, 8)]);
    assert MemoryPool.WordsFor(5, 4) == 2;
    assert FirstFrom(q.holes, 2, 0) == Some(0);
    assert CarveAt(q.holes, 0, 2) == [Hole(2, 6)];
  }

  // ---------------------------------------------------------------------------
  // First-fit allocation

  /** Hole `k` is the first hole with room for `words` words. */
  predicate FirstFits(hs: seq<Hole>, words: nat, k: nat) {
    && k < |hs|
    && hs[k].size >= words
    && forall j :: 0 <= j < k ==> hs[j].size < words
  }

  /** The first hole from index `k` on with room for `words` words, if any. */
  function FirstFrom(hs: seq<Hole>, words: nat, k: nat): (r: Option<nat>)
    requires k <= |hs|
    ensures r.Some? ==> k <= r.value < |hs| && hs[r.value].size >= words
    ensures r.Some? ==> forall j :: k <= j < r.value ==> hs[j].size < words
    ensures r.None? ==> forall j :: k <= j < |hs| ==> hs[j].size < words
    decreases |hs| - k
  {
    if k == |hs| then None
    else if hs[k].size >= words then Some(k)
    else FirstFrom(hs, words, k + 1)
  }

  /** Takes `words` words off the front of hole `k`, dropping the hole when it empties. */
  function CarveAt(hs: seq<Hole>, k: nat, words: nat): (r: seq<Hole>)
    requires k < |hs| && words <= hs[k].size
    ensures |r| == if hs[k].size == words then |hs| - 1 else |hs|
    ensures r[..k] == hs[..k]
    ensures r[|r| - (|hs| - k - 1)..] == hs[k + 1..]
    ensures words < hs[k].size ==> r[k] == Hole(hs[k].offset + words, hs[k].size - words)
  {
    var h := hs[k];
    var rest := if h.size == words then [] else [Hole(h.offset + words, h.size - words)];
    hs[..k] + rest + hs[k + 1..]
  }

  /**
    `allocate(bytes)`: null for a zero request, an uninitialized pool or no
    hole large enough; otherwise the first hole that fits gives up its front
    words and the result is that hole's offset in bytes.
   */
  function Allocate(p: Pool, bytes: nat): (res: (Pool, Option<nat>))
    requires Usable(p)
    ensures res.1.None? ==> res.0 == p
    ensures bytes == 0 || !p.initialized ==> res.1.None?
    ensures bytes > 0 && p.initialized ==>
      var words := MemoryPool.WordsFor(bytes, p.wordSize);
      && (res.1.None? <==> forall j :: 0 <= j < |p.holes| ==> p.holes[j].size < words)
      && (res.1.Some? ==> exists k: nat :: FirstFits(p.holes, words, k)
                                     && res.1.value == p.holes[k].offset * p.wordSize
                                     && res.0 == p.(holes := CarveAt(p.holes, k, words)))
  {
    if bytes == 0 || !p.initialized then (p, None)
    else
      var words := MemoryPool.WordsFor(bytes, p.wordSize);
      match FirstFrom(p.holes, words, 0)
      case None => (p, None)
      case Some(k) =>
        assert FirstFits(p.holes, words, k);
        (p.(holes := CarveAt(p.holes, k, words)), Some(p.holes[k].offset * p.wordSize))
  }

  /** `free` is a stub in this revision: whatever the address, no word goes back to the holes. */
  function Free(p: Pool, address: int): (q: Pool)
    ensures q.holes == p.holes && q.wordSize == p.wordSize && q.initialized == p.initialized
    ensures Valid(p) ==> Valid(q)
  {
    p
  }

  // ---------------------------------------------------------------------------
  // Relation to the later revision's carve

  /** Carving a later hole leaves the first one in front. */
  lemma CarveAtCons(hs: seq<Hole>, k: nat, words: nat)
    requires 0 < k < |hs| && words <= hs[k].size
    ensures CarveAt(hs, k, words) == [hs[0]] + CarveAt(hs[1..], k - 1, words)
  {
    assert hs[1..][..k - 1] == hs[1..k];
    assert hs[1..][k..] == hs[k + 1..];
    assert hs[..k] == [hs[0]] + hs[1..k];
  }

  /** On a well-formed list, carving by index agrees with carving by offset. */
  lemma {:induction false} CarveAtIsCarve(hs: seq<Hole>, k: nat, words: nat)
    requires WellFormed(hs) && k < |hs| && words <= hs[k].size < SIZE_T_MODULUS
    ensures CarveAt(hs, k, words) == Carve(hs, hs[k].offset, words)
    decreases k
  {
    var off := hs[k].offset;
    if k == 0 {
      assert SizeT(hs[0].size - words) == hs[0].size - words;
    } else {
      assert End(hs[0]) < off;
      assert Carve(hs, off, words) == [hs[0]] + Carve(hs[1..], off, words);
      WellFormedSuffix(hs, 1);
      CarveAtIsCarve(hs[1..], k - 1, words);
      CarveAtCons(hs, k, words);
    }
  }

  /** The hole `Allocate` picks, with the facts the proofs below need. */
  lemma AllocatedHole(p: Pool, bytes: nat) returns (k: nat, words: nat)
    requires Valid(p) && Allocate(p, bytes).1.Some?
    ensures p.initialized && p.wordSize > 0 && words == MemoryPool.WordsFor(bytes, p.wordSize) && words > 0
    ensures FirstFits(p.holes, words, k)
    ensures FitsAt(p.holes, k, p.holes[k].offset, words)
    ensures Allocate(p, bytes).1.value == p.holes[k].offset * p.wordSize
    ensures Allocate(p, bytes).0 == p.(holes := Carve(p.holes, p.holes[k].offset, words))
  {
    words := MemoryPool.WordsFor(bytes, p.wordSize);
    k :| FirstFits(p.holes, words, k)
         && Allocate(p, bytes).1.value == p.holes[k].offset * p.wordSize
         && Allocate(p, bytes).0 == p.(holes := CarveAt(p.holes, k, words));
    assert End(p.holes[k]) <= MemoryPool.MAX_WORDS;
    CarveAtIsCarve(p.holes, k, words);
  }

  /** Allocation keeps the holes sorted, apart, non-empty and inside the largest pool. */
  lemma AllocatePreservesValid(p: Pool, bytes: nat)
    requires Valid(p)
    ensures Valid(Allocate(p, bytes).0)
  {
    if Allocate(p, bytes).1.Some? {
      var k, words := AllocatedHole(p, bytes);
      CarveWellFormed(p.holes, k, p.holes[k].offset, words);
      CarveWithinPool(p.holes, p.holes[k].offset, words, MemoryPool.MAX_WORDS);
    }
  }

  /** After a successful allocation a word is free iff it was free and was not handed out. */
  lemma AllocateCovers(p: Pool, bytes: nat, w: int)
    requires Valid(p) && Allocate(p, bytes).1.Some?
    ensures var off := Allocate(p, bytes).1.value / p.wordSize;
            Covered(Allocate(p, bytes).0.holes, w)
            <==> Covered(p.holes, w) && !InRange(off, MemoryPool.WordsFor(bytes, p.wordSize), w)
  {
    var k, words := AllocatedHole(p, bytes);
    MemoryPool.MulDiv(p.holes[k].offset, p.wordSize);
    CarveCovers(p.holes, k, p.holes[k].offset, words, w);
  }

  /**
    Because `free` is a stub, allocating and then freeing the result does not
    give the words back: the first word handed out stays out of every hole.
   */
  lemma FreeLeaks(p: Pool, bytes: nat)
    requires Valid(p) && Allocate(p, bytes).1.Some?
    ensures var (q, r) := Allocate(p, bytes);
            Free(q, r.value) == q && Free(q, r.value).holes != p.holes
  {
    var k, words := AllocatedHole(p, bytes);
    var off := p.holes[k].offset;
    MemoryPool.MulDiv(off, p.wordSize);
    AllocateCovers(p, bytes, off);
    assert Contains(p.holes[k], off);
  }

  /** First fit takes the first hole that fits, not the best one: `(0, 4)` before `(10, 2)`. */
  lemma FirstFitExample()
    ensures Allocate(Pool(1, true, [Hole(0, 4), Hole(10, 2)]), 2)
            == (Pool(1, true, [Hole(2, 2), Hole(10, 2)]), Some(0))
  {
    var p := Pool(1, true, [Hole(0, 4), Hole(10, 2)]);
    assert MemoryPool.WordsFor(2, 1) == 2;
    assert FirstFrom(p.holes, 2, 0) == Some(0);
    assert CarveAt(p.holes, 0, 2) == [Hole(2, 2), Hole(10, 2)];
  }
}
