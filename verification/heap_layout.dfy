/**
 * The kernel heap as a list of chunks, abstracted from memory.
 *
 * Every chunk is a 12-byte header `{flags, size, next}` followed by `size`
 * payload bytes, and the next chunk starts right after that payload, so
 * the chunks tile the heap from its first page up to `kheap_end`.  This
 * module holds the allocator's behaviour on that list, with the defects of
 * `kmalloc` corrected (the as-written code is modelled in `KheapAsWritten`):
 *
 *  - first fit in list order;
 *  - a new header for the remainder only when the remainder can hold one,
 *    and the remainder keeps the old successor;
 *  - growing the heap page by page: a free last chunk absorbs each new
 *    page, an allocated last chunk is followed by a fresh free chunk made
 *    of the new page;
 *  - NULL once the frame allocator has no page left.
 *
 * `frames` is how many more pages the frame allocator can hand out; the
 * heap is assumed to have room for all of them below 4 GiB.
 */
module KheapLayout {
  import opened Options

  /**
   * The page size as an unbounded integer: the heap works on `nat`
   * addresses, while `Mmu.PGSIZE` is the same 4096 as a `bv32` for the
   * bit-level macros.  Likewise `Kheap.PageRoundUp` is `Mmu.PGROUNDUP`
   * restricted to addresses that do not wrap.
   */
  const PGSIZE: nat := 4096
  /** `sizeof(kheap_chunk_t)` on i386: three 32-bit fields. */
  const HEADER: nat := 12
  const ADDRESS_SPACE: nat := 0x1_0000_0000

  datatype Chunk = Chunk(addr: nat, inUse: bool, size: nat)

  datatype Layout = Layout(chunks: seq<Chunk>, kheapEnd: nat, frames: nat)

  /** What `kmalloc` hands back: the new layout and the payload address, or NULL. */
  datatype Result = Result(layout: Layout, ptr: Option<nat>)

  /** The first byte after the chunk's payload. */
  function End(c: Chunk): nat
  {
    c.addr + HEADER + c.size
  }

  function Last(cs: seq<Chunk>): Chunk
    requires |cs| > 0
  {
    cs[|cs| - 1]
  }

  /** Each chunk starts where the one before it ends. */
  ghost predicate Adjacent(cs: seq<Chunk>)
  {
    forall i, j :: 0 <= i && j == i + 1 && j < |cs| ==> cs[j].addr == End(cs[i])
  }

  /** The heap's invariant: the chunks tile the mapped pages from the first to `kheap_end`. */
  ghost predicate WellFormed(l: Layout)
  {
    && |l.chunks| > 0
    && 0 < l.chunks[0].addr && l.chunks[0].addr % PGSIZE == 0
    && Adjacent(l.chunks)
    && End(Last(l.chunks)) == l.kheapEnd + 1
    && (l.kheapEnd + 1) % PGSIZE == 0
    && l.kheapEnd + 1 + PGSIZE * l.frames <= ADDRESS_SPACE
  }

  /** No two neighbouring chunks are both free. */
  ghost predicate NoAdjacentFree(cs: seq<Chunk>)
  {
    forall i, j :: 0 <= i && j == i + 1 && j < |cs| ==> cs[i].inUse || cs[j].inUse
  }

  predicate Fits(c: Chunk, size: nat)
  {
    !c.inUse && c.size >= size
  }

  // ---------------------------------------------------------------------
  // Initialisation and growth.

  /** The heap `kheap_init` sets up: one free chunk spanning the first page. */
  function InitLayout(start: nat, frames: nat): (l: Layout)
    requires 0 < start && start % PGSIZE == 0 && start + PGSIZE * (frames + 1) <= ADDRESS_SPACE
    ensures WellFormed(l)
  {
    Layout([Chunk(start, false, PGSIZE - HEADER)], start + PGSIZE - 1, frames)
  }

  /** One more page for the last chunk. */
  function GrowLast(l: Layout): (r: Layout)
    requires WellFormed(l) && l.frames > 0
    ensures WellFormed(r) && r.frames == l.frames - 1 && r.kheapEnd == l.kheapEnd + PGSIZE
    ensures |r.chunks| == |l.chunks| && Last(r.chunks) == Last(l.chunks).(size := Last(l.chunks).size + PGSIZE)
    ensures forall i :: 0 <= i < |l.chunks| - 1 ==> r.chunks[i] == l.chunks[i]
  {
    var n := |l.chunks| - 1;
    var c := l.chunks[n];
    Layout(l.chunks[n := c.(size := c.size + PGSIZE)], l.kheapEnd + PGSIZE, l.frames - 1)
  }

  /** One more page after an allocated last chunk, as a fresh free chunk. */
  function AppendPage(l: Layout): (r: Layout)
    requires WellFormed(l) && l.frames > 0
    ensures WellFormed(r) && r.frames == l.frames - 1 && r.kheapEnd == l.kheapEnd + PGSIZE
    ensures r.chunks == l.chunks + [Chunk(l.kheapEnd + 1, false, PGSIZE - HEADER)]
  {
    Layout(l.chunks + [Chunk(l.kheapEnd + 1, false, PGSIZE - HEADER)], l.kheapEnd + PGSIZE, l.frames - 1)
  }

  // ---------------------------------------------------------------------
  // Allocation.

  /**
   * Allocating `size` bytes in chunk `k`: split off the rest as a free
   * chunk when it can hold a header, otherwise hand over the whole chunk.
   */
  function Place(cs: seq<Chunk>, k: nat, size: nat): (r: seq<Chunk>)
    requires k < |cs| && Fits(cs[k], size)
    ensures k < |r| && r[..k] == cs[..k]
    ensures r[k].addr == cs[k].addr && r[k].inUse
    ensures cs[k].size >= size + HEADER ==>
      && r[k].size == size
      && |r| == |cs| + 1
      && r[k + 1] == Chunk(cs[k].addr + HEADER + size, false, cs[k].size - size - HEADER)
      && r[k + 2..] == cs[k + 1..]
      && (forall j :: k < j < |cs| ==> r[j + 1] == cs[j])
    ensures forall j :: 0 <= j < k ==> r[j] == cs[j]
    ensures cs[k].size < size + HEADER ==> r == cs[k := cs[k].(inUse := true)]
  {
    var c := cs[k];
    if c.size >= size + HEADER then
      cs[..k] + [Chunk(c.addr, true, size), Chunk(c.addr + HEADER + size, false, c.size - size - HEADER)] + cs[k + 1..]
    else
      cs[k := c.(inUse := true)]
  }

  /** The search loop of `kmalloc` from chunk `k` on, growing the heap when it runs off the end. */
  function MallocFrom(l: Layout, k: nat, size: nat): (r: Result)
    requires WellFormed(l) && k < |l.chunks|
    ensures WellFormed(r.layout)
    ensures r.ptr.None? ==> r.layout.frames == 0
    decreases l.frames, |l.chunks| - k
  {
    var c := l.chunks[k];
    if Fits(c, size) then
      PlaceWellFormed(l, k, size);
      Result(l.(chunks := Place(l.chunks, k, size)), Some(c.addr + HEADER))
    else if k + 1 < |l.chunks| then MallocFrom(l, k + 1, size)
    else if l.frames == 0 then Result(l, None)
    else if c.inUse then MallocFrom(AppendPage(l), k + 1, size)
    else MallocFrom(GrowLast(l), k, size)
  }

  /** `kmalloc(size)`. */
  function Malloc(l: Layout, size: nat): (r: Result)
    requires WellFormed(l)
    ensures WellFormed(r.layout)
  {
    MallocFrom(l, 0, size)
  }

  lemma PlaceWellFormed(l: Layout, k: nat, size: nat)
    requires WellFormed(l) && k < |l.chunks| && Fits(l.chunks[k], size)
    ensures WellFormed(l.(chunks := Place(l.chunks, k, size)))
  {
    var cs := l.chunks;
    var r := Place(cs, k, size);
    if cs[k].size >= size + HEADER {
      forall i, j | 0 <= i && j == i + 1 && j < |r|
        ensures r[j].addr == End(r[i])
      {
        if j < k {
          assert r[i] == cs[i] && r[j] == cs[j];
        } else if j == k + 2 {
          assert r[j] == cs[k + 1];
        } else if j > k + 2 {
          assert r[i] == cs[i - 1] && r[j] == cs[j - 1];
        }
      }
      if k + 1 == |cs| {
        assert Last(r) == r[k + 1];
      } else {
        assert Last(r) == Last(cs);
      }
    }
  }

  // ---------------------------------------------------------------------
  // Freeing.

  /** The first chunk absorbs its free neighbour, header included. */
  function Merge(a: Chunk, b: Chunk): (r: Chunk)
    ensures r.addr == a.addr && !r.inUse
    ensures b.addr == End(a) ==> End(r) == End(b)
  {
    Chunk(a.addr, false, a.size + HEADER + b.size)
  }

  /** The coalescing pass of `kfree`, from chunk `j` to the end of the list. */
  function CoalesceFrom(cs: seq<Chunk>, j: nat): (r: seq<Chunk>)
    decreases 2 * |cs| - j
  {
    if j + 1 >= |cs| then cs
    else if !cs[j].inUse && !cs[j + 1].inUse then
      CoalesceFrom(cs[..j] + [Merge(cs[j], cs[j + 1])] + cs[j + 2..], j)
    else CoalesceFrom(cs, j + 1)
  }

  /** `kfree` of the payload of chunk `k`: ignored when the chunk is free already. */
  function Free(l: Layout, k: nat): (r: Layout)
    requires WellFormed(l) && k < |l.chunks|
    ensures WellFormed(r)
  {
    if !l.chunks[k].inUse then l
    else
      var cs := l.chunks[k := l.chunks[k].(inUse := false)];
      CoalesceKeepsTiling(cs, 0);
      l.(chunks := CoalesceFrom(cs, 0))
  }

  /** Coalescing keeps the first address, the adjacency and the end of the last chunk. */
  lemma {:induction false} CoalesceKeepsTiling(cs: seq<Chunk>, j: nat)
    requires |cs| > 0 && Adjacent(cs)
    ensures |CoalesceFrom(cs, j)| > 0 && Adjacent(CoalesceFrom(cs, j))
    ensures CoalesceFrom(cs, j)[0].addr == cs[0].addr
    ensures End(Last(CoalesceFrom(cs, j))) == End(Last(cs))
    decreases 2 * |cs| - j
  {
    if j + 1 >= |cs| {
    } else if !cs[j].inUse && !cs[j + 1].inUse {
      var m := cs[..j] + [Merge(cs[j], cs[j + 1])] + cs[j + 2..];
      MergeAdjacent(cs, j);
      assert m[0].addr == cs[0].addr;
      assert End(Last(m)) == End(Last(cs));
      CoalesceKeepsTiling(m, j);
    } else {
      CoalesceKeepsTiling(cs, j + 1);
    }
  }

  lemma MergeAdjacent(cs: seq<Chunk>, j: nat)
    requires Adjacent(cs) && j + 1 < |cs|
    ensures Adjacent(cs[..j] + [Merge(cs[j], cs[j + 1])] + cs[j + 2..])
  {
    var m := cs[..j] + [Merge(cs[j], cs[j + 1])] + cs[j + 2..];
    forall a, b | 0 <= a && b == a + 1 && b < |m|
      ensures m[b].addr == End(m[a])
    {
      if b < j {
        assert m[a] == cs[a] && m[b] == cs[b];
      } else if b == j + 1 {
        assert m[b] == cs[j + 2];
      } else if b > j + 1 {
        assert m[a] == cs[a + 1] && m[b] == cs[b + 1];
      }
    }
  }

  // ---------------------------------------------------------------------
  // Reference definitions.

  /** The first chunk in list order that is free and large enough, if any. */
  function FirstFit(cs: seq<Chunk>, size: nat): (r: Option<nat>)
    ensures r.Some? ==> r.value < |cs| && Fits(cs[r.value], size)
    ensures r.Some? ==> forall i :: 0 <= i < r.value ==> !Fits(cs[i], size)
    ensures r.None? ==> forall i :: 0 <= i < |cs| ==> !Fits(cs[i], size)
  {
    FirstFitFrom(cs, size, 0)
  }

  function FirstFitFrom(cs: seq<Chunk>, size: nat, k: nat): (r: Option<nat>)
    requires forall i :: 0 <= i < k && i < |cs| ==> !Fits(cs[i], size)
    ensures r.Some? ==> k <= r.value < |cs| && Fits(cs[r.value], size)
    ensures r.Some? ==> forall i :: 0 <= i < r.value ==> !Fits(cs[i], size)
    ensures r.None? ==> forall i :: 0 <= i < |cs| ==> !Fits(cs[i], size)
    decreases |cs| - k
  {
    if k >= |cs| then None
    else if Fits(cs[k], size) then Some(k)
    else FirstFitFrom(cs, size, k + 1)
  }

  /** The chunks in use, in list order. */
  function InUse(cs: seq<Chunk>): (r: seq<Chunk>)
    ensures |r| <= |cs|
    ensures forall i :: 0 <= i < |r| ==> r[i].inUse && r[i] in cs
  {
    if cs == [] then []
    else if cs[0].inUse then [cs[0]] + InUse(cs[1..])
    else InUse(cs[1..])
  }

  /** The heap grown by `n` pages, all absorbed by its free last chunk. */
  function GrowBy(l: Layout, n: nat): (r: Layout)
    requires WellFormed(l) && !Last(l.chunks).inUse && n <= l.frames
    ensures WellFormed(r) && !Last(r.chunks).inUse
  {
    var last := |l.chunks| - 1;
    var c := l.chunks[last];
    Layout(l.chunks[last := c.(size := c.size + PGSIZE * n)], l.kheapEnd + PGSIZE * n, l.frames - n)
  }

  /** How many pages a free last chunk of `have` bytes needs to hold `size` bytes. */
  function Grows(have: nat, size: nat): (g: nat)
    requires have < size
    ensures g > 0 && have + PGSIZE * g >= size && have + PGSIZE * (g - 1) < size
  {
    (size - have + PGSIZE - 1) / PGSIZE
  }

  /** One page grown leaves one page fewer to grow. */
  lemma GrowsStep(have: nat, size: nat)
    requires have < size
    ensures have + PGSIZE >= size ==> Grows(have, size) == 1
    ensures have + PGSIZE < size ==> Grows(have + PGSIZE, size) == Grows(have, size) - 1
  {
  }

  /** Growing by one page and then by `n - 1` is growing by `n`. */
  lemma GrowByStep(l: Layout, n: nat)
    requires WellFormed(l) && !Last(l.chunks).inUse && 0 < n <= l.frames
    ensures GrowBy(GrowLast(l), n - 1) == GrowBy(l, n)
  {
  }

  // ---------------------------------------------------------------------
  // Properties of kmalloc.

  /** The search passes over chunks that do not fit. */
  lemma {:induction false} SkipTo(l: Layout, j: nat, k: nat, size: nat)
    requires WellFormed(l) && j <= k < |l.chunks|
    requires forall i :: j <= i < k ==> !Fits(l.chunks[i], size)
    ensures MallocFrom(l, j, size) == MallocFrom(l, k, size)
    decreases k - j
  {
    if j < k {
      SkipTo(l, j + 1, k, size);
    }
  }

  /**
   * Without growing, `kmalloc` takes the first free chunk that is large
   * enough, marks it in use, returns the address right after its header
   * and leaves every chunk before it as it was.
   */
  lemma MallocFirstFit(l: Layout, size: nat)
    requires WellFormed(l) && FirstFit(l.chunks, size).Some?
    ensures var k := FirstFit(l.chunks, size).value;
      Malloc(l, size) == Result(l.(chunks := Place(l.chunks, k, size)), Some(l.chunks[k].addr + HEADER))
  {
    SkipTo(l, 0, FirstFit(l.chunks, size).value, size);
  }

  /**
   * When no chunk fits and the last one is in use, the answer is NULL if
   * no frame is left; otherwise the page after `kheap_end` becomes a new
   * free chunk, which then grows like any free last chunk until the
   * request fits there or the frames run out.
   */
  lemma MallocAppends(l: Layout, size: nat)
    requires WellFormed(l) && FirstFit(l.chunks, size).None? && Last(l.chunks).inUse
    ensures l.frames == 0 ==> Malloc(l, size) == Result(l, None)
    ensures l.frames > 0 && size <= PGSIZE - HEADER ==>
      var grown := AppendPage(l);
      Malloc(l, size) == Result(grown.(chunks := Place(grown.chunks, |l.chunks|, size)), Some(l.kheapEnd + 1 + HEADER))
    ensures l.frames > 0 && size > PGSIZE - HEADER ==>
      var grown := AppendPage(l);
      var g := Grows(PGSIZE - HEADER, size);
      && (g <= grown.frames ==>
            var big := GrowBy(grown, g);
            Malloc(l, size) == Result(big.(chunks := Place(big.chunks, |l.chunks|, size)), Some(l.kheapEnd + 1 + HEADER)))
      && (g > grown.frames ==> Malloc(l, size) == Result(GrowBy(grown, grown.frames), None))
  {
    var n := |l.chunks| - 1;
    SkipTo(l, 0, n, size);
    assert !Fits(l.chunks[n], size);
    if l.frames > 0 {
      var grown := AppendPage(l);
      assert MallocFrom(l, n, size) == MallocFrom(grown, n + 1, size);
      assert Last(grown.chunks) == grown.chunks[n + 1] == Chunk(l.kheapEnd + 1, false, PGSIZE - HEADER);
      if size > PGSIZE - HEADER {
        if Grows(PGSIZE - HEADER, size) <= grown.frames {
          GrowLoopFits(grown, size);
        } else {
          GrowLoopRunsOut(grown, size);
        }
      }
    }
  }

  /** The growing loop on a free last chunk that is too small, when the frames suffice. */
  lemma {:induction false} GrowLoopFits(l: Layout, size: nat)
    requires WellFormed(l) && !Last(l.chunks).inUse && Last(l.chunks).size < size
    requires Grows(Last(l.chunks).size, size) <= l.frames
    ensures var grown := GrowBy(l, Grows(Last(l.chunks).size, size));
      MallocFrom(l, |l.chunks| - 1, size) ==
        Result(grown.(chunks := Place(grown.chunks, |l.chunks| - 1, size)), Some(Last(l.chunks).addr + HEADER))
    decreases l.frames
  {
    var c := Last(l.chunks);
    var g := Grows(c.size, size);
    var l1 := GrowLast(l);
    assert l1 == GrowBy(l, 1);
    GrowOnce(l, size);
    GrowsStep(c.size, size);
    if c.size + PGSIZE < size {
      GrowLoopFits(l1, size);
      GrowByStep(l, g);
    }
  }

  /** A free last chunk that is too small absorbs one new page and the search looks at it again. */
  lemma GrowOnce(l: Layout, size: nat)
    requires WellFormed(l) && !Last(l.chunks).inUse && Last(l.chunks).size < size && l.frames > 0
    ensures |GrowLast(l).chunks| == |l.chunks|
    ensures Last(GrowLast(l).chunks) == Last(l.chunks).(size := Last(l.chunks).size + PGSIZE)
    ensures MallocFrom(l, |l.chunks| - 1, size) == MallocFrom(GrowLast(l), |l.chunks| - 1, size)
  {
  }

  /** The growing loop on a free last chunk that is too small, when the frames run out first. */
  lemma {:induction false} GrowLoopRunsOut(l: Layout, size: nat)
    requires WellFormed(l) && !Last(l.chunks).inUse && Last(l.chunks).size < size
    requires Grows(Last(l.chunks).size, size) > l.frames
    ensures MallocFrom(l, |l.chunks| - 1, size) == Result(GrowBy(l, l.frames), None)
    decreases l.frames
  {
    var c := Last(l.chunks);
    if l.frames == 0 {
      assert GrowBy(l, 0) == l;
    } else {
      var l1 := GrowLast(l);
      assert l1 == GrowBy(l, 1);
      GrowOnce(l, size);
      GrowsStep(c.size, size);
      GrowLoopRunsOut(l1, size);
      GrowByStep(l, l.frames);
    }
  }

  /**
   * When no chunk fits and the last one is free, the heap grows one page
   * at a time into that chunk: exactly `Grows` pages when the frame
   * allocator has them, after which the request is placed there;
   * otherwise every remaining page is taken and the answer is NULL.
   */
  lemma MallocGrows(l: Layout, size: nat)
    requires WellFormed(l) && FirstFit(l.chunks, size).None? && !Last(l.chunks).inUse
    ensures var g := Grows(Last(l.chunks).size, size);
      && (g <= l.frames ==>
            && Malloc(l, size).ptr == Some(Last(l.chunks).addr + HEADER)
            && Malloc(l, size).layout.kheapEnd == l.kheapEnd + PGSIZE * g
            && Malloc(l, size).layout.frames == l.frames - g)
      && (g > l.frames ==>
            && Malloc(l, size).ptr == None
            && Malloc(l, size).layout.kheapEnd == l.kheapEnd + PGSIZE * l.frames
            && Malloc(l, size).layout.frames == 0)
  {
    var n := |l.chunks| - 1;
    assert !Fits(l.chunks[n], size);
    SkipTo(l, 0, n, size);
    if Grows(Last(l.chunks).size, size) <= l.frames {
      GrowLoopFits(l, size);
    } else {
      GrowLoopRunsOut(l, size);
    }
  }

  /** A split conserves bytes: the request, one header and the remainder make up the old chunk. */
  lemma SplitConserves(cs: seq<Chunk>, k: nat, size: nat)
    requires k < |cs| && Fits(cs[k], size) && cs[k].size >= size + HEADER
    ensures Place(cs, k, size)[k].size + HEADER + Place(cs, k, size)[k + 1].size == cs[k].size
    ensures End(Place(cs, k, size)[k + 1]) == End(cs[k])
  {
  }

  // ---------------------------------------------------------------------
  // Properties of kfree.

  /** Freeing a chunk that is already free changes nothing. */
  lemma DoubleFree(l: Layout, k: nat)
    requires WellFormed(l) && k < |l.chunks| && !l.chunks[k].inUse
    ensures Free(l, k) == l
  {
  }

  ghost predicate NoAdjacentFreeBefore(cs: seq<Chunk>, j: nat)
  {
    forall i, i' :: 0 <= i && i' == i + 1 && i' <= j && i' < |cs| ==> cs[i].inUse || cs[i'].inUse
  }

  lemma {:induction false} CoalesceNoAdjacentFree(cs: seq<Chunk>, j: nat)
    requires NoAdjacentFreeBefore(cs, j)
    ensures NoAdjacentFree(CoalesceFrom(cs, j))
    decreases 2 * |cs| - j
  {
    if j + 1 >= |cs| {
    } else if !cs[j].inUse && !cs[j + 1].inUse {
      var m := cs[..j] + [Merge(cs[j], cs[j + 1])] + cs[j + 2..];
      forall i, i' | 0 <= i && i' == i + 1 && i' <= j && i' < |m|
        ensures m[i].inUse || m[i'].inUse
      {
        assert m[i] == cs[i];
        if i' < j {
          assert m[i'] == cs[i'];
        }
      }
      CoalesceNoAdjacentFree(m, j);
    } else {
      CoalesceNoAdjacentFree(cs, j + 1);
    }
  }

  lemma {:induction false} InUseAppend(a: seq<Chunk>, b: seq<Chunk>)
    ensures InUse(a + b) == InUse(a) + InUse(b)
  {
    if a == [] {
      assert a + b == b;
    } else {
      assert (a + b)[0] == a[0] && (a + b)[1..] == a[1..] + b;
      InUseAppend(a[1..], b);
    }
  }

  lemma {:induction false} CoalesceKeepsInUse(cs: seq<Chunk>, j: nat)
    ensures InUse(CoalesceFrom(cs, j)) == InUse(cs)
    decreases 2 * |cs| - j
  {
    if j + 1 >= |cs| {
    } else if !cs[j].inUse && !cs[j + 1].inUse {
      var m := cs[..j] + [Merge(cs[j], cs[j + 1])] + cs[j + 2..];
      assert cs == cs[..j] + [cs[j], cs[j + 1]] + cs[j + 2..];
      InUseAppend(cs[..j] + [cs[j], cs[j + 1]], cs[j + 2..]);
      InUseAppend(cs[..j], [cs[j], cs[j + 1]]);
      InUseAppend(cs[..j] + [Merge(cs[j], cs[j + 1])], cs[j + 2..]);
      InUseAppend(cs[..j], [Merge(cs[j], cs[j + 1])]);
      assert InUse([cs[j], cs[j + 1]]) == [] by {
        assert [cs[j], cs[j + 1]][1..] == [cs[j + 1]];
      }
      CoalesceKeepsInUse(m, j);
    } else {
      CoalesceKeepsInUse(cs, j + 1);
    }
  }

  /**
   * After `kfree` no two neighbouring chunks are both free, and the chunks
   * in use are exactly those before, minus the freed one, with their
   * headers as they were.
   */
  lemma FreeCoalesces(l: Layout, k: nat)
    requires WellFormed(l) && k < |l.chunks| && l.chunks[k].inUse
    ensures NoAdjacentFree(Free(l, k).chunks)
    ensures InUse(Free(l, k).chunks) == InUse(l.chunks[..k]) + InUse(l.chunks[k + 1..])
  {
    var cs := l.chunks[k := l.chunks[k].(inUse := false)];
    CoalesceNoAdjacentFree(cs, 0);
    CoalesceKeepsInUse(cs, 0);
    InUseAround(cs, k);
    assert cs[..k] == l.chunks[..k] && cs[k + 1..] == l.chunks[k + 1..];
  }

  /** A free chunk contributes nothing to the chunks in use. */
  lemma InUseAround(cs: seq<Chunk>, k: nat)
    requires k < |cs| && !cs[k].inUse
    ensures InUse(cs) == InUse(cs[..k]) + InUse(cs[k + 1..])
  {
    var pre, post := cs[..k], cs[k + 1..];
    assert cs == (pre + [cs[k]]) + post;
    InUseAppend(pre + [cs[k]], post);
    InUseAppend(pre, [cs[k]]);
    assert InUse([cs[k]]) == [] by {
      assert [cs[k]][1..] == [];
    }
    assert InUse(pre) + [] == InUse(pre);
  }

  /** Freeing keeps "no two free neighbours" when it already held. */
  lemma FreeKeepsNoAdjacentFree(l: Layout, k: nat)
    requires WellFormed(l) && k < |l.chunks| && NoAdjacentFree(l.chunks)
    ensures NoAdjacentFree(Free(l, k).chunks)
  {
    if l.chunks[k].inUse {
      FreeCoalesces(l, k);
    }
  }

  /** Coalescing a list without free neighbours changes nothing. */
  lemma {:induction false} CoalesceIdle(cs: seq<Chunk>, j: nat)
    requires NoAdjacentFree(cs)
    ensures CoalesceFrom(cs, j) == cs
    decreases 2 * |cs| - j
  {
    if j + 1 < |cs| {
      CoalesceIdle(cs, j + 1);
    }
  }

  /** The pass walks over pairs that are not both free. */
  lemma {:induction false} CoalesceAdvance(cs: seq<Chunk>, j: nat, k: nat)
    requires j <= k < |cs|
    requires forall i :: j <= i < k ==> cs[i].inUse || cs[i + 1].inUse
    ensures CoalesceFrom(cs, j) == CoalesceFrom(cs, k)
    decreases k - j
  {
    if j < k {
      CoalesceAdvance(cs, j + 1, k);
    }
  }

  /**
   * `kfree` undoes a `kmalloc` that needed no new page, on a heap without
   * free neighbours: the split-off remainder is merged back and the heap
   * is exactly as before.
   */
  lemma MallocFreeRoundTrip(l: Layout, size: nat)
    requires WellFormed(l) && NoAdjacentFree(l.chunks) && FirstFit(l.chunks, size).Some?
    ensures var k := FirstFit(l.chunks, size).value;
      && Malloc(l, size).ptr == Some(l.chunks[k].addr + HEADER)
      && k < |Malloc(l, size).layout.chunks|
      && Free(Malloc(l, size).layout, k) == l
  {
    var cs := l.chunks;
    var k := FirstFit(cs, size).value;
    MallocFirstFit(l, size);
    if cs[k].size >= size + HEADER {
      FreeUndoesSplit(cs, k, size);
    } else {
      var r := Place(cs, k, size);
      assert r[k := r[k].(inUse := false)] == cs;
      CoalesceIdle(cs, 0);
    }
  }

  /**
   * Freeing the first chunk that fits after it was split finds no free
   * neighbours before it and merges the remainder back.
   */
  lemma FreeUndoesSplit(cs: seq<Chunk>, k: nat, size: nat)
    requires NoAdjacentFree(cs) && FirstFit(cs, size) == Some(k) && cs[k].size >= size + HEADER
    ensures var r := Place(cs, k, size);
      CoalesceFrom(r[k := r[k].(inUse := false)], 0) == cs
  {
    var r := Place(cs, k, size);
    var freed := r[k := r[k].(inUse := false)];
    forall i | 0 <= i < k
      ensures freed[i].inUse || freed[i + 1].inUse
    {
      assert freed[i] == cs[i];
      if i + 1 < k {
        assert freed[i + 1] == cs[i + 1];
      }
    }
    CoalesceAdvance(freed, 0, k);
    assert freed[..k] + [Merge(freed[k], freed[k + 1])] + freed[k + 2..] == cs;
    CoalesceIdle(cs, k);
  }

  // ---------------------------------------------------------------------
  // The self-test `kheap_init` runs.

  lemma FirstFitIs(cs: seq<Chunk>, size: nat, k: nat)
    requires k < |cs| && Fits(cs[k], size)
    requires forall i :: 0 <= i < k ==> !Fits(cs[i], size)
    ensures FirstFit(cs, size) == Some(k)
  {
  }

  /**
   * The allocations and frees of `kheap_test` on a fresh heap at `start`:
   * three arrays of 200, 400 and 80 bytes are carved from the first page;
   * freeing the second and asking for 400 bytes again gives back the same
   * address; freeing the first two merges them into one free chunk; and a
   * 3400-byte string then grows the heap by exactly one page and is placed
   * in what used to be the free tail.
   */
  lemma KheapTest(start: nat, frames: nat)
    requires 0 < start && start % PGSIZE == 0 && frames >= 1
    requires start + PGSIZE * (frames + 1) <= ADDRESS_SPACE
    ensures var l0 := InitLayout(start, frames);
      var r1 := Malloc(l0, 200);
      var r2 := Malloc(r1.layout, 400);
      var r3 := Malloc(r2.layout, 80);
      && r1.ptr == Some(start + 12)
      && r2.ptr == Some(start + 224)
      && r3.ptr == Some(start + 636)
      && |r3.layout.chunks| == 4
      && var r5 := Malloc(Free(r3.layout, 1), 400);
      && r5.ptr == r2.ptr
      && |r5.layout.chunks| == 4
      && var l7 := Free(Free(r5.layout, 1), 0);
      && l7.chunks == [Chunk(start, false, 612), Chunk(start + 624, true, 80), Chunk(start + 716, false, 3368)]
      && var r8 := Malloc(l7, 3400);
      && r8.ptr == Some(start + 728)
      && r8.layout.kheapEnd == l0.kheapEnd + PGSIZE
      && r8.layout.frames == frames - 1
  {
    var end := start + PGSIZE - 1;
    var l0 := InitLayout(start, frames);
    var l1 := Layout([Chunk(start, true, 200), Chunk(start + 212, false, 3872)], end, frames);
    assert Malloc(l0, 200) == Result(l1, Some(start + 12)) by {
      FirstFitIs(l0.chunks, 200, 0);
      MallocFirstFit(l0, 200);
    }

    var l2 := Layout([Chunk(start, true, 200), Chunk(start + 212, true, 400), Chunk(start + 624, false, 3460)], end, frames);
    assert Malloc(l1, 400) == Result(l2, Some(start + 224)) by {
      FirstFitIs(l1.chunks, 400, 1);
      MallocFirstFit(l1, 400);
    }

    var l3 := Layout([Chunk(start, true, 200), Chunk(start + 212, true, 400), Chunk(start + 624, true, 80),
                      Chunk(start + 716, false, 3368)], end, frames);
    assert Malloc(l2, 80) == Result(l3, Some(start + 636)) by {
      FirstFitIs(l2.chunks, 80, 2);
      MallocFirstFit(l2, 80);
    }

    var l4 := l3.(chunks := l3.chunks[1 := Chunk(start + 212, false, 400)]);
    assert Free(l3, 1) == l4 by {
      CoalesceIdle(l4.chunks, 0);
    }

    assert Malloc(l4, 400) == Result(l3, Some(start + 224)) by {
      FirstFitIs(l4.chunks, 400, 1);
      MallocFirstFit(l4, 400);
    }

    var l7 := l3.(chunks := [Chunk(start, false, 612), Chunk(start + 624, true, 80), Chunk(start + 716, false, 3368)]);
    assert Free(l4, 0) == l7 by {
      var l6 := [Chunk(start, false, 200), Chunk(start + 212, false, 400), Chunk(start + 624, true, 80),
                 Chunk(start + 716, false, 3368)];
      assert Free(l4, 0).chunks == CoalesceFrom(l6, 0);
      assert l6[..0] + [Merge(l6[0], l6[1])] + l6[2..] == l7.chunks;
      CoalesceIdle(l7.chunks, 0);
    }

    assert Grows(3368, 3400) == 1;
    MallocGrows(l7, 3400);
  }

}
