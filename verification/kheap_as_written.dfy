/**
 * `kmalloc` as the source writes it, next to the corrected `Kheap.Kmalloc`.
 *
 * The search walks the `next` pointers in memory; the chunk list it
 * refines is carried along only to show that the walk ends.  Once a chunk
 * is chosen, the header at `curr + 12 + size` is written whenever its flags
 * word reads 0, with the remainder size computed in 32-bit arithmetic and a
 * NULL successor, and then the chosen chunk's header is overwritten.
 *
 * Heap pages are mapped from the first chunk up to `kheap_end`; a word that
 * reaches past `kheap_end` is taken to be a page fault.  `page_alloc` is not
 * checked for failure in the source, so running out of frames inside
 * `kheap_grow` is an outcome of its own.
 */
module KheapAsWritten {
  import opened Options
  import opened KheapLayout
  import opened Kheap

  /** How a call of the as-written `kmalloc` ends. */
  datatype Outcome =
    | Returned(heap: Heap, ptr: nat)
    | PageFault(addr: nat)
    | OutOfFrames(heap: Heap)

  /** The 4-byte word at `a` lies inside the mapped heap pages. */
  predicate Mapped(h: Heap, a: int)
  {
    h.head <= a && a + 4 <= h.kheapEnd + 1
  }

  /** A `uint32_t` result. */
  function U32(x: int): Word
  {
    x % ADDRESS_SPACE
  }

  /**
   * The end of `kmalloc` once `curr` has been chosen.  `next` is
   * `curr + 12 + size` in 32-bit arithmetic; its flags word is read, and if
   * it is 0 the remainder header is written there; then `curr` gets `size`,
   * flag 1 and `next`.
   */
  function Finish(h: Heap, curr: nat, size: Word): (r: Outcome)
    ensures r.PageFault? ==> !Mapped(h, r.addr)
    ensures r.Returned? ==> r.ptr == curr + HEADER && r.heap == h.(mem := r.heap.mem)
    ensures r.Returned? ==> Load(r.heap.mem, curr) == 1 && Load(r.heap.mem, curr + 4) == size
  {
    var have := Load(h.mem, curr + 4);
    var next := U32(curr + size + HEADER);
    if !Mapped(h, next) then PageFault(next)
    else
      var blank := Load(h.mem, next) == 0;
      if blank && !Mapped(h, next + 4) then PageFault(next + 4)
      else if blank && !Mapped(h, next + 8) then PageFault(next + 8)
      else
        var m := if blank then h.mem[next + 4 := U32(have - size - HEADER)][next := 0][next + 8 := NULL] else h.mem;
        Returned(h.(mem := m[curr + 4 := size][curr := 1][curr + 8 := next]), curr + HEADER)
  }

  /**
   * The search loop from `curr`, the header of chunk `k` of `l`.  At the end
   * of the list the heap grows and the size of `curr` goes up by a page
   * whether or not `curr` is free, and the loop stays on `curr`.
   */
  function Search(h: Heap, l: Layout, k: nat, curr: nat, size: Word): (r: Outcome)
    requires Refines(h, l) && k < |l.chunks| && curr == l.chunks[k].addr
    ensures r.Returned? ==> r.ptr >= h.head + HEADER > NULL
    ensures r.OutOfFrames? ==> r.heap.frames == 0
    decreases h.frames, |l.chunks| - k
  {
    assert StoredAt(h.mem, l.chunks, k);
    var flags := Load(h.mem, curr);
    var have := Load(h.mem, curr + 4);
    var next := Load(h.mem, curr + 8);
    if flags == 0 && have >= size then
      if k == 0 then Finish(h, curr, size)
      else AddrsIncrease(l.chunks, 0, k); Finish(h, curr, size)
    else if next != NULL then
      Search(h, l, k + 1, next, size)
    else if h.frames == 0 then OutOfFrames(h)
    else
      GrowLastChunkRefines(h, l);
      Search(GrowLastChunk(h, curr), GrowLast(l), k, curr, size)
  }

  /** `kmalloc(size)` as written: there is no path on which it returns NULL. */
  function KmallocAsWritten(h: Heap, l: Layout, size: Word): (r: Outcome)
    requires Refines(h, l)
    ensures r.Returned? ==> r.ptr != NULL
    ensures r.OutOfFrames? ==> r.heap.frames == 0
  {
    Search(h, l, 0, h.head, size)
  }

  // ---------------------------------------------------------------------
  // Properties of the search.

  /** The search passes over chunks that do not fit, as the corrected one does. */
  lemma {:induction false} SearchSkips(h: Heap, l: Layout, j: nat, k: nat, size: Word)
    requires Refines(h, l) && j <= k < |l.chunks|
    requires forall i :: j <= i < k ==> !Fits(l.chunks[i], size)
    ensures Search(h, l, j, l.chunks[j].addr, size) == Search(h, l, k, l.chunks[k].addr, size)
    decreases k - j
  {
    if j < k {
      assert StoredAt(h.mem, l.chunks, j);
      assert !Fits(l.chunks[j], size);
      SearchSkips(h, l, j + 1, k, size);
    }
  }

  /** On an allocated last chunk the search grows the heap until no frame is left. */
  lemma {:induction false} SearchExhausts(h: Heap, l: Layout, size: Word)
    requires Refines(h, l) && Last(l.chunks).inUse
    ensures Search(h, l, |l.chunks| - 1, Last(l.chunks).addr, size).OutOfFrames?
    decreases h.frames
  {
    assert StoredAt(h.mem, l.chunks, |l.chunks| - 1);
    if h.frames > 0 {
      GrowLastChunkRefines(h, l);
      SearchExhausts(GrowLastChunk(h, Last(l.chunks).addr), GrowLast(l), size);
    }
  }

  /**
   * When no chunk fits and the last one is allocated, the as-written
   * `kmalloc` never returns: it consumes every frame and then calls
   * `kheap_grow` with none left.
   */
  lemma AllocatedLastNeverReturns(h: Heap, l: Layout, size: Word)
    requires Refines(h, l) && FirstFit(l.chunks, size).None? && Last(l.chunks).inUse
    ensures KmallocAsWritten(h, l, size).OutOfFrames?
  {
    SearchSkips(h, l, 0, |l.chunks| - 1, size);
    SearchExhausts(h, l, size);
  }

  /** The header of chunk `k` as the search reads it, inside the mapped pages. */
  lemma HeaderOf(h: Heap, l: Layout, k: nat)
    requires Refines(h, l) && k < |l.chunks|
    ensures h.head <= l.chunks[k].addr && End(l.chunks[k]) <= h.kheapEnd + 1 <= ADDRESS_SPACE
    ensures Load(h.mem, l.chunks[k].addr) == (if l.chunks[k].inUse then 1 else 0)
    ensures Load(h.mem, l.chunks[k].addr + 4) == l.chunks[k].size
    ensures Load(h.mem, l.chunks[k].addr + 8) == NextAddr(l.chunks, k)
  {
    assert StoredAt(h.mem, l.chunks, k);
    if k > 0 {
      AddrsIncrease(l.chunks, 0, k);
    }
    if k < |l.chunks| - 1 {
      AddrsIncrease(l.chunks, k, |l.chunks| - 1);
    }
  }

  /** The search stops at a chunk that fits. */
  lemma SearchStops(h: Heap, l: Layout, k: nat, size: Word)
    requires Refines(h, l) && k < |l.chunks| && Fits(l.chunks[k], size)
    ensures Search(h, l, k, l.chunks[k].addr, size) == Finish(h, l.chunks[k].addr, size)
  {
    HeaderOf(h, l, k);
  }

  /** The as-written search stops at the first fit, as the corrected one does. */
  lemma SearchFirstFit(h: Heap, l: Layout, k: nat, size: Word)
    requires Refines(h, l) && FirstFit(l.chunks, size) == Some(k)
    ensures KmallocAsWritten(h, l, size) == Finish(h, l.chunks[k].addr, size)
  {
    SearchSkips(h, l, 0, k, size);
    SearchStops(h, l, k, size);
  }

  /** `Finish` writes the words of the two headers and nothing else. */
  lemma FinishKeeps(h: Heap, curr: nat, size: Word, a: int)
    requires Finish(h, curr, size).Returned?
    requires !(curr <= a <= curr + 8)
    requires var next := U32(curr + size + HEADER); !(next <= a <= next + 8)
    ensures Load(Finish(h, curr, size).heap.mem, a) == Load(h.mem, a)
  {
  }

  /** The would-be next header starts less than 4 bytes before the end of the mapped pages. */
  lemma FinishFaults(h: Heap, curr: nat, size: Word)
    requires 0 < h.head && h.kheapEnd + 1 <= ADDRESS_SPACE
    requires curr + HEADER + size <= h.kheapEnd + 1 < curr + HEADER + size + 4
    ensures Finish(h, curr, size) == PageFault(U32(curr + HEADER + size))
  {
    if curr + HEADER + size == ADDRESS_SPACE {
      assert U32(curr + HEADER + size) == 0;
    } else {
      assert U32(curr + HEADER + size) == curr + HEADER + size;
    }
  }

  /**
   * With room for the whole next header and its flags word reading 0, the
   * header is written with a NULL successor and `curr` is linked to it.
   */
  lemma FinishWritesNext(h: Heap, curr: nat, size: Word)
    requires h.head <= curr && curr + HEADER + size + HEADER <= h.kheapEnd + 1 <= ADDRESS_SPACE
    requires Load(h.mem, curr + HEADER + size) == 0
    ensures var rest := curr + HEADER + size;
      var r := Finish(h, curr, size);
      && r == Returned(r.heap, curr + HEADER)
      && Load(r.heap.mem, curr + 8) == rest
      && Load(r.heap.mem, rest) == 0
      && Load(r.heap.mem, rest + 4) == U32(Load(h.mem, curr + 4) - size - HEADER)
      && Load(r.heap.mem, rest + 8) == NULL
  {
  }

  /**
   * When the first fit is the last chunk and leaves fewer than 4 bytes
   * over, the flags word of the would-be next header lies past
   * `kheap_end`, and reading it faults.
   */
  lemma TightLastFaults(h: Heap, l: Layout, size: Word)
    requires Refines(h, l) && FirstFit(l.chunks, size) == Some(|l.chunks| - 1)
    requires Last(l.chunks).size < size + 4
    ensures KmallocAsWritten(h, l, size) == PageFault(U32(Last(l.chunks).addr + HEADER + size))
  {
    var n := |l.chunks| - 1;
    SearchFirstFit(h, l, n, size);
    HeaderOf(h, l, n);
    FinishFaults(h, l.chunks[n].addr, size);
  }

  /**
   * When the chosen chunk has fewer than `size + 12` bytes and the word at
   * `curr + 12 + size` reads 0, the remainder size written there wraps
   * around to at least 2^32 - 12.
   */
  lemma ShortRemainderWraps(h: Heap, curr: nat, size: Word)
    requires size <= Load(h.mem, curr + 4) < size + HEADER
    requires curr + HEADER + size < ADDRESS_SPACE
    requires Load(h.mem, curr + HEADER + size) == 0
    requires Finish(h, curr, size).Returned?
    ensures Load(Finish(h, curr, size).heap.mem, curr + HEADER + size + 4) >= ADDRESS_SPACE - HEADER
  {
  }

  /**
   * When the first fit is split, the remainder header gets a NULL
   * successor, so every chunk after the split one drops out of the list.
   */
  lemma SplitDropsTail(h: Heap, l: Layout, k: nat, size: Word)
    requires Refines(h, l) && FirstFit(l.chunks, size) == Some(k)
    requires l.chunks[k].size >= size + HEADER
    requires Load(h.mem, l.chunks[k].addr + HEADER + size) == 0
    ensures var rest := l.chunks[k].addr + HEADER + size;
      var r := KmallocAsWritten(h, l, size);
      && r.Returned?
      && Load(r.heap.mem, l.chunks[k].addr + 8) == rest
      && Load(r.heap.mem, rest + 8) == NULL
  {
    SplitLinks(h, l, k, size);
    SearchFirstFit(h, l, k, size);
  }

  /** The words `Finish` writes when the first fit is split over a zero word. */
  lemma SplitLinks(h: Heap, l: Layout, k: nat, size: Word)
    requires Refines(h, l) && k < |l.chunks| && l.chunks[k].size >= size + HEADER
    requires Load(h.mem, l.chunks[k].addr + HEADER + size) == 0
    ensures var a := l.chunks[k].addr;
      var f := Finish(h, a, size);
      && f.Returned?
      && Load(f.heap.mem, a + 8) == a + HEADER + size
      && Load(f.heap.mem, a + HEADER + size + 8) == NULL
  {
    HeaderOf(h, l, k);
    FinishWritesNext(h, l.chunks[k].addr, size);
  }

  /** Two memories hold the same value in every word. */
  ghost predicate SameWords(m: Memory, m': Memory)
  {
    forall x :: Load(m, x) == Load(m', x)
  }

  /** The chunk-list view of a heap depends only on the values of its words. */
  lemma RefinesSameWords(h: Heap, m': Memory, l: Layout)
    requires Refines(h, l) && SameWords(h.mem, m')
    ensures Refines(h.(mem := m'), l)
  {
    forall i | 0 <= i < |l.chunks|
      ensures StoredAt(m', l.chunks, i)
    {
      assert StoredAt(h.mem, l.chunks, i);
    }
  }

  /** A split whose remainder header lands on a zero word writes the corrected split's words. */
  lemma FinishSplitWords(h: Heap, a: nat, have: nat, size: Word)
    requires Load(h.mem, a + 4) == have && Load(h.mem, a + 8) == NULL && size + HEADER <= have
    requires h.head <= a && a + HEADER + have <= h.kheapEnd + 1 <= ADDRESS_SPACE
    requires Load(h.mem, a + HEADER + size) == 0
    ensures var r := Finish(h, a, size);
      && r.Returned? && r.ptr == a + HEADER && r.heap == h.(mem := r.heap.mem)
      && SameWords(r.heap.mem, AllocateIn(h.mem, a, have, size))
  {
    var next := a + HEADER + size;
    assert U32(a + size + HEADER) == next;
    assert U32(have - size - HEADER) == have - size - HEADER;
    var m := h.mem[next + 4 := have - size - HEADER][next := 0][next + 8 := NULL];
    assert Finish(h, a, size) == Returned(h.(mem := m[a + 4 := size][a := 1][a + 8 := next]), a + HEADER);
  }

  /** An exact fit whose successor is in use writes the corrected allocation's words. */
  lemma FinishExactWords(h: Heap, a: nat, size: Word)
    requires Load(h.mem, a + 4) == size && Load(h.mem, a + 8) == a + HEADER + size
    requires Load(h.mem, a + HEADER + size) == 1
    requires h.head <= a && a + HEADER + size + 4 <= h.kheapEnd + 1 <= ADDRESS_SPACE
    ensures var r := Finish(h, a, size);
      && r.Returned? && r.ptr == a + HEADER && r.heap == h.(mem := r.heap.mem)
      && SameWords(r.heap.mem, AllocateIn(h.mem, a, size, size))
  {
    assert U32(a + size + HEADER) == a + HEADER + size;
  }

  /**
   * When the first fit is the last chunk, leaves room for a remainder
   * header, and the word where that header goes reads 0, the as-written
   * `kmalloc` writes the words the corrected allocation writes, and so
   * agrees with the chunk-list model.
   */
  lemma SplitLastAgrees(h: Heap, l: Layout, size: Word)
    requires Refines(h, l) && FirstFit(l.chunks, size) == Some(|l.chunks| - 1)
    requires Last(l.chunks).size >= size + HEADER
    requires Load(h.mem, Last(l.chunks).addr + HEADER + size) == 0
    ensures End(Last(l.chunks)) <= ADDRESS_SPACE
    ensures var c := Last(l.chunks);
      var r := KmallocAsWritten(h, l, size);
      && r.Returned? && r.ptr == c.addr + HEADER
      && r.heap == h.(mem := r.heap.mem)
      && SameWords(r.heap.mem, AllocateIn(h.mem, c.addr, c.size, size))
    ensures var r := KmallocAsWritten(h, l, size);
      r.Returned? && Some(r.ptr) == Malloc(l, size).ptr && Refines(r.heap, Malloc(l, size).layout)
  {
    var n := |l.chunks| - 1;
    var c := l.chunks[n];
    HeaderOf(h, l, n);
    SearchFirstFit(h, l, n, size);
    FinishSplitWords(h, c.addr, c.size, size);
    Agrees(h, l, n, size);
  }

  /**
   * When the first fit has exactly the requested size and its successor
   * is in use, the as-written `kmalloc` reads that successor's flags, skips
   * the remainder header, and agrees with the corrected allocation.
   */
  lemma ExactFitAgrees(h: Heap, l: Layout, k: nat, size: Word)
    requires Refines(h, l) && FirstFit(l.chunks, size) == Some(k)
    requires l.chunks[k].size == size && k + 1 < |l.chunks| && l.chunks[k + 1].inUse
    ensures End(l.chunks[k]) <= ADDRESS_SPACE
    ensures var c := l.chunks[k];
      var r := KmallocAsWritten(h, l, size);
      && r.Returned? && r.ptr == c.addr + HEADER
      && r.heap == h.(mem := r.heap.mem)
      && SameWords(r.heap.mem, AllocateIn(h.mem, c.addr, c.size, size))
    ensures var r := KmallocAsWritten(h, l, size);
      r.Returned? && Some(r.ptr) == Malloc(l, size).ptr && Refines(r.heap, Malloc(l, size).layout)
  {
    var c := l.chunks[k];
    HeaderOf(h, l, k);
    HeaderOf(h, l, k + 1);
    SearchFirstFit(h, l, k, size);
    FinishExactWords(h, c.addr, size);
    Agrees(h, l, k, size);
  }

  /** Writing the corrected allocation's words at the first fit is the chunk-list model's answer. */
  lemma Agrees(h: Heap, l: Layout, k: nat, size: Word)
    requires Refines(h, l) && FirstFit(l.chunks, size) == Some(k)
    requires var r := Finish(h, l.chunks[k].addr, size);
      && r.Returned? && r.ptr == l.chunks[k].addr + HEADER && r.heap == h.(mem := r.heap.mem)
      && End(l.chunks[k]) <= ADDRESS_SPACE
      && SameWords(r.heap.mem, AllocateIn(h.mem, l.chunks[k].addr, l.chunks[k].size, size))
    ensures var r := Finish(h, l.chunks[k].addr, size);
      Some(r.ptr) == Malloc(l, size).ptr && Refines(r.heap, Malloc(l, size).layout)
  {
    var c := l.chunks[k];
    var r := Finish(h, c.addr, size);
    var m' := AllocateIn(h.mem, c.addr, c.size, size);
    AllocateInRefines(h, l, k, size);
    assert SameWords(m', r.heap.mem);
    RefinesSameWords(h.(mem := m'), r.heap.mem, l.(chunks := Place(l.chunks, k, size)));
    MallocFirstFit(l, size);
  }

  // ---------------------------------------------------------------------
  // Concrete inputs for each defect, against the corrected model.

  /**
   * A free 104-byte chunk followed by an allocated one, and a request for
   * 100 bytes: the remainder size -8 is stored as 0xFFFFFFF8 into the
   * successor's flags word, and NULL into its size word.  The corrected
   * model hands over the whole chunk and leaves the successor alone.
   */
  lemma UnderflowExample(h: Heap, s: nat, frames: nat)
    requires Refines(h, Layout([Chunk(s, false, 104), Chunk(s + 116, true, 3968)], s + PGSIZE - 1, frames))
    requires Load(h.mem, s + 112) == 0
    ensures var l := Layout([Chunk(s, false, 104), Chunk(s + 116, true, 3968)], s + PGSIZE - 1, frames);
      var r := KmallocAsWritten(h, l, 100);
      && r.Returned? && r.ptr == s + HEADER
      && Load(r.heap.mem, s + 116) == 0xFFFF_FFF8
      && Load(r.heap.mem, s + 120) == NULL
      && Malloc(l, 100) == Result(l.(chunks := [Chunk(s, true, 104), Chunk(s + 116, true, 3968)]), Some(s + HEADER))
  {
    var l := Layout([Chunk(s, false, 104), Chunk(s + 116, true, 3968)], s + PGSIZE - 1, frames);
    SearchStops(h, l, 0, 100);
    HeaderOf(h, l, 0);
    FinishWritesNext(h, s, 100);
    FirstFitIs(l.chunks, 100, 0);
    MallocFirstFit(l, 100);
  }

  /**
   * The heap of the source's own test after `kfree(arr2)`, and a request
   * for 100 bytes: the list becomes start, start + 212, start + 324, NULL,
   * and the chunks at start + 624 and start + 716 are no longer reachable.
   * The corrected model links the remainder to start + 624.
   */
  lemma LostTailExample(h: Heap, s: nat, frames: nat)
    requires Refines(h, Layout([Chunk(s, true, 200), Chunk(s + 212, false, 400), Chunk(s + 624, true, 80),
                                Chunk(s + 716, false, 3368)], s + PGSIZE - 1, frames))
    requires Load(h.mem, s + 324) == 0
    ensures var l := Layout([Chunk(s, true, 200), Chunk(s + 212, false, 400), Chunk(s + 624, true, 80),
                             Chunk(s + 716, false, 3368)], s + PGSIZE - 1, frames);
      var r := KmallocAsWritten(h, l, 100);
      && r.Returned? && r.ptr == s + 224
      && Load(r.heap.mem, s + 8) == s + 212
      && Load(r.heap.mem, s + 220) == s + 324
      && Load(r.heap.mem, s + 332) == NULL
      && Malloc(l, 100).layout.chunks == [Chunk(s, true, 200), Chunk(s + 212, true, 100), Chunk(s + 324, false, 288),
                                          Chunk(s + 624, true, 80), Chunk(s + 716, false, 3368)]
  {
    var l := Layout([Chunk(s, true, 200), Chunk(s + 212, false, 400), Chunk(s + 624, true, 80),
                     Chunk(s + 716, false, 3368)], s + PGSIZE - 1, frames);
    var f := Finish(h, s + 212, 100);
    assert KmallocAsWritten(h, l, 100) == f by {
      FirstFitIs(l.chunks, 100, 1);
      SearchFirstFit(h, l, 1, 100);
    }
    assert f.Returned? && f.ptr == s + 224 && Load(f.heap.mem, s + 220) == s + 324 && Load(f.heap.mem, s + 332) == NULL by {
      FinishWritesNext(h, s + 212, 100);
    }
    assert Load(f.heap.mem, s + 8) == s + 212 by {
      assert StoredAt(h.mem, l.chunks, 0);
      assert U32(s + 212 + 100 + HEADER) == s + 324;
      FinishKeeps(h, s + 212, 100, s + 8);
    }
    assert Malloc(l, 100).layout.chunks == [Chunk(s, true, 200), Chunk(s + 212, true, 100), Chunk(s + 324, false, 288),
                                            Chunk(s + 624, true, 80), Chunk(s + 716, false, 3368)] by {
      FirstFitIs(l.chunks, 100, 1);
      MallocFirstFit(l, 100);
    }
  }

  /**
   * A free 400-byte chunk whose payload still holds the value 7 at
   * offset 100 from an earlier allocation, followed by an allocated chunk,
   * and a request for 100 bytes: the guard reads 7 as the flags of a chunk
   * in use, writes no remainder header, and links `curr` to that stale
   * word, so the list continues through a header whose flags read 7.  The
   * corrected model writes a free remainder header there.
   */
  lemma StalePayloadExample(h: Heap, s: nat, frames: nat)
    requires Refines(h, Layout([Chunk(s, true, 200), Chunk(s + 212, false, 400), Chunk(s + 624, true, 3460)],
                               s + PGSIZE - 1, frames))
    requires Load(h.mem, s + 324) == 7
    ensures var l := Layout([Chunk(s, true, 200), Chunk(s + 212, false, 400), Chunk(s + 624, true, 3460)],
                            s + PGSIZE - 1, frames);
      var r := KmallocAsWritten(h, l, 100);
      && r.Returned? && r.ptr == s + 224
      && Load(r.heap.mem, s + 220) == s + 324
      && Load(r.heap.mem, s + 324) == 7
      && Malloc(l, 100).layout.chunks == [Chunk(s, true, 200), Chunk(s + 212, true, 100), Chunk(s + 324, false, 288),
                                          Chunk(s + 624, true, 3460)]
  {
    var l := Layout([Chunk(s, true, 200), Chunk(s + 212, false, 400), Chunk(s + 624, true, 3460)],
                    s + PGSIZE - 1, frames);
    FirstFitIs(l.chunks, 100, 1);
    assert KmallocAsWritten(h, l, 100) == Finish(h, s + 212, 100) by {
      SearchFirstFit(h, l, 1, 100);
    }
    HeaderOf(h, l, 1);
    assert U32(s + 212 + 100 + HEADER) == s + 324;
    MallocFirstFit(l, 100);
  }

  /**
   * On a fresh heap, a request for the whole 4084-byte first chunk reads
   * the flags word at `kheap_end + 1`, which is not mapped.  The corrected
   * model hands over the chunk.
   */
  lemma ExactFitExample(mem: Memory, kernelEnd: nat, frames: nat)
    requires 0 < kernelEnd && 0 < frames
    requires PageRoundUp(kernelEnd) + PGSIZE * frames <= ADDRESS_SPACE
    ensures var s := PageRoundUp(kernelEnd);
      var l := InitLayout(s, frames - 1);
      && KmallocAsWritten(KheapInit(mem, kernelEnd, frames), l, 4084) == PageFault(U32(s + PGSIZE))
      && Malloc(l, 4084) == Result(l.(chunks := [Chunk(s, true, 4084)]), Some(s + HEADER))
  {
    var s := PageRoundUp(kernelEnd);
    var l := InitLayout(s, frames - 1);
    FirstFitIs(l.chunks, 4084, 0);
    TightLastFaults(KheapInit(mem, kernelEnd, frames), l, 4084);
    MallocFirstFit(l, 4084);
  }

  /**
   * A single allocated chunk spanning the first page, and a request for 10
   * bytes: the as-written loop grows that allocated chunk page after page
   * and never returns, while the corrected model returns the first payload
   * byte of a new chunk in the next page.
   */
  lemma FullHeapExample(h: Heap, s: nat, frames: nat)
    requires Refines(h, Layout([Chunk(s, true, 4084)], s + PGSIZE - 1, frames)) && frames > 0
    ensures var l := Layout([Chunk(s, true, 4084)], s + PGSIZE - 1, frames);
      && KmallocAsWritten(h, l, 10).OutOfFrames?
      && Malloc(l, 10).ptr == Some(s + PGSIZE + HEADER)
  {
    var l := Layout([Chunk(s, true, 4084)], s + PGSIZE - 1, frames);
    AllocatedLastNeverReturns(h, l, 10);
    MallocAppends(l, 10);
  }

  // ---------------------------------------------------------------------
  // The source's own test, run by the as-written kmalloc.

  /**
   * The three allocations of `kheap_test` on a fresh heap over zeroed
   * memory: each remainder header lands on a word no one has written, so
   * the as-written `kmalloc` returns the corrected model's pointers and
   * heaps.
   */
  lemma KheapTestAllocations(start: nat, frames: nat)
    requires 0 < start && start % PGSIZE == 0 && frames >= 1
    requires start + PGSIZE * (frames + 1) <= ADDRESS_SPACE
    ensures PageRoundUp(start) == start
    ensures var h0 := KheapInit(map[], start, frames + 1);
      var l0 := InitLayout(start, frames);
      var o1 := KmallocAsWritten(h0, l0, 200);
      && o1.Returned? && o1.ptr == start + 12 && Refines(o1.heap, Malloc(l0, 200).layout)
      && var l1 := Malloc(l0, 200).layout;
      && var o2 := KmallocAsWritten(o1.heap, l1, 400);
      && o2.Returned? && o2.ptr == start + 224 && Refines(o2.heap, Malloc(l1, 400).layout)
      && var l2 := Malloc(l1, 400).layout;
      && var o3 := KmallocAsWritten(o2.heap, l2, 80);
      && o3.Returned? && o3.ptr == start + 636 && Refines(o3.heap, Malloc(l2, 80).layout)
  {
    var h0 := KheapInit(map[], start, frames + 1);
    var l0 := InitLayout(start, frames);
    FirstAllocation(h0, start, frames);
    var o1 := KmallocAsWritten(h0, l0, 200);
    SecondAllocation(o1.heap, start, frames);
    var o2 := KmallocAsWritten(o1.heap, Malloc(l0, 200).layout, 400);
    ThirdAllocation(o2.heap, start, frames);
  }

  lemma FirstAllocation(h: Heap, start: nat, frames: nat)
    requires 0 < start && start % PGSIZE == 0 && start + PGSIZE * (frames + 1) <= ADDRESS_SPACE
    requires PageRoundUp(start) == start && h == KheapInit(map[], start, frames + 1)
    ensures var l0 := InitLayout(start, frames);
      var o := KmallocAsWritten(h, l0, 200);
      && Malloc(l0, 200).layout == Layout([Chunk(start, true, 200), Chunk(start + 212, false, 3872)], start + PGSIZE - 1, frames)
      && o.Returned? && o.ptr == start + 12 && Refines(o.heap, Malloc(l0, 200).layout)
      && Load(o.heap.mem, start + 624) == 0 && Load(o.heap.mem, start + 716) == 0
  {
    var l0 := InitLayout(start, frames);
    FirstFitIs(l0.chunks, 200, 0);
    MallocFirstFit(l0, 200);
    SplitLastAgrees(h, l0, 200);
  }

  lemma SecondAllocation(h: Heap, start: nat, frames: nat)
    requires Refines(h, Layout([Chunk(start, true, 200), Chunk(start + 212, false, 3872)], start + PGSIZE - 1, frames))
    requires Load(h.mem, start + 624) == 0 && Load(h.mem, start + 716) == 0
    ensures var l1 := Layout([Chunk(start, true, 200), Chunk(start + 212, false, 3872)], start + PGSIZE - 1, frames);
      var o := KmallocAsWritten(h, l1, 400);
      && Malloc(l1, 400).layout == Layout([Chunk(start, true, 200), Chunk(start + 212, true, 400),
                                           Chunk(start + 624, false, 3460)], start + PGSIZE - 1, frames)
      && o.Returned? && o.ptr == start + 224 && Refines(o.heap, Malloc(l1, 400).layout)
      && Load(o.heap.mem, start + 716) == 0
  {
    var l1 := Layout([Chunk(start, true, 200), Chunk(start + 212, false, 3872)], start + PGSIZE - 1, frames);
    FirstFitIs(l1.chunks, 400, 1);
    MallocFirstFit(l1, 400);
    SplitLastAgrees(h, l1, 400);
  }

  lemma ThirdAllocation(h: Heap, start: nat, frames: nat)
    requires Refines(h, Layout([Chunk(start, true, 200), Chunk(start + 212, true, 400), Chunk(start + 624, false, 3460)],
                               start + PGSIZE - 1, frames))
    requires Load(h.mem, start + 716) == 0
    ensures var l2 := Layout([Chunk(start, true, 200), Chunk(start + 212, true, 400), Chunk(start + 624, false, 3460)],
                             start + PGSIZE - 1, frames);
      var o := KmallocAsWritten(h, l2, 80);
      && o.Returned? && o.ptr == start + 636 && Refines(o.heap, Malloc(l2, 80).layout)
  {
    var l2 := Layout([Chunk(start, true, 200), Chunk(start + 212, true, 400), Chunk(start + 624, false, 3460)],
                     start + PGSIZE - 1, frames);
    FirstFitIs(l2.chunks, 80, 2);
    SplitLastAgrees(h, l2, 80);
  }

  /**
   * `kfree(arr2)` followed by `kmalloc(400)` in `kheap_test`: the freed
   * chunk fits exactly and its successor is in use, so the as-written
   * `kmalloc` hands back `arr2` again, as the corrected model does.
   * `h` is any heap `Kheap.Kfree` can leave behind.
   */
  lemma KheapTestReallocation(h: Heap, start: nat, frames: nat)
    requires var l3 := Layout([Chunk(start, true, 200), Chunk(start + 212, true, 400), Chunk(start + 624, true, 80),
                               Chunk(start + 716, false, 3368)], start + PGSIZE - 1, frames);
      WellFormed(l3) && Refines(h, Free(l3, 1))
    ensures var l3 := Layout([Chunk(start, true, 200), Chunk(start + 212, true, 400), Chunk(start + 624, true, 80),
                              Chunk(start + 716, false, 3368)], start + PGSIZE - 1, frames);
      var o := KmallocAsWritten(h, Free(l3, 1), 400);
      && o.Returned? && o.ptr == start + 224 && Refines(o.heap, l3)
  {
    var l3 := Layout([Chunk(start, true, 200), Chunk(start + 212, true, 400), Chunk(start + 624, true, 80),
                      Chunk(start + 716, false, 3368)], start + PGSIZE - 1, frames);
    var l4 := l3.(chunks := l3.chunks[1 := Chunk(start + 212, false, 400)]);
    assert Free(l3, 1) == l4 by {
      CoalesceIdle(l4.chunks, 0);
    }
    FirstFitIs(l4.chunks, 400, 1);
    assert Malloc(l4, 400).layout == l3 by {
      MallocFirstFit(l4, 400);
    }
    ExactFitAgrees(h, l4, 1, 400);
  }

  /**
   * `kmalloc(3400)` at the end of `kheap_test`: no chunk fits, the free
   * last chunk grows by one page, and its remainder header lands in that
   * new page.  When the word there reads 0, as it does in memory no one has
   * written, the as-written `kmalloc` agrees with the corrected model.
   */
  lemma KheapTestGrowth(h: Heap, start: nat, frames: nat)
    requires var l7 := Layout([Chunk(start, false, 612), Chunk(start + 624, true, 80), Chunk(start + 716, false, 3368)],
                              start + PGSIZE - 1, frames);
      frames >= 1 && Refines(h, l7)
    requires Load(h.mem, start + 4128) == 0
    ensures var l7 := Layout([Chunk(start, false, 612), Chunk(start + 624, true, 80), Chunk(start + 716, false, 3368)],
                             start + PGSIZE - 1, frames);
      var o := KmallocAsWritten(h, l7, 3400);
      && o.Returned? && o.ptr == start + 728 && Refines(o.heap, Malloc(l7, 3400).layout)
  {
    var l7 := Layout([Chunk(start, false, 612), Chunk(start + 624, true, 80), Chunk(start + 716, false, 3368)],
                     start + PGSIZE - 1, frames);
    var a := start + 716;
    GrowthFirstPage(h, start, frames);
    var h8 := GrowLastChunk(h, a);
    var l8 := GrowLast(l7);
    assert Load(h8.mem, a + HEADER + 3400) == 0;
    SplitLastAgrees(h8, l8, 3400);
  }

  /** Both `kmalloc`s of `KheapTestGrowth` grow the last chunk once and then look at it again. */
  lemma GrowthFirstPage(h: Heap, start: nat, frames: nat)
    requires var l7 := Layout([Chunk(start, false, 612), Chunk(start + 624, true, 80), Chunk(start + 716, false, 3368)],
                              start + PGSIZE - 1, frames);
      frames >= 1 && Refines(h, l7)
    ensures var l7 := Layout([Chunk(start, false, 612), Chunk(start + 624, true, 80), Chunk(start + 716, false, 3368)],
                             start + PGSIZE - 1, frames);
      && Load(h.mem, start + 716 + 4) + PGSIZE < 0x1_0000_0000
      && var h8 := GrowLastChunk(h, start + 716);
      && var l8 := GrowLast(l7);
      && Refines(h8, l8)
      && FirstFit(l8.chunks, 3400) == Some(|l8.chunks| - 1)
      && Last(l8.chunks).size >= 3400 + HEADER
      && KmallocAsWritten(h, l7, 3400) == KmallocAsWritten(h8, l8, 3400)
      && Malloc(l7, 3400) == Malloc(l8, 3400)
  {
    var l7 := Layout([Chunk(start, false, 612), Chunk(start + 624, true, 80), Chunk(start + 716, false, 3368)],
                     start + PGSIZE - 1, frames);
    var a := start + 716;
    GrowLastChunkRefines(h, l7);
    var h8 := GrowLastChunk(h, a);
    var l8 := GrowLast(l7);
    assert l8.chunks == [Chunk(start, false, 612), Chunk(start + 624, true, 80), Chunk(start + 716, false, 7464)];
    assert KmallocAsWritten(h, l7, 3400) == Search(h8, l8, 2, a, 3400) by {
      SearchSkips(h, l7, 0, 2, 3400);
      HeaderOf(h, l7, 2);
    }
    FirstFitIs(l8.chunks, 3400, 2);
    assert KmallocAsWritten(h8, l8, 3400) == Search(h8, l8, 2, a, 3400) by {
      SearchSkips(h8, l8, 0, 2, 3400);
    }
    GrowthSameMalloc(l7);
  }

  /**
   * When the first two chunks cannot take 3400 bytes and the free last one
   * is 32 bytes short, the corrected `kmalloc` does the same whether or
   * not that chunk has been grown once already.
   */
  lemma GrowthSameMalloc(l7: Layout)
    requires WellFormed(l7) && l7.frames >= 1 && |l7.chunks| == 3
    requires !Fits(l7.chunks[0], 3400) && !Fits(l7.chunks[1], 3400) && l7.chunks[2] == Chunk(l7.chunks[2].addr, false, 3368)
    ensures Malloc(l7, 3400) == Malloc(GrowLast(l7), 3400)
  {
    SkipTo(l7, 0, 2, 3400);
    SkipTo(GrowLast(l7), 0, 2, 3400);
  }
}
