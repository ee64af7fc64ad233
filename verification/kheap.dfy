/**
 * The kernel heap in memory: chunk headers stored as 32-bit words, the
 * `chunks_free_list` head pointer, `kheap_end`, and the pages mapped for
 * the heap so far.
 *
 * Memory is a map from the byte address of a 32-bit field to its value;
 * a word never written reads as 0.  The three header fields of a chunk at
 * address `a` are `flags` at `a`, `size` at `a + 4` and `next` at `a + 8`.
 *
 * `page_alloc` and `map_pp` are abstract: `frames` counts the pages the
 * frame allocator can still hand out, and `mapped` lists the virtual pages
 * mapped for the heap, in order.
 *
 * `KheapInit` and `KheapGrow` are the source's functions; `Kmalloc` and
 * `Kfree` are its loops, with `Kmalloc`'s defects corrected as described
 * in `KheapLayout`, and each is proved to refine the chunk-list model.
 */
module Kheap {
  import opened Options
  import opened KheapLayout

  type Word = x: int | 0 <= x < 0x1_0000_0000

  type Memory = map<int, Word>

  const NULL: nat := 0

  datatype Heap = Heap(mem: Memory, head: nat, kheapEnd: nat, mapped: seq<nat>, frames: nat)

  function Load(m: Memory, a: int): Word
  {
    if a in m then m[a] else 0
  }

  /** The `next` pointer chunk `i` of a list stores. */
  function NextAddr(cs: seq<Chunk>, i: nat): nat
  {
    if i + 1 < |cs| then cs[i + 1].addr else NULL
  }

  /** The header of `c` is in memory, with `next` as its successor pointer. */
  ghost predicate HeaderAt(m: Memory, c: Chunk, next: nat)
  {
    && Load(m, c.addr) == (if c.inUse then 1 else 0)
    && Load(m, c.addr + 4) == c.size
    && Load(m, c.addr + 8) == next
  }

  /** The header of chunk `i` of the list is in memory, linked to chunk `i + 1`. */
  ghost predicate StoredAt(m: Memory, cs: seq<Chunk>, i: nat)
    requires i < |cs|
  {
    HeaderAt(m, cs[i], NextAddr(cs, i))
  }

  /** Every header of the list is in memory, linked in list order and ending in NULL. */
  ghost predicate Stored(m: Memory, cs: seq<Chunk>)
  {
    forall i :: 0 <= i < |cs| ==> StoredAt(m, cs, i)
  }

  /** The heap's mapped pages are consecutive, from the first chunk up to `kheap_end`. */
  ghost predicate MappedPages(h: Heap)
  {
    && |h.mapped| > 0
    && (forall i :: 0 <= i < |h.mapped| ==> h.mapped[i] == h.mapped[0] + PGSIZE * i)
    && h.kheapEnd + 1 == h.mapped[0] + PGSIZE * |h.mapped|
  }

  /** The heap in memory is the chunk list `l`. */
  ghost predicate Refines(h: Heap, l: Layout)
  {
    && WellFormed(l)
    && Stored(h.mem, l.chunks)
    && h.head == l.chunks[0].addr
    && h.kheapEnd == l.kheapEnd
    && h.frames == l.frames
    && MappedPages(h)
    && h.mapped[0] == h.head
  }

  // ---------------------------------------------------------------------
  // kheap_init and kheap_grow.

  /** PGROUNDUP on an address that does not wrap. */
  function PageRoundUp(a: nat): (r: nat)
    ensures r % PGSIZE == 0 && a <= r < a + PGSIZE
  {
    (a + PGSIZE - 1) / PGSIZE * PGSIZE
  }

  /**
   * `kheap_init(kernel_end)`: one page is mapped at the first page
   * boundary after the kernel and holds a single free chunk spanning it.
   * `frames` counts the pages available before the call.
   */
  function KheapInit(mem: Memory, kernelEnd: nat, frames: nat): (h: Heap)
    requires 0 < kernelEnd && 0 < frames
    requires PageRoundUp(kernelEnd) + PGSIZE * frames <= ADDRESS_SPACE
    ensures Refines(h, InitLayout(PageRoundUp(kernelEnd), frames - 1))
    ensures h.mapped == [PageRoundUp(kernelEnd)]
    ensures h.head == PageRoundUp(kernelEnd) && h.kheapEnd == h.head + PGSIZE - 1
  {
    var start := PageRoundUp(kernelEnd);
    var m := mem[start := 0][start + 4 := PGSIZE - HEADER][start + 8 := NULL];
    Heap(m, start, start + PGSIZE - 1, [start], frames - 1)
  }

  /** `kheap_grow`: the next page after `kheap_end` is mapped and `kheap_end` moves one page on. */
  function KheapGrow(h: Heap): (r: Heap)
    requires h.frames > 0
    ensures MappedPages(h) ==> MappedPages(r)
    ensures r.mapped == h.mapped + [h.kheapEnd + 1] && r.kheapEnd == h.kheapEnd + PGSIZE
    ensures r.mem == h.mem && r.head == h.head && r.frames == h.frames - 1
  {
    Heap(h.mem, h.head, h.kheapEnd + PGSIZE, h.mapped + [h.kheapEnd + 1], h.frames - 1)
  }

  // ---------------------------------------------------------------------
  // Memory facts about a tiled chunk list.

  /** Later chunks start at or after the end of earlier ones. */
  lemma {:induction false} AddrsIncrease(cs: seq<Chunk>, i: nat, j: nat)
    requires Adjacent(cs) && i < j < |cs|
    ensures cs[j].addr >= End(cs[i])
    decreases j - i
  {
    if i + 1 < j {
      AddrsIncrease(cs, i, j - 1);
    }
  }

  /** A header stays in memory when none of its three words is written. */
  lemma HeaderKept(m: Memory, m': Memory, c: Chunk, next: nat)
    requires HeaderAt(m, c, next)
    requires Load(m', c.addr) == Load(m, c.addr)
    requires Load(m', c.addr + 4) == Load(m, c.addr + 4)
    requires Load(m', c.addr + 8) == Load(m, c.addr + 8)
    ensures HeaderAt(m', c, next)
  {
  }

  /** Word `x` lies wholly inside the payload of chunk `c`. */
  predicate InPayload(c: Chunk, x: int)
  {
    c.addr + HEADER <= x && x + 4 <= End(c)
  }

  /** Every payload word of `c` reads the same in `m'` as in `m`. */
  ghost predicate PayloadKept(m: Memory, m': Memory, c: Chunk)
  {
    forall x :: InPayload(c, x) ==> Load(m', x) == Load(m, x)
  }

  lemma PayloadKeptTrans(m: Memory, m': Memory, m'': Memory, c: Chunk)
    requires PayloadKept(m, m', c) && PayloadKept(m', m'', c)
    ensures PayloadKept(m, m'', c)
  {
  }

  /** A payload word of one chunk lies before any other chunk or past that chunk's header. */
  lemma PayloadOutside(cs: seq<Chunk>, i: nat, j: nat, x: int)
    requires Adjacent(cs) && i < |cs| && j < |cs| && i != j && InPayload(cs[i], x)
    ensures x + 4 <= cs[j].addr || End(cs[j]) + HEADER <= x
  {
    if i < j {
      AddrsIncrease(cs, i, j);
    } else {
      AddrsIncrease(cs, j, i);
    }
  }

  /** Writing a header word of chunk `j` changes no payload word of the list. */
  lemma HeaderWriteKeepsPayloads(m: Memory, cs: seq<Chunk>, j: nat, w: int, v: Word)
    requires Adjacent(cs) && j < |cs| && cs[j].addr <= w < cs[j].addr + HEADER
    ensures forall c :: c in cs ==> PayloadKept(m, m[w := v], c)
  {
    forall c, x | c in cs && InPayload(c, x)
      ensures Load(m[w := v], x) == Load(m, x)
    {
      var i :| 0 <= i < |cs| && cs[i] == c;
      if i != j {
        PayloadOutside(cs, i, j, x);
      }
    }
  }

  // ---------------------------------------------------------------------
  // The memory updates of kmalloc.

  /** The last chunk, at `a`, absorbs the page `kheap_grow` just mapped. */
  function GrowLastChunk(h: Heap, a: nat): (r: Heap)
    requires h.frames > 0 && Load(h.mem, a + 4) + PGSIZE < 0x1_0000_0000
    ensures r.kheapEnd == h.kheapEnd + PGSIZE && r.frames == h.frames - 1
    ensures Load(r.mem, a + 4) == Load(h.mem, a + 4) + PGSIZE
  {
    var g := KheapGrow(h);
    g.(mem := g.mem[a + 4 := Load(h.mem, a + 4) + PGSIZE])
  }

  /** Writing the size word of the last chunk changes that chunk's size and nothing else. */
  lemma StoredResizeLast(m: Memory, cs: seq<Chunk>, v: Word)
    requires |cs| > 0 && Adjacent(cs) && Stored(m, cs)
    ensures var n := |cs| - 1;
      Stored(m[cs[n].addr + 4 := v], cs[n := cs[n].(size := v)])
  {
    var n := |cs| - 1;
    var m' := m[cs[n].addr + 4 := v];
    var cs' := cs[n := cs[n].(size := v)];
    forall i | 0 <= i < |cs'|
      ensures StoredAt(m', cs', i)
    {
      assert StoredAt(m, cs, i);
      if i < n {
        AddrsIncrease(cs, i, n);
        assert NextAddr(cs', i) == NextAddr(cs, i);
      }
    }
  }

  lemma GrowLastChunkRefines(h: Heap, l: Layout)
    requires Refines(h, l) && l.frames > 0
    ensures Load(h.mem, Last(l.chunks).addr + 4) + PGSIZE < 0x1_0000_0000
    ensures Refines(GrowLastChunk(h, Last(l.chunks).addr), GrowLast(l))
  {
    var cs := l.chunks;
    var n := |cs| - 1;
    assert StoredAt(h.mem, cs, n);
    StoredResizeLast(h.mem, cs, cs[n].size + PGSIZE);
  }

  /** Growing the last chunk writes its size word only: no payload of the list changes. */
  lemma GrowKeepsPayloads(h: Heap, l: Layout)
    requires Refines(h, l) && l.frames > 0
    ensures Load(h.mem, Last(l.chunks).addr + 4) + PGSIZE < 0x1_0000_0000
    ensures forall c :: c in l.chunks ==>
      PayloadKept(h.mem, GrowLastChunk(h, Last(l.chunks).addr).mem, c)
  {
    GrowLastChunkRefines(h, l);
    var a := Last(l.chunks).addr;
    HeaderWriteKeepsPayloads(h.mem, l.chunks, |l.chunks| - 1, a + 4, Load(h.mem, a + 4) + PGSIZE);
    assert GrowLastChunk(h, a).mem == h.mem[a + 4 := Load(h.mem, a + 4) + PGSIZE];
  }

  /** An in-use last chunk at `a` is followed by a new free chunk made of the new page. */
  function AppendChunk(h: Heap, a: nat): (r: Heap)
    requires h.frames > 0 && h.kheapEnd + 1 < 0x1_0000_0000
    ensures r.kheapEnd == h.kheapEnd + PGSIZE && r.frames == h.frames - 1
    ensures a + 8 < h.kheapEnd + 1 ==>
      HeaderAt(r.mem, Chunk(h.kheapEnd + 1, false, PGSIZE - HEADER), NULL)
    ensures Load(r.mem, a + 8) == h.kheapEnd + 1
  {
    var added := h.kheapEnd + 1;
    var g := KheapGrow(h);
    g.(mem := g.mem[added := 0][added + 4 := PGSIZE - HEADER][added + 8 := NULL][a + 8 := added])
  }

  lemma AppendChunkRefines(h: Heap, l: Layout)
    requires Refines(h, l) && l.frames > 0
    ensures h.kheapEnd + 1 < 0x1_0000_0000
    ensures Refines(AppendChunk(h, Last(l.chunks).addr), AppendPage(l))
  {
    var cs := l.chunks;
    var n := |cs| - 1;
    var h' := AppendChunk(h, cs[n].addr);
    var l' := AppendPage(l);
    forall i | 0 <= i < |l'.chunks|
      ensures StoredAt(h'.mem, l'.chunks, i)
    {
      if i < n {
        assert StoredAt(h.mem, cs, i);
        AddrsIncrease(cs, i, n);
        assert NextAddr(l'.chunks, i) == NextAddr(cs, i);
      } else if i == n {
        assert StoredAt(h.mem, cs, i);
      }
    }
  }

  /** The new chunk lies past `kheap_end` and the link is a header word: no payload of the list changes. */
  lemma AppendKeepsPayloads(h: Heap, l: Layout)
    requires Refines(h, l) && l.frames > 0
    ensures h.kheapEnd + 1 < 0x1_0000_0000
    ensures forall c :: c in l.chunks ==>
      PayloadKept(h.mem, AppendChunk(h, Last(l.chunks).addr).mem, c)
  {
    AppendChunkRefines(h, l);
    var cs := l.chunks;
    var n := |cs| - 1;
    var m' := AppendChunk(h, cs[n].addr).mem;
    forall c, x | c in cs && InPayload(c, x)
      ensures Load(m', x) == Load(h.mem, x)
    {
      var i :| 0 <= i < |cs| && cs[i] == c;
      if i != n {
        PayloadOutside(cs, i, n, x);
      }
    }
  }

  /**
   * Allocating `size` bytes in the free chunk at `a` of `have` bytes: a
   * header for the remainder when it fits, pointing at the old successor,
   * then the chunk itself marked in use.
   */
  function AllocateIn(m: Memory, a: nat, have: nat, size: Word): Memory
    requires size <= have && a + HEADER + have <= ADDRESS_SPACE
  {
    if have >= size + HEADER then
      var rest := a + HEADER + size;
      m[rest := 0][rest + 4 := have - size - HEADER][rest + 8 := Load(m, a + 8)]
       [a := 1][a + 4 := size][a + 8 := rest]
    else
      m[a := 1]
  }

  /**
   * A split leaves the chunk in use with the requested size, linked to a
   * free remainder that holds the rest of the bytes and the old successor;
   * a chunk too small to split changes only its flags word.
   */
  lemma AllocateInWrites(m: Memory, a: nat, have: nat, size: Word)
    requires size <= have && a + HEADER + have <= ADDRESS_SPACE
    ensures have >= size + HEADER ==>
      && HeaderAt(AllocateIn(m, a, have, size), Chunk(a, true, size), a + HEADER + size)
      && HeaderAt(AllocateIn(m, a, have, size), Chunk(a + HEADER + size, false, have - size - HEADER), Load(m, a + 8))
    ensures have < size + HEADER ==>
      forall x :: x != a ==> Load(AllocateIn(m, a, have, size), x) == Load(m, x)
  {
  }

  /** Allocating in a chunk writes only words that lie wholly inside that chunk. */
  lemma AllocateInStaysInChunk(m: Memory, a: nat, have: nat, size: Word, x: int)
    requires size <= have && a + HEADER + have <= ADDRESS_SPACE
    requires x < a || a + HEADER + have < x + 4
    ensures Load(AllocateIn(m, a, have, size), x) == Load(m, x)
  {
  }

  /** A header wholly outside the chunk being allocated in stays in memory. */
  lemma HeaderKeptByAllocate(m: Memory, a: nat, have: nat, size: Word, c: Chunk, next: nat)
    requires size <= have && a + HEADER + have <= ADDRESS_SPACE && HeaderAt(m, c, next)
    requires c.addr + HEADER <= a || a + HEADER + have <= c.addr
    ensures HeaderAt(AllocateIn(m, a, have, size), c, next)
  {
    AllocateInStaysInChunk(m, a, have, size, c.addr);
    AllocateInStaysInChunk(m, a, have, size, c.addr + 4);
    AllocateInStaysInChunk(m, a, have, size, c.addr + 8);
  }

  /** A header before the split chunk keeps its words and its successor. */
  lemma SplitKeepsBefore(m: Memory, cs: seq<Chunk>, k: nat, size: Word, i: nat)
    requires Adjacent(cs) && i < k < |cs| && StoredAt(m, cs, i) && Fits(cs[k], size)
    requires cs[k].size >= size + HEADER && End(cs[k]) <= ADDRESS_SPACE
    ensures i < |Place(cs, k, size)|
    ensures StoredAt(AllocateIn(m, cs[k].addr, cs[k].size, size), Place(cs, k, size), i)
  {
    var r := Place(cs, k, size);
    assert r[i] == cs[i];
    AddrsIncrease(cs, i, k);
    HeaderKeptByAllocate(m, cs[k].addr, cs[k].size, size, cs[i], NextAddr(cs, i));
    assert NextAddr(r, i) == NextAddr(cs, i) by {
      if i + 1 < k {
        assert r[i + 1] == cs[i + 1];
      }
    }
  }

  /** A header after the split chunk moves one place on in the list and keeps its words. */
  lemma SplitKeepsAfter(m: Memory, cs: seq<Chunk>, k: nat, size: Word, i: nat)
    requires Adjacent(cs) && k < i < |cs| && StoredAt(m, cs, i) && Fits(cs[k], size)
    requires cs[k].size >= size + HEADER && End(cs[k]) <= ADDRESS_SPACE
    ensures i + 1 < |Place(cs, k, size)|
    ensures StoredAt(AllocateIn(m, cs[k].addr, cs[k].size, size), Place(cs, k, size), i + 1)
  {
    var r := Place(cs, k, size);
    assert r[i + 1] == cs[i];
    AddrsIncrease(cs, k, i);
    HeaderKeptByAllocate(m, cs[k].addr, cs[k].size, size, cs[i], NextAddr(cs, i));
    assert NextAddr(r, i + 1) == NextAddr(cs, i) by {
      if i + 1 < |cs| {
        assert r[i + 2] == cs[i + 1];
      }
    }
  }

  /** The split chunk and its remainder carry the headers `Place` gives them. */
  lemma SplitWritesBoth(m: Memory, cs: seq<Chunk>, k: nat, size: Word)
    requires Adjacent(cs) && k < |cs| && StoredAt(m, cs, k) && Fits(cs[k], size)
    requires cs[k].size >= size + HEADER && End(cs[k]) <= ADDRESS_SPACE
    ensures k + 1 < |Place(cs, k, size)|
    ensures StoredAt(AllocateIn(m, cs[k].addr, cs[k].size, size), Place(cs, k, size), k)
    ensures StoredAt(AllocateIn(m, cs[k].addr, cs[k].size, size), Place(cs, k, size), k + 1)
  {
    var r := Place(cs, k, size);
    if k + 1 < |cs| {
      assert r[k + 2] == cs[k + 1];
    }
  }

  /** Splitting chunk `k`: its header and the remainder's are written, every other header stays. */
  lemma StoredSplit(m: Memory, cs: seq<Chunk>, k: nat, size: Word)
    requires Adjacent(cs) && Stored(m, cs) && k < |cs| && Fits(cs[k], size)
    requires cs[k].size >= size + HEADER && End(cs[k]) <= ADDRESS_SPACE
    ensures Stored(AllocateIn(m, cs[k].addr, cs[k].size, size), Place(cs, k, size))
  {
    var m' := AllocateIn(m, cs[k].addr, cs[k].size, size);
    var r := Place(cs, k, size);
    forall i | 0 <= i < |r|
      ensures StoredAt(m', r, i)
    {
      if i < k {
        SplitKeepsBefore(m, cs, k, size, i);
      } else if i > k + 1 {
        SplitKeepsAfter(m, cs, k, size, i - 1);
      } else {
        SplitWritesBoth(m, cs, k, size);
      }
    }
  }

  /** Handing over the whole of chunk `k`: only its flags word changes. */
  lemma StoredWhole(m: Memory, cs: seq<Chunk>, k: nat, size: Word)
    requires Adjacent(cs) && Stored(m, cs) && k < |cs| && Fits(cs[k], size)
    requires cs[k].size < size + HEADER && End(cs[k]) <= ADDRESS_SPACE
    ensures Stored(AllocateIn(m, cs[k].addr, cs[k].size, size), Place(cs, k, size))
  {
    var m' := AllocateIn(m, cs[k].addr, cs[k].size, size);
    var r := Place(cs, k, size);
    assert StoredAt(m, cs, k);
    forall i | 0 <= i < |r|
      ensures StoredAt(m', r, i)
    {
      assert StoredAt(m, cs, i);
      if i < k {
        AddrsIncrease(cs, i, k);
      } else if i > k {
        AddrsIncrease(cs, k, i);
      }
    }
  }

  lemma AllocateInRefines(h: Heap, l: Layout, k: nat, size: Word)
    requires Refines(h, l) && k < |l.chunks| && Fits(l.chunks[k], size)
    ensures End(l.chunks[k]) <= ADDRESS_SPACE
    ensures Refines(h.(mem := AllocateIn(h.mem, l.chunks[k].addr, l.chunks[k].size, size)),
              l.(chunks := Place(l.chunks, k, size)))
  {
    var cs := l.chunks;
    if k + 1 < |cs| {
      AddrsIncrease(cs, k, |cs| - 1);
    }
    PlaceWellFormed(l, k, size);
    if cs[k].size >= size + HEADER {
      StoredSplit(h.mem, cs, k, size);
    } else {
      StoredWhole(h.mem, cs, k, size);
    }
  }

  /** Allocating in chunk `k` changes no payload word of any other chunk. */
  lemma AllocateKeepsPayloads(h: Heap, l: Layout, k: nat, size: Word)
    requires Refines(h, l) && k < |l.chunks| && Fits(l.chunks[k], size)
    ensures End(l.chunks[k]) <= ADDRESS_SPACE
    ensures forall i :: 0 <= i < |l.chunks| && i != k ==>
      PayloadKept(h.mem, AllocateIn(h.mem, l.chunks[k].addr, l.chunks[k].size, size), l.chunks[i])
  {
    var cs := l.chunks;
    if k + 1 < |cs| {
      AddrsIncrease(cs, k, |cs| - 1);
    }
    var m' := AllocateIn(h.mem, cs[k].addr, cs[k].size, size);
    forall i, x | 0 <= i < |cs| && i != k && InPayload(cs[i], x)
      ensures Load(m', x) == Load(h.mem, x)
    {
      PayloadOutside(cs, i, k, x);
    }
  }

  // ---------------------------------------------------------------------
  // kmalloc and kfree.

  /**
   * `kmalloc(size)`: the first-fit search over the list in memory, growing
   * the heap when it runs off the end, then the allocation; the result is
   * the chunk-list model's, in memory.
   */
  method Kmalloc(h: Heap, size: Word, ghost l: Layout) returns (h': Heap, ptr: nat)
    requires Refines(h, l)
    ensures Refines(h', Malloc(l, size).layout)
    ensures ptr == match Malloc(l, size).ptr case Some(p) => p case None => NULL
    ensures forall i :: 0 <= i < |l.chunks| && l.chunks[i].inUse ==> PayloadKept(h.mem, h'.mem, l.chunks[i])
  {
    h' := h;
    ghost var lc := l;
    ghost var k: nat := 0;
    var curr := h'.head;
    while true
      invariant Refines(h', lc) && k < |lc.chunks| && curr == lc.chunks[k].addr
      invariant MallocFrom(lc, k, size) == Malloc(l, size)
      invariant InUseHeld(h.mem, h'.mem, l, lc.chunks)
      decreases lc.frames, |lc.chunks| - k
    {
      assert StoredAt(h'.mem, lc.chunks, k);
      var flags := Load(h'.mem, curr);
      var have := Load(h'.mem, curr + 4);
      if flags == 0 && have >= size {
        break;
      }
      var next := Load(h'.mem, curr + 8);
      if next != NULL {
        curr := next;
        k := k + 1;
        continue;
      }
      assert k + 1 == |lc.chunks|;
      if h'.frames == 0 {
        ptr := NULL;
        return;
      } else if flags == 0 {
        GrowStep(h', h.mem, l, lc);
        h' := GrowLastChunk(h', curr);
        lc := GrowLast(lc);
      } else {
        AppendStep(h', h.mem, l, lc);
        var added := h'.kheapEnd + 1;
        h' := AppendChunk(h', curr);
        lc := AppendPage(lc);
        k := k + 1;
        curr := added;
      }
    }
    AllocateStep(h', h.mem, l, lc, k, size);
    h' := h'.(mem := AllocateIn(h'.mem, curr, Load(h'.mem, curr + 4), size));
    ptr := curr + HEADER;
  }

  /** Every chunk of `l` in use is still at its index in `cs` and kept its payload from `m0` to `m`. */
  ghost predicate InUseHeld(m0: Memory, m: Memory, l: Layout, cs: seq<Chunk>)
  {
    forall i :: 0 <= i < |l.chunks| && l.chunks[i].inUse ==>
      i < |cs| && cs[i] == l.chunks[i] && PayloadKept(m0, m, l.chunks[i])
  }

  /** Growing the free last chunk keeps the heap a chunk list and every payload in use. */
  lemma GrowStep(h: Heap, m0: Memory, l: Layout, lc: Layout)
    requires Refines(h, lc) && lc.frames > 0 && !Last(lc.chunks).inUse && InUseHeld(m0, h.mem, l, lc.chunks)
    ensures Load(h.mem, Last(lc.chunks).addr + 4) + PGSIZE < 0x1_0000_0000
    ensures Refines(GrowLastChunk(h, Last(lc.chunks).addr), GrowLast(lc))
    ensures InUseHeld(m0, GrowLastChunk(h, Last(lc.chunks).addr).mem, l, GrowLast(lc).chunks)
  {
    GrowLastChunkRefines(h, lc);
    GrowKeepsPayloads(h, lc);
    var m' := GrowLastChunk(h, Last(lc.chunks).addr).mem;
    forall i | 0 <= i < |l.chunks| && l.chunks[i].inUse
      ensures i < |GrowLast(lc).chunks| && GrowLast(lc).chunks[i] == l.chunks[i] && PayloadKept(m0, m', l.chunks[i])
    {
      assert lc.chunks[i] in lc.chunks;
      PayloadKeptTrans(m0, h.mem, m', l.chunks[i]);
    }
  }

  /** Appending a page after the last chunk keeps the heap a chunk list and every payload in use. */
  lemma AppendStep(h: Heap, m0: Memory, l: Layout, lc: Layout)
    requires Refines(h, lc) && lc.frames > 0 && InUseHeld(m0, h.mem, l, lc.chunks)
    ensures h.kheapEnd + 1 < 0x1_0000_0000
    ensures Refines(AppendChunk(h, Last(lc.chunks).addr), AppendPage(lc))
    ensures InUseHeld(m0, AppendChunk(h, Last(lc.chunks).addr).mem, l, AppendPage(lc).chunks)
  {
    AppendChunkRefines(h, lc);
    AppendKeepsPayloads(h, lc);
    var m' := AppendChunk(h, Last(lc.chunks).addr).mem;
    forall i | 0 <= i < |l.chunks| && l.chunks[i].inUse
      ensures i < |AppendPage(lc).chunks| && AppendPage(lc).chunks[i] == l.chunks[i] && PayloadKept(m0, m', l.chunks[i])
    {
      assert lc.chunks[i] in lc.chunks;
      PayloadKeptTrans(m0, h.mem, m', l.chunks[i]);
    }
  }

  /** The allocation that ends `kmalloc` keeps the heap a chunk list and every payload in use. */
  lemma AllocateStep(h: Heap, m0: Memory, l: Layout, lc: Layout, k: nat, size: Word)
    requires Refines(h, lc) && k < |lc.chunks| && Fits(lc.chunks[k], size) && InUseHeld(m0, h.mem, l, lc.chunks)
    ensures End(lc.chunks[k]) <= ADDRESS_SPACE
    ensures Refines(h.(mem := AllocateIn(h.mem, lc.chunks[k].addr, lc.chunks[k].size, size)),
              lc.(chunks := Place(lc.chunks, k, size)))
    ensures forall i :: 0 <= i < |l.chunks| && l.chunks[i].inUse ==>
      PayloadKept(m0, AllocateIn(h.mem, lc.chunks[k].addr, lc.chunks[k].size, size), l.chunks[i])
  {
    AllocateInRefines(h, lc, k, size);
    AllocateKeepsPayloads(h, lc, k, size);
    var m' := AllocateIn(h.mem, lc.chunks[k].addr, lc.chunks[k].size, size);
    forall i | 0 <= i < |l.chunks| && l.chunks[i].inUse
      ensures PayloadKept(m0, m', l.chunks[i])
    {
      PayloadKeptTrans(m0, h.mem, m', l.chunks[i]);
    }
  }

  /** One merge of the coalescing pass: chunk `j` absorbs chunk `j + 1`. */
  function MergeAt(m: Memory, a: nat, b: nat): (r: Memory)
    requires Load(m, a + 4) + HEADER + Load(m, b + 4) < 0x1_0000_0000
    ensures Load(r, a + 4) == Load(m, a + 4) + HEADER + Load(m, b + 4)
    ensures Load(r, a + 8) == Load(m, b + 8)
  {
    m[a + 4 := Load(m, a + 4) + HEADER + Load(m, b + 4)][a + 8 := Load(m, b + 8)]
  }

  /** The chunk list after merging chunks `j` and `j + 1`. */
  function Merged(cs: seq<Chunk>, j: nat): (r: seq<Chunk>)
    requires j + 1 < |cs|
    ensures |r| == |cs| - 1 && r[j] == Merge(cs[j], cs[j + 1])
    ensures forall i :: 0 <= i < j ==> r[i] == cs[i]
    ensures forall i :: j + 1 < i < |cs| ==> r[i - 1] == cs[i]
  {
    cs[..j] + [Merge(cs[j], cs[j + 1])] + cs[j + 2..]
  }

  /** A header before the merged pair keeps its words and its successor. */
  lemma MergeKeepsBefore(m: Memory, cs: seq<Chunk>, j: nat, i: nat)
    requires Adjacent(cs) && i < j && j + 1 < |cs| && StoredAt(m, cs, i)
    requires Load(m, cs[j].addr + 4) + HEADER + Load(m, cs[j + 1].addr + 4) < 0x1_0000_0000
    ensures StoredAt(MergeAt(m, cs[j].addr, cs[j + 1].addr), Merged(cs, j), i)
  {
    var r := Merged(cs, j);
    AddrsIncrease(cs, i, j);
    assert NextAddr(r, i) == NextAddr(cs, i) by {
      if i + 1 < j {
        assert r[i + 1] == cs[i + 1];
      }
    }
  }

  /** A header after the merged pair moves one place back in the list and keeps its words. */
  lemma MergeKeepsAfter(m: Memory, cs: seq<Chunk>, j: nat, i: nat)
    requires Adjacent(cs) && j + 1 < i < |cs| && StoredAt(m, cs, i)
    requires Load(m, cs[j].addr + 4) + HEADER + Load(m, cs[j + 1].addr + 4) < 0x1_0000_0000
    ensures StoredAt(MergeAt(m, cs[j].addr, cs[j + 1].addr), Merged(cs, j), i - 1)
  {
    var r := Merged(cs, j);
    AddrsIncrease(cs, j, i);
    assert NextAddr(r, i - 1) == NextAddr(cs, i) by {
      if i + 1 < |cs| {
        assert r[i] == cs[i + 1];
      }
    }
  }

  /** The merged chunk's header holds the combined size and the second chunk's successor. */
  lemma MergeWrites(m: Memory, cs: seq<Chunk>, j: nat)
    requires j + 1 < |cs| && StoredAt(m, cs, j) && StoredAt(m, cs, j + 1)
    requires !cs[j].inUse && !cs[j + 1].inUse
    requires Load(m, cs[j].addr + 4) + HEADER + Load(m, cs[j + 1].addr + 4) < 0x1_0000_0000
    ensures StoredAt(MergeAt(m, cs[j].addr, cs[j + 1].addr), Merged(cs, j), j)
  {
    var r := Merged(cs, j);
    assert NextAddr(r, j) == NextAddr(cs, j + 1) by {
      if j + 2 < |cs| {
        assert r[j + 1] == cs[j + 2];
      }
    }
  }

  /** Merging two free neighbours in memory is merging them in the list. */
  lemma StoredMerge(m: Memory, cs: seq<Chunk>, j: nat)
    requires Adjacent(cs) && Stored(m, cs) && j + 1 < |cs| && !cs[j].inUse && !cs[j + 1].inUse
    requires Load(m, cs[j].addr + 4) + HEADER + Load(m, cs[j + 1].addr + 4) < 0x1_0000_0000
    ensures Stored(MergeAt(m, cs[j].addr, cs[j + 1].addr), Merged(cs, j))
  {
    var m' := MergeAt(m, cs[j].addr, cs[j + 1].addr);
    var r := Merged(cs, j);
    forall i | 0 <= i < |r|
      ensures StoredAt(m', r, i)
    {
      if i < j {
        MergeKeepsBefore(m, cs, j, i);
      } else if i > j {
        MergeKeepsAfter(m, cs, j, i + 1);
      } else {
        MergeWrites(m, cs, j);
      }
    }
  }

  lemma MergeAtRefines(h: Heap, l: Layout, j: nat)
    requires Refines(h, l) && j + 1 < |l.chunks| && !l.chunks[j].inUse && !l.chunks[j + 1].inUse
    ensures Load(h.mem, l.chunks[j].addr + 4) + HEADER + Load(h.mem, l.chunks[j + 1].addr + 4) < 0x1_0000_0000
    ensures var l' := l.(chunks := Merged(l.chunks, j));
      Refines(h.(mem := MergeAt(h.mem, l.chunks[j].addr, l.chunks[j + 1].addr)), l')
  {
    var cs := l.chunks;
    var r := Merged(cs, j);
    assert StoredAt(h.mem, cs, j);
    assert StoredAt(h.mem, cs, j + 1);
    AddrsIncrease(cs, j, |cs| - 1);
    MergeAdjacent(cs, j);
    if j + 2 == |cs| {
      assert Last(r) == r[j];
    } else {
      assert Last(r) == Last(cs);
    }
    StoredMerge(h.mem, cs, j);
  }

  /** A merge writes two header words of chunk `j`: no payload of the list changes. */
  lemma MergeKeepsPayloads(m: Memory, cs: seq<Chunk>, j: nat)
    requires Adjacent(cs) && j + 1 < |cs|
    requires Load(m, cs[j].addr + 4) + HEADER + Load(m, cs[j + 1].addr + 4) < 0x1_0000_0000
    ensures forall c :: c in cs ==> PayloadKept(m, MergeAt(m, cs[j].addr, cs[j + 1].addr), c)
  {
    var a := cs[j].addr;
    var b := cs[j + 1].addr;
    var m1 := m[a + 4 := Load(m, a + 4) + HEADER + Load(m, b + 4)];
    HeaderWriteKeepsPayloads(m, cs, j, a + 4, Load(m, a + 4) + HEADER + Load(m, b + 4));
    HeaderWriteKeepsPayloads(m1, cs, j, a + 8, Load(m, b + 8));
    forall c | c in cs
      ensures PayloadKept(m, MergeAt(m, a, b), c)
    {
      PayloadKeptTrans(m, m1, MergeAt(m, a, b), c);
    }
  }

  /** Every chunk of `l` in use is still in `cs` and kept its payload from `m0` to `m`. */
  ghost predicate InUseKept(m0: Memory, m: Memory, l: Layout, cs: seq<Chunk>)
  {
    forall i :: 0 <= i < |l.chunks| && l.chunks[i].inUse ==>
      l.chunks[i] in cs && PayloadKept(m0, m, l.chunks[i])
  }

  /** One merge of `kfree`'s pass keeps the heap a chunk list and the other chunks' payloads. */
  lemma CoalesceStep(h: Heap, m0: Memory, l: Layout, lc: Layout, j: nat)
    requires Refines(h, lc) && j + 1 < |lc.chunks| && !lc.chunks[j].inUse && !lc.chunks[j + 1].inUse
    requires InUseKept(m0, h.mem, l, lc.chunks)
    ensures Load(h.mem, lc.chunks[j].addr + 4) + HEADER + Load(h.mem, lc.chunks[j + 1].addr + 4) < 0x1_0000_0000
    ensures Refines(h.(mem := MergeAt(h.mem, lc.chunks[j].addr, lc.chunks[j + 1].addr)),
              lc.(chunks := Merged(lc.chunks, j)))
    ensures InUseKept(m0, MergeAt(h.mem, lc.chunks[j].addr, lc.chunks[j + 1].addr), l, Merged(lc.chunks, j))
    ensures CoalesceFrom(Merged(lc.chunks, j), j) == CoalesceFrom(lc.chunks, j)
  {
    MergeAtRefines(h, lc, j);
    MergeKeepsPayloads(h.mem, lc.chunks, j);
    var m' := MergeAt(h.mem, lc.chunks[j].addr, lc.chunks[j + 1].addr);
    forall i | 0 <= i < |l.chunks| && l.chunks[i].inUse
      ensures l.chunks[i] in Merged(lc.chunks, j) && PayloadKept(m0, m', l.chunks[i])
    {
      InUseSurvivesMerge(lc.chunks, j, l.chunks[i]);
      PayloadKeptTrans(m0, h.mem, m', l.chunks[i]);
    }
  }

  /** Merging two free chunks keeps every chunk in use in the list. */
  lemma InUseSurvivesMerge(cs: seq<Chunk>, j: nat, c: Chunk)
    requires j + 1 < |cs| && !cs[j].inUse && !cs[j + 1].inUse && c in cs && c.inUse
    ensures c in Merged(cs, j)
  {
    var i :| 0 <= i < |cs| && cs[i] == c;
    if i < j {
      assert Merged(cs, j)[i] == c;
    } else {
      assert Merged(cs, j)[i - 1] == c;
    }
  }

  /** Clearing the flags word of chunk `k` marks that chunk free and changes no other header. */
  lemma MarkFreeRefines(h: Heap, l: Layout, k: nat)
    requires Refines(h, l) && k < |l.chunks|
    ensures Refines(h.(mem := h.mem[l.chunks[k].addr := 0]),
              l.(chunks := l.chunks[k := l.chunks[k].(inUse := false)]))
  {
    var cs := l.chunks;
    var r := cs[k := cs[k].(inUse := false)];
    var m' := h.mem[cs[k].addr := 0];
    forall i | 0 <= i < |r|
      ensures StoredAt(m', r, i)
    {
      assert StoredAt(h.mem, cs, i);
      if i < k {
        AddrsIncrease(cs, i, k);
      } else if i > k {
        AddrsIncrease(cs, k, i);
      }
    }
  }

  /**
   * The coalescing pass of `kfree`: walking the list in memory, a free
   * chunk absorbs a free successor and the walk stays put; otherwise it
   * moves on.  The result is `CoalesceFrom` in memory, and no chunk in use
   * loses a payload word.
   */
  method Coalesce(h: Heap, ghost l: Layout) returns (h': Heap)
    requires Refines(h, l)
    ensures Refines(h', l.(chunks := CoalesceFrom(l.chunks, 0)))
    ensures forall i :: 0 <= i < |l.chunks| && l.chunks[i].inUse ==> PayloadKept(h.mem, h'.mem, l.chunks[i])
  {
    h' := h;
    ghost var lc := l;
    ghost var j: nat := 0;
    var chunk := h'.head;
    while Load(h'.mem, chunk + 8) != NULL
      invariant Refines(h', lc) && j < |lc.chunks| && chunk == lc.chunks[j].addr
      invariant CoalesceFrom(lc.chunks, j) == CoalesceFrom(l.chunks, 0) && lc == l.(chunks := lc.chunks)
      invariant InUseKept(h.mem, h'.mem, l, lc.chunks)
      decreases 2 * |lc.chunks| - j
    {
      assert StoredAt(h'.mem, lc.chunks, j);
      var next := Load(h'.mem, chunk + 8);
      assert j + 1 < |lc.chunks|;
      assert StoredAt(h'.mem, lc.chunks, j + 1);
      if Load(h'.mem, chunk) == 0 && Load(h'.mem, next) == 0 {
        assert next == lc.chunks[j + 1].addr;
        CoalesceStep(h', h.mem, l, lc, j);
        h' := h'.(mem := MergeAt(h'.mem, chunk, next));
        lc := lc.(chunks := Merged(lc.chunks, j));
      } else {
        assert CoalesceFrom(lc.chunks, j + 1) == CoalesceFrom(lc.chunks, j);
        chunk := next;
        j := j + 1;
      }
    }
    assert StoredAt(h'.mem, lc.chunks, j);
  }

  /**
   * `kfree(ptr)`: a header whose flags read 0 is left alone; otherwise
   * the chunk is marked free and the whole list is coalesced.  `k` names
   * the chunk whose payload `ptr` is, when there is one.
   */
  method Kfree(h: Heap, ptr: nat, ghost l: Layout, ghost k: nat) returns (h': Heap)
    requires Refines(h, l) && ptr >= HEADER
    requires (k < |l.chunks| && l.chunks[k].addr == ptr - HEADER) || Load(h.mem, ptr - HEADER) == 0
    ensures Load(h.mem, ptr - HEADER) == 0 ==> h' == h
    ensures k < |l.chunks| && l.chunks[k].addr == ptr - HEADER ==> Refines(h', Free(l, k))
    ensures forall i :: 0 <= i < |l.chunks| && i != k && l.chunks[i].inUse ==> PayloadKept(h.mem, h'.mem, l.chunks[i])
  {
    var chunk := ptr - HEADER;
    if Load(h.mem, chunk) == 0 {
      if k < |l.chunks| && l.chunks[k].addr == ptr - HEADER {
        assert StoredAt(h.mem, l.chunks, k);
      }
      return h;
    }
    assert StoredAt(h.mem, l.chunks, k);
    MarkFreeRefines(h, l, k);
    HeaderWriteKeepsPayloads(h.mem, l.chunks, k, chunk, 0);
    ghost var marked := l.(chunks := l.chunks[k := l.chunks[k].(inUse := false)]);
    var h1 := h.(mem := h.mem[chunk := 0]);
    h' := Coalesce(h1, marked);
    forall i | 0 <= i < |l.chunks| && i != k && l.chunks[i].inUse
      ensures PayloadKept(h.mem, h'.mem, l.chunks[i])
    {
      assert marked.chunks[i] == l.chunks[i];
      assert l.chunks[i] in l.chunks;
      PayloadKeptTrans(h.mem, h1.mem, h'.mem, l.chunks[i]);
    }
  }
}
