/** Freeing a block just allocated puts the heap back, and so does allocating a block just freed. */
module RoundTrip {
  import opened MemLib
  import opened BlockMap
  import opened Heap
  import opened Layout
  import opened Mm
  import opened SegList
  import opened Shapes

  /** Unless the heap had to grow, mm_free after mm_malloc restores every block of a heap without
      adjacent free blocks, and every free list with its order, whichever block was chosen and however it was split. */
  method MallocThenFree(a: Allocator, size: int) returns (p: int)
    requires a.Valid() && Compact(a.blocks) && 0 < size <= MAX_REQUEST
    requires NoFit(a.blocks, AdjustedSize(size)) ==> a.mem.Roomy(Growth(size))
    modifies a`blocks, a`lists, a`listed, a.mem`words, a.mem`brk, a.mem.data
    ensures a.Valid() && Compact(a.blocks)
    ensures LiveOf(a.blocks) == LiveOf(old(a.blocks))
    ensures a.mem.brk == old(a.mem.brk) ==> a.blocks == old(a.blocks) && a.lists == old(a.lists)
    ensures LiveKept(old(a.mem.words), a.mem.words, old(a.blocks))
  {
    ghost var w0, h0, brk0 := a.mem.words, Shape(a.blocks, a.lists), a.mem.brk;
    p := a.MmMalloc(size);
    if p == 0 {
      return;
    }
    ghost var w1, b1 := a.mem.words, a.blocks;
    if a.mem.brk == brk0 {
      FreedAllotted(w0, h0, a.heapListp, brk0, p, AdjustedSize(size));
    }
    OldKept(h0.blocks, b1, p, size);
    a.BlockWords(p);
    a.MmFree(p);
    LiveKeptTrans(w0, w1, a.mem.words, h0.blocks, b1 - {p});
  }

  /** mm_malloc after mm_free: when both neighbours of a block are in use, a request for a block of its size gets that
      block again, though others of the size may be free, and every block and every free list is as before. */
  method FreeThenMalloc(a: Allocator, p: int, size: int) returns (r: int)
    requires a.Valid() && p in LiveOf(a.blocks) && 0 < size <= MAX_REQUEST
    requires NextFree(a.blocks, p) == 0 && PrevFree(a.blocks, p) == 0 && AdjustedSize(size) == a.blocks[p].size
    modifies a`blocks, a`lists, a`listed, a.mem`words, a.mem`brk, a.mem.data
    ensures a.Valid() && r == p && a.mem.brk == old(a.mem.brk)
    ensures a.blocks == old(a.blocks) && a.lists == old(a.lists)
    ensures LiveKept(old(a.mem.words), a.mem.words, old(a.blocks) - {p})
  {
    ghost var w0, h0 := a.mem.words, Shape(a.blocks, a.lists);
    a.BlockWords(p);
    AllottedFreed(w0, h0, a.heapListp, a.mem.brk, p);
    a.MmFree(p);
    ghost var w1, h1 := a.mem.words, Shape(a.blocks, a.lists);
    StillThere(h0.blocks, h1.blocks, p);
    assert h1.blocks[p] == Block(AdjustedSize(size), false);
    r := a.MmMalloc(size);
    OneFirstFit(h1, r, p, AdjustedSize(size));
    LiveKeptTrans(w0, w1, a.mem.words, h0.blocks - {p}, h1.blocks);
  }

  lemma StillThere(b: Blocks, c: Blocks, p: int)
    requires LiveOf(c) == LiveOf(b) - {p}
    ensures StillUsed(b - {p}, c)
  {
    forall q | q in b - {p} && b[q].used ensures q in c && c[q] == b[q] {
      assert q in LiveOf(b) && q in LiveOf(c);
    }
  }

  lemma OldKept(b: Blocks, c: Blocks, p: int, size: int)
    requires Granted(LiveOf(b), LiveOf(c), p, size)
    ensures p in c && c[p].used && LiveOf(c) - {p} == LiveOf(b) && StillUsed(b, c - {p})
  {
    assert p in LiveOf(c);
    forall q | q in b && b[q].used ensures q in c - {p} && (c - {p})[q] == b[q] {
      assert q in LiveOf(b) && q in LiveOf(c) - {p} && LiveOf(b)[q] == LiveOf(c)[q];
    }
  }

  // ---------- a request freed again ----------

  /** A node taken out of its list and put back by its size is where it was, if every node before it is smaller. */
  lemma RefiledList(b: Blocks, s: seq<int>, k: int, size: int)
    requires 0 <= k < |s|
    requires forall j {:trigger s[j]} | 0 <= j < k :: s[j] in b && b[s[j]].size < size
    requires k + 1 < |s| ==> s[k + 1] in b && size <= b[s[k + 1]].size
    ensures Rank(b, RemoveAt(s, k), size) == k && InsertAt(RemoveAt(s, k), k, s[k]) == s
  {
    var t := RemoveAt(s, k);
    assert k < |t| ==> t[k] == s[k + 1];
    assert forall j :: 0 <= j < k ==> t[j] == s[j];
    RankExact(b, t, size, k);
  }

  lemma Refiled(w: map<int, Word>, b: Blocks, l: Lists, lo: int, p: int, asize: int)
    requires SegOk(w, b, l, lo, FreeOf(b)) && p in b && !b[p].used && asize <= b[p].size
    requires FirstInList(Shape(b, l), p, asize)
    ensures Filed(b, Cut(l, p, p + 1), p) == l
  {
    var i := Level(b[p].size);
    var s := l[i];
    var k :| 0 <= k < |s| && s[k] == p
             && forall j {:trigger s[j]} | 0 <= j < k :: s[j] in b && b[s[j]].size < asize;
    assert LevelOk(w, b, l, lo, FreeOf(b), i);
    CutOne(w, b, l, lo, FreeOf(b), p, k);
    RefiledList(b, s, k, b[p].size);
    assert l[i := RemoveAt(s, k)][i] == RemoveAt(s, k);
    assert Filed(b, Cut(l, p, p + 1), p) == l[i := RemoveAt(s, k)][i := s];
  }

  /** What mm_malloc makes of a free block of a compact heap: the block in use, and behind it the rest of that block
      at most, are between blocks in use. */
  lemma AllottedRun(h: Shape, first: int, brk: int, p: int, asize: int)
    requires Tiled(h.blocks, first, brk) && Compact(h.blocks) && p in h.blocks && !h.blocks[p].used
    requires |h.lists| == N_SEGLIST && asize >= MIN_BLOCK_SIZE
    ensures var c, e := Allotted(h, p, asize).blocks, p + h.blocks[p].size;
            && p in c && FreeFrom(c, p) == p && FreeTo(c, p + c[p].size) == e
            && Fuse(c, p, e, false) == h.blocks && FreeTo(h.blocks, e) == e
  {
    var b, c, e := h.blocks, Allotted(h, p, asize).blocks, p + h.blocks[p].size;
    assert BlockOk(b, first, brk, p) && GapOk(b, p);
    assert FreeTo(b, e) == e;
    forall q | EndsAt(c, q, p) ensures c[q].used {
      assert q in b ==> GapOk(b, q) && Apart(b, p, q);
    }
    FuseAlone(b, first, brk, p);
    forall q | q in b ensures !(p < q < e) {
      assert Apart(b, p, q);
    }
  }

  lemma AllottedCut(b: Blocks, l: Lists, p: int, asize: int)
    requires |l| == N_SEGLIST && p in b && asize > 0 && FreeTo(b, p + b[p].size) == p + b[p].size
    ensures Cut(Allotted(Shape(b, l), p, asize).lists, p, p + b[p].size) == Cut(l, p, p + b[p].size)
  {
    var e := p + b[p].size;
    CutTwice(l, p, e, p, e);
    if e - p - asize >= MIN_BLOCK_SIZE {
      CutFiled(Carve(b, p, e, asize), Cut(l, p, e), p + asize, p, e);
    }
  }

  /** mm_free undoes mm_malloc: freeing what a first fit was given in a compact heap restores blocks and lists. */
  lemma FreedAllotted(w: map<int, Word>, h: Shape, lo: int, brk: int, p: int, asize: int)
    requires HeapOk(w, h.blocks, h.lists, lo, FreeOf(h.blocks), brk) && Compact(h.blocks)
    requires asize >= MIN_BLOCK_SIZE && FirstFit(h, p, asize)
    ensures p in Allotted(h, p, asize).blocks && |Allotted(h, p, asize).lists| == N_SEGLIST
    ensures Freed(Allotted(h, p, asize), p) == h
  {
    var b, l, e := h.blocks, h.lists, p + h.blocks[p].size;
    AllottedRun(h, First(lo), brk, p, asize);
    AllottedCut(b, l, p, asize);
    CutOut(w, b, l, lo, brk, p);
    Refiled(w, b, l, lo, p, asize);
    ReleasedBack(h, Allotted(h, p, asize), p, e);
  }

  /** Of the blocks from the start of a free block to its end, that block alone is listed. */
  lemma CutOut(w: map<int, Word>, b: Blocks, l: Lists, lo: int, brk: int, p: int)
    requires HeapOk(w, b, l, lo, FreeOf(b), brk) && p in b && !b[p].used
    ensures Cut(l, p, p + b[p].size) == Cut(l, p, p + 1)
  {
    var e := p + b[p].size;
    assert BlockOk(b, First(lo), brk, p);
    forall q | q in FreeOf(b) ensures !(p + 1 <= q < e) {
      assert Apart(b, p, q);
    }
    CutUpTo(w, b, l, lo, FreeOf(b), p, p + 1, e);
  }

  lemma ReleasedBack(h: Shape, h1: Shape, p: int, e: int)
    requires |h.lists| == |h1.lists| == N_SEGLIST && p in h.blocks && p in h1.blocks
    requires FreeFrom(h1.blocks, p) == p && FreeTo(h1.blocks, p + h1.blocks[p].size) == e
    requires Fuse(h1.blocks, p, e, false) == h.blocks && Filed(h.blocks, Cut(h1.lists, p, e), p) == h.lists
    ensures Freed(h1, p) == h
  {
  }

  // ---------- a block requested again ----------

  /** A block in use between blocks in use, freed: it is the first fit for its size, and taking it puts blocks and lists
      back. */
  lemma AllottedFreed(w: map<int, Word>, h: Shape, lo: int, brk: int, p: int)
    requires HeapOk(w, h.blocks, h.lists, lo, FreeOf(h.blocks), brk) && p in h.blocks && h.blocks[p].used
    requires NextFree(h.blocks, p) == 0 && PrevFree(h.blocks, p) == 0
    ensures var h1, asize := Freed(h, p), h.blocks[p].size;
            && p in h1.blocks && h1.blocks[p] == Block(asize, false)
            && FirstFit(h1, p, asize) && Allotted(h1, p, asize) == h
  {
    var b, l, asize := h.blocks, h.lists, h.blocks[p].size;
    var e := p + asize;
    assert BlockOk(b, First(lo), brk, p) && (e in b ==> BlockOk(b, First(lo), brk, e));
    FuseBack(b, First(lo), brk, p);
    forall q | q in FreeOf(b) ensures !(p <= q < e) {
      assert Apart(b, p, q);
    }
    CutNone(w, b, l, lo, FreeOf(b), p, e);
    var c := Fuse(b, p, e, false);
    assert Freed(h, p) == Shape(c, Filed(c, l, p));
    FiledFirst(c, l, p);
    CutFiled(c, l, p, p, e);
  }

  /** Making a block free and in use again. */
  lemma FuseBack(b: Blocks, first: int, brk: int, p: int)
    requires Tiled(b, first, brk) && p in b && b[p].used
    ensures var e := p + b[p].size;
            && Fuse(b, p, e, false) == b[p := Block(b[p].size, false)]
            && Fuse(Fuse(b, p, e, false), p, e, true) == b
  {
    forall q | q in b ensures !(p < q < p + b[p].size) {
      assert Apart(b, p, q);
    }
  }

  /** The block insert_free_block has just put in is the first of its size. */
  lemma FiledFirst(b: Blocks, l: Lists, p: int)
    requires |l| == N_SEGLIST && p in b && !b[p].used
    ensures FirstFit(Shape(b, Filed(b, l, p)), p, b[p].size)
  {
    var i := Level(b[p].size);
    var k := Rank(b, l[i], b[p].size);
    RankFirst(b, l[i], b[p].size);
    assert Filed(b, l, p)[i][k] == p;
    assert forall j :: 0 <= j < k ==> Filed(b, l, p)[i][j] == l[i][j];
  }
}
