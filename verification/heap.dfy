/** The heap of mm.c on values: what it means for its three views to agree, and what every
    retiling, list operation and request does to them. */
module Heap {
  import opened MemLib
  import opened BlockMap
  import opened Tags
  import opened SegList
  import opened Prelude

  const WSIZE: int := 4
  const DSIZE: int := 8
  const CHUNKSIZE: int := 4096

  /** The three views of the heap agree: the tiling, the tags that record it in memory,
      and the lists threaded through the free blocks. */
  ghost predicate HeapOk(w: map<int, Word>, b: Blocks, l: Lists, lo: int, listed: set<int>, brk: int) {
    && brk < ADDRESS_SPACE
    && Tiled(b, First(lo), brk) && TagsOk(w, b, First(lo), brk) && SegOk(w, b, l, lo, listed)
  }

  lemma NodeBounds(w: map<int, Word>, b: Blocks, l: Lists, lo: int, listed: set<int>, brk: int, i: int, k: int)
    requires HeapOk(w, b, l, lo, listed, brk) && 0 <= i < N_SEGLIST && -1 <= k <= |l[i]|
    ensures 0 <= NodeAt(Root(lo, i), l[i], k) < ADDRESS_SPACE
    ensures 0 <= k < |l[i]| ==> NodeAt(Root(lo, i), l[i], k) in b
    ensures NodeAt(Root(lo, i), l[i], k) == 0 <==> k == |l[i]|
  {
    assert LevelOk(w, b, l, lo, listed, i);
    if 0 <= k < |l[i]| {
      assert BlockOk(b, First(lo), brk, l[i][k]);
    }
  }

  lemma InsertHeap(w: map<int, Word>, b: Blocks, l: Lists, lo: int, listed: set<int>, brk: int, p: int, k: int)
    returns (w': map<int, Word>, l': Lists)
    requires HeapOk(w, b, l, lo, listed, brk)
    requires p in b && !b[p].used && p !in listed
    requires 0 <= k <= |l[Level(b[p].size)]|
    requires k > 0 ==> l[Level(b[p].size)][k - 1] in b && b[l[Level(b[p].size)][k - 1]].size <= b[p].size
    requires k < |l[Level(b[p].size)]| ==> l[Level(b[p].size)][k] in b && b[p].size <= b[l[Level(b[p].size)][k]].size
    ensures var i := Level(b[p].size);
            var prev, next := NodeAt(Root(lo, i), l[i], k - 1), NodeAt(Root(lo, i), l[i], k);
            0 <= prev < ADDRESS_SPACE && 0 <= p < ADDRESS_SPACE && 0 <= next < ADDRESS_SPACE
            && w' == SpliceIn(w, prev, p, next) && l' == l[i := InsertAt(l[i], k, p)]
    ensures HeapOk(w', b, l', lo, listed + {p}, brk)
    ensures LiveKept(w, w', b)
  {
    var i := Level(b[p].size);
    NodeBounds(w, b, l, lo, listed, brk, i, k - 1);
    NodeBounds(w, b, l, lo, listed, brk, i, k);
    assert BlockOk(b, First(lo), brk, p);
    w' := SpliceIn(w, NodeAt(Root(lo, i), l[i], k - 1), p, NodeAt(Root(lo, i), l[i], k));
    l' := l[i := InsertAt(l[i], k, p)];
    InsertSeg(w, b, l, lo, brk, listed, p, k);
    SpliceInFrame(w, b, l, lo, listed, p, i, k);
    forall q | q in listed ensures q in b && !b[q].used {
      assert ListedOk(b, l, q);
    }
    TagsFrame(w, w', b, lo, brk, listed + {p});
    LinksKeepLive(w, w', b, lo, brk, listed + {p});
  }

  lemma RemoveHeap(w: map<int, Word>, b: Blocks, l: Lists, lo: int, listed: set<int>, brk: int, p: int)
    returns (i: int, k: int, w': map<int, Word>, l': Lists)
    requires HeapOk(w, b, l, lo, listed, brk) && p in listed
    ensures p in b && i == Level(b[p].size) && 0 <= k < |l[i]| && l[i][k] == p
    ensures var prev, next := NodeAt(Root(lo, i), l[i], k - 1), NodeAt(Root(lo, i), l[i], k + 1);
            0 <= prev < ADDRESS_SPACE && 0 <= next < ADDRESS_SPACE
            && WordAt(w, p) == next && WordAt(w, p + 4) == prev
            && (k > 0 ==> prev in b) && (next != 0 ==> next in b)
            && w' == SpliceOut(w, prev, next) && l' == l[i := RemoveAt(l[i], k)]
    ensures HeapOk(w', b, l', lo, listed - {p}, brk)
    ensures LiveKept(w, w', b)
  {
    assert ListedOk(b, l, p);
    i := Level(b[p].size);
    k :| 0 <= k < |l[i]| && l[i][k] == p;
    NodeBounds(w, b, l, lo, listed, brk, i, k - 1);
    NodeBounds(w, b, l, lo, listed, brk, i, k + 1);
    assert LevelOk(w, b, l, lo, listed, i);
    assert LinkOk(w, Root(lo, i), l[i], k) && LinkOk(w, Root(lo, i), l[i], k + 1);
    w' := SpliceOut(w, NodeAt(Root(lo, i), l[i], k - 1), NodeAt(Root(lo, i), l[i], k + 1));
    l' := l[i := RemoveAt(l[i], k)];
    RemoveSeg(w, b, l, lo, brk, listed, p, k);
    SpliceOutFrame(w, b, l, lo, listed, i, k);
    forall q | q in listed ensures q in b && !b[q].used {
      assert ListedOk(b, l, q);
    }
    TagsFrame(w, w', b, lo, brk, listed);
    LinksKeepLive(w, w', b, lo, brk, listed);
  }

  // ---------- retiling ----------

  /** None of the blocks from `p` up to `e` is listed. */
  ghost predicate Unlisted(listed: set<int>, p: int, e: int) {
    forall q {:trigger q in listed} :: p <= q < e ==> q !in listed
  }

  lemma FuseHeap(w: map<int, Word>, w': map<int, Word>, b: Blocks, l: Lists, lo: int, listed: set<int>, brk: int,
                 p: int, e: int, used: bool)
    requires HeapOk(w, b, l, lo, listed, brk)
    requires p in b && Boundary(b, brk, e) && p < e && Unlisted(listed, p, e)
    requires SameOutside(w, w', p - 4, e - 4)
    requires WordAt(w', p - 4) == Pack(e - p, used) && WordAt(w', e - 8) == Pack(e - p, used)
    ensures HeapOk(w', Fuse(b, p, e, used), l, lo, listed, brk)
  {
    FuseTiled(b, First(lo), brk, p, e, used);
    FuseTags(w, w', b, First(lo), brk, p, e, used);
    forall q | q in listed ensures !(p <= q < e) && q in b {
      assert ListedOk(b, l, q);
    }
    RegionKeepsLists(w, w', b, Fuse(b, p, e, used), l, lo, brk, listed, p, e);
  }

  lemma CarveHeap(w: map<int, Word>, w': map<int, Word>, b: Blocks, l: Lists, lo: int, listed: set<int>, brk: int,
                  p: int, e: int, n: int)
    requires HeapOk(w, b, l, lo, listed, brk)
    requires p in b && Boundary(b, brk, e) && Unlisted(listed, p, e)
    requires n % 8 == 0 && n >= MIN_BLOCK_SIZE && e - p - n >= MIN_BLOCK_SIZE
    requires SameOutside(w, w', p - 4, e - 4)
    requires WordAt(w', p - 4) == Pack(n, true) && WordAt(w', p + n - 8) == Pack(n, true)
    requires WordAt(w', p + n - 4) == Pack(e - p - n, false) && WordAt(w', e - 8) == Pack(e - p - n, false)
    ensures HeapOk(w', Carve(b, p, e, n), l, lo, listed, brk)
  {
    CarveTiled(b, First(lo), brk, p, e, n);
    CarveTags(w, w', b, First(lo), brk, p, e, n);
    forall q | q in listed ensures !(p <= q < e) && q in b {
      assert ListedOk(b, l, q);
    }
    RegionKeepsLists(w, w', b, Carve(b, p, e, n), l, lo, brk, listed, p, e);
  }

  lemma FreeRunIs(b: Blocks, first: int, brk: int, bp: int, prev: int, prevAlloc: int, nextAlloc: int)
    requires Tiled(b, first, brk) && bp in b && !b[bp].used
    requires bp == first ==> prevAlloc == 1
    requires bp != first ==> prev in b && prev + b[prev].size == bp && prevAlloc == if b[prev].used then 1 else 0
    requires nextAlloc == if bp + b[bp].size in b && !b[bp + b[bp].size].used then 0 else 1
    ensures var next := bp + b[bp].size;
            FreeRun(b, bp, if prevAlloc == 1 then bp else prev, if nextAlloc == 1 then next else next + b[next].size)
  {
    assert BlockOk(b, first, brk, bp);
    assert prev in b ==> BlockOk(b, first, brk, prev);
    forall q | q in b && q + b[q].size == bp ensures bp != first && q == prev {
      assert BlockOk(b, first, brk, q);
      assert prev in b ==> Apart(b, q, prev) && Apart(b, prev, q) && BlockOk(b, first, brk, prev);
    }
  }

  /** A free block alone is its own fusion. */
  lemma FuseAlone(b: Blocks, first: int, brk: int, p: int)
    requires Tiled(b, first, brk) && p in b
    ensures Fuse(b, p, p + b[p].size, b[p].used) == b
  {
    forall q | q in b ensures !(p < q < p + b[p].size) {
      assert Apart(b, p, q);
    }
  }

  lemma DropFree(w: map<int, Word>, w': map<int, Word>, b: Blocks, p: int)
    requires LiveKept(w, w', b - {p}) && p in b && !b[p].used
    ensures LiveKept(w, w', b)
  {
    var c := b - {p};
    forall q | q in b && b[q].used ensures PayloadKept(w, w', q, b[q].size - 8) {
      assert c[q] == b[q] && PayloadKept(w, w', q, c[q].size - 8);
    }
  }

  /** A region in which only `x` may be in use: its payload apart, retiling it touches nothing in use. */
  ghost predicate RegionOf(b: Blocks, brk: int, p: int, e: int, x: int) {
    && p in b && x in b && p <= x < e && Boundary(b, brk, e)
    && (forall q {:trigger b[q]} | q in b && p <= q < e && q != x :: !b[q].used)
  }

  /** Every free block is listed but those from `p` up to `e`. */
  ghost predicate ListedBut(b: Blocks, listed: set<int>, p: int, e: int) {
    forall r {:trigger r in listed} :: r in listed <==> r in FreeOf(b) && !(p <= r < e)
  }

  /** A region carved into a used block and a free one: `x` gives way to the block at `p`. */
  lemma CarveLive(w: map<int, Word>, w': map<int, Word>, b: Blocks, first: int, brk: int, p: int, e: int, n: int,
                  x: int)
    requires Tiled(b, first, brk) && RegionOf(b, brk, p, e, x) && 0 < n && p + n < e
    requires SameOutside(w, w', p - 4, e - 4)
    ensures var c := Carve(b, p, e, n);
            && LiveOf(c) == (LiveOf(b) - {x})[p := n] && p + n in c && !c[p + n].used
            && (forall q {:trigger q in FreeOf(c)} ::
                  q in FreeOf(c) <==> q == p + n || (q in FreeOf(b) && !(p <= q < e)))
            && StillUsed(b - {x}, c) && LiveKept(w, w', b - {x}) && (Compact(b) ==> CompactBut(c, p + n))
  {
    var c := Carve(b, p, e, n);
    NoneInside(b, first, brk, p, e);
    RegionKeepsOthers(w, w', b, first, brk, p, e, x);
    if Compact(b) {
      CarveCompact(b, first, brk, p, e, n);
    }
  }

  /** A region made one used block. */
  lemma UseLive(w: map<int, Word>, w': map<int, Word>, b: Blocks, first: int, brk: int, p: int, e: int, x: int)
    requires Tiled(b, first, brk) && RegionOf(b, brk, p, e, x) && SameOutside(w, w', p - 4, e - 4)
    ensures var c := Fuse(b, p, e, true);
            && LiveOf(c) == (LiveOf(b) - {x})[p := e - p]
            && (forall q {:trigger q in FreeOf(c)} :: q in FreeOf(c) <==> q in FreeOf(b) && !(p <= q < e))
            && StillUsed(b - {x}, c) && LiveKept(w, w', b - {x}) && (Compact(b) ==> Compact(c))
  {
    NoneInside(b, first, brk, p, e);
    RegionKeepsOthers(w, w', b, first, brk, p, e, x);
    if Compact(b) {
      FuseCompact(b, first, brk, p, e);
    }
  }

  lemma CarveAll(w: map<int, Word>, w1: map<int, Word>, w2: map<int, Word>, b: Blocks, l: Lists, lo: int,
                 listed: set<int>,
                 brk: int, p: int, e: int, n: int, x: int)
    returns (c: Blocks)
    requires HeapOk(w, b, l, lo, listed, brk) && RegionOf(b, brk, p, e, x) && SameOutside(w, w1, p - 4, e - 4)
    requires ListedBut(b, listed, p, e)
    requires n % 8 == 0 && n >= MIN_BLOCK_SIZE && e - p - n >= MIN_BLOCK_SIZE && 0 < p && e < ADDRESS_SPACE
    requires w2 == w1[p - 4 := Pack(n, true)][p + n - 8 := Pack(n, true)]
                     [p + n - 4 := Pack(e - p - n, false)][e - 8 := Pack(e - p - n, false)]
    ensures HeapOk(w2, c, l, lo, listed, brk) && c == Carve(b, p, e, n)
    ensures p + n in c && c[p + n] == Block(e - p - n, false)
    ensures listed == FreeOf(c) - {p + n} && LiveOf(c) == (LiveOf(b) - {x})[p := n] && StillUsed(b - {x}, c)
    ensures LiveKept(w, w2, b - {x}) && PayloadKept(w1, w2, p, n - 8)
    ensures Compact(b) ==> CompactBut(c, p + n)
    ensures (e in c <==> e in b) && (e in b ==> c[e] == b[e])
  {
    c := Carve(b, p, e, n);
    SameOutsideTrans(w, w1, w2, p - 4, e - 4);
    CarveHeap(w, w2, b, l, lo, listed, brk, p, e, n);
    CarveLive(w, w2, b, First(lo), brk, p, e, n, x);
  }

  lemma UseAll(w: map<int, Word>, w1: map<int, Word>, w2: map<int, Word>, b: Blocks, l: Lists, lo: int,
               listed: set<int>,
               brk: int, p: int, e: int, x: int)
    returns (c: Blocks)
    requires HeapOk(w, b, l, lo, listed, brk) && RegionOf(b, brk, p, e, x) && SameOutside(w, w1, p - 4, e - 4)
    requires ListedBut(b, listed, p, e)
    requires 0 < p && e < ADDRESS_SPACE
    requires w2 == w1[p - 4 := Pack(e - p, true)][e - 8 := Pack(e - p, true)]
    ensures HeapOk(w2, c, l, lo, listed, brk) && listed == FreeOf(c) && c == Fuse(b, p, e, true)
    ensures LiveOf(c) == (LiveOf(b) - {x})[p := e - p] && StillUsed(b - {x}, c)
    ensures LiveKept(w, w2, b - {x}) && PayloadKept(w1, w2, p, e - p - 8)
    ensures Compact(b) ==> Compact(c)
  {
    c := Fuse(b, p, e, true);
    FuseSize(b, First(lo), brk, p, e);
    SameOutsideTrans(w, w1, w2, p - 4, e - 4);
    FuseHeap(w, w2, b, l, lo, listed, brk, p, e, true);
    UseLive(w, w2, b, First(lo), brk, p, e, x);
    forall q ensures q in listed <==> q in FreeOf(c) {
    }
  }

  lemma NoneInside(b: Blocks, first: int, brk: int, p: int, e: int)
    requires Tiled(b, first, brk) && p in b && Boundary(b, brk, e)
    ensures e in b || e !in b.Keys
    ensures forall q {:trigger q in b} :: q in b && q != e ==> q < e ==> q + b[q].size <= e
  {
    forall q | q in b && q < e ensures q + b[q].size <= e {
      assert BlockOk(b, first, brk, q);
      assert e in b ==> Apart(b, q, e);
    }
  }

  lemma ExtendLists(w: map<int, Word>, w': map<int, Word>, b: Blocks, l: Lists, lo: int, listed: set<int>, brk: int,
                    n: int)
    requires HeapOk(w, b, l, lo, listed, brk) && n > 0 && SameOutside(w, w', brk - 4, brk + n) && brk !in b
    ensures SegOk(w', b[brk := Block(n, false)], l, lo, listed)
  {
    var c := b[brk := Block(n, false)];
    forall i | 0 <= i < N_SEGLIST ensures LevelOk(w', c, l, lo, listed, i) {
      assert LevelOk(w, b, l, lo, listed, i);
      forall k | 0 <= k < |l[i]|
        ensures WordAt(w', l[i][k]) == WordAt(w, l[i][k]) && WordAt(w', l[i][k] + 4) == WordAt(w, l[i][k] + 4)
      {
        assert BlockOk(b, First(lo), brk, l[i][k]);
      }
      SameLinks(w, w', Root(lo, i), l[i]);
    }
    forall q | q in listed ensures ListedOk(c, l, q) {
      assert ListedOk(b, l, q);
    }
  }

  /** The heap grown by `n` bytes: a free block where the epilogue was, and a new epilogue. */
  lemma ExtendHeapOk(w: map<int, Word>, w': map<int, Word>, b: Blocks, l: Lists, lo: int, listed: set<int>, brk: int,
                     n: int)
    requires HeapOk(w, b, l, lo, listed, brk) && brk + n < ADDRESS_SPACE && n % 8 == 0 && n >= MIN_BLOCK_SIZE
    requires w' == w[brk - 4 := Pack(n, false)][brk + n - 8 := Pack(n, false)][brk + n - 4 := Pack(0, true)]
    ensures var c := b[brk := Block(n, false)];
            && HeapOk(w', c, l, lo, listed, brk + n) && LiveKept(w, w', b) && LiveOf(c) == LiveOf(b) && StillUsed(b, c)
            && brk !in b && FreeOf(c) == FreeOf(b) + {brk} && (Compact(b) ==> CompactBut(c, brk))
  {
    var c, first := b[brk := Block(n, false)], First(lo);
    ExtendTiled(b, first, brk, n);
    assert brk in b ==> BlockOk(b, first, brk, brk);
    forall q | q in c ensures TagOk(w', c, q) {
      assert q in b ==> TagOk(w, b, q) && BlockOk(b, first, brk, q);
    }
    ExtendLists(w, w', b, l, lo, listed, brk, n);
    forall q | q in b && b[q].used ensures PayloadKept(w, w', q, b[q].size - 8) {
      assert BlockOk(b, first, brk, q);
    }
    if Compact(b) {
      ExtendCompact(b, first, brk, n);
    }
  }

  lemma BrkAligned(b: Blocks, first: int, brk: int)
    requires Tiled(b, first, brk)
    ensures brk % 8 == 0
  {
    if first != brk {
      var last := PrevBlock(b, first, brk, brk);
      assert BlockOk(b, first, brk, last);
    }
  }

  lemma WordPairs(words: int)
    ensures (words + words % 2) * 4 % 8 == 0
    ensures words % 2 == 1 || words % 2 == 0
  {
    var h := (words + words % 2) / 2;
    assert words + words % 2 == 2 * h;
    assert (words + words % 2) * 4 == 8 * h;
  }

  /** The heap of mm_init before its first extension. */
  lemma EmptyHeapOk(w: map<int, Word>, l: Lists, lo: int)
    requires 0 < lo && lo % 8 == 0 && First(lo) < ADDRESS_SPACE && l == seq(N_SEGLIST, i => [])
    requires forall j :: 0 <= j < N_SEGLIST ==> WordAt(w, Root(lo, j)) == 0
    requires WordAt(w, First(lo) - 12) == 9 && WordAt(w, First(lo) - 8) == 9 && WordAt(w, First(lo) - 4) == 1
    ensures HeapOk(w, map[], l, lo, {}, First(lo))
  {
    forall i | 0 <= i < N_SEGLIST ensures LevelOk(w, map[], l, lo, {}, i) {
      assert l[i] == [] && WordAt(w, Root(lo, i)) == 0;
    }
  }

  /** A compact heap with nothing in use is a single free block. */
  lemma AllFree(b: Blocks, first: int, brk: int)
    requires Tiled(b, first, brk) && Compact(b) && first < brk && LiveOf(b) == map[]
    ensures b == map[first := Block(brk - first, false)]
  {
    assert forall p :: p in b ==> !b[p].used by {
      forall p | p in b ensures !b[p].used {
        assert b[p].used ==> p in LiveOf(b);
      }
    }
    assert NextOk(b, brk, first) && GapOk(b, first) && BlockOk(b, first, brk, first);
    forall p | p in b ensures p == first {
      assert BlockOk(b, first, brk, p) && Apart(b, first, p);
    }
  }

  // ---------- requests ----------

  /** The largest request whose adjusted size does not wrap around in 32 bits. */
  const MAX_REQUEST: int := ADDRESS_SPACE - 16

  /** The block size of a request: room for header and footer, in double words. */
  function AdjustedSize(size: int): int {
    if size <= 8 then 16 else 8 * ((size + 15) / 8)
  }

  lemma AdjustedRange(size: int)
    requires 1 <= size
    ensures AdjustedSize(size) % 8 == 0 && AdjustedSize(size) >= MIN_BLOCK_SIZE
    ensures size + 8 <= AdjustedSize(size) <= size + 15
  {
  }

  /** Less than a block left over is nothing or one double word. */
  lemma SlackOf(size: int, asize: int)
    requires size % 8 == 0 && asize % 8 == 0 && asize <= size
    ensures size - asize < MIN_BLOCK_SIZE ==> size == asize || size == asize + 8
  {
    assert size - asize == 8 * (size / 8 - asize / 8);
  }

  /** The same in the unsigned 32-bit arithmetic of the code. */
  function AdjustedSize32(size: int): int {
    if size <= 8 then 16 else 8 * ((size + 15) % ADDRESS_SPACE / 8)
  }

  /** The adjusted size holds the request and its tags exactly up to MAX_REQUEST. */
  lemma AdjustedSizeFits(size: int)
    requires 0 <= size < ADDRESS_SPACE
    ensures size <= MAX_REQUEST <==> AdjustedSize32(size) >= size + 8
    ensures size <= MAX_REQUEST ==> AdjustedSize32(size) == AdjustedSize(size)
  {
    if size > MAX_REQUEST {
      assert (size + 15) % ADDRESS_SPACE == size + 15 - ADDRESS_SPACE;
    }
  }

  /** What mm_malloc asks of mem_sbrk when nothing fits. */
  function Growth(size: int): (n: int)
    ensures n >= 4096 && n >= AdjustedSize(size)
  {
    if AdjustedSize(size) > CHUNKSIZE then AdjustedSize(size) else CHUNKSIZE
  }

  /** What place makes of a free block of `size` bytes: all of it, when less than a block would be left. */
  function Placed(size: int, asize: int): int {
    if size - asize >= MIN_BLOCK_SIZE then asize else size
  }

  /** Where a heap that grows gets its new space: the free block that ends at the break, or the break itself. */
  ghost predicate TopStart(b: Blocks, brk: int, r: int) {
    if r == brk then forall q {:trigger b[q]} :: q in b && q + b[q].size == brk ==> b[q].used
    else EndsAt(b, r, brk) && !b[r].used
  }

  /** Where a request is served when it needs a block of its own, and how large that is: a smallest free block that
      fits, or else the free space at the end of a heap that grows by the size needed, and by at least 4096 bytes. */
  ghost predicate ServedAt(b: Blocks, brk: int, live': map<int, int>, brk': int, r: int, size: int) {
    var asize := AdjustedSize(size);
    && r in live'
    && if NoFit(b, asize) then
         && brk' - brk == (if asize > 4096 then asize else 4096)
         && TopStart(b, brk, r) && live'[r] == Placed(brk' - r, asize)
       else brk' == brk && BestFit(b, FreeOf(b), r, asize) && live'[r] == Placed(b[r].size, asize)
  }

  /** It is an even number of words. */
  lemma GrowthWords(size: int)
    requires 0 < size <= MAX_REQUEST
    ensures var words := Growth(size) / WSIZE;
            words * WSIZE == Growth(size) && words % 2 == 0 && 4 <= words && WSIZE * (words + 1) < ADDRESS_SPACE
  {
    AdjustedRange(size);
    var k := Growth(size) / 8;
    assert Growth(size) == 8 * k && Growth(size) / 4 == 2 * k;
  }

  ghost predicate NoFit(b: Blocks, asize: int) {
    forall p {:trigger b[p]} :: p in b && !b[p].used ==> b[p].size < asize
  }

  /** `r` is a new block in use, large enough for `size` bytes and wasting at most 23; nothing else changed. */
  ghost predicate Granted(live: map<int, int>, live': map<int, int>, r: int, size: int) {
    && r !in live && r in live' && live' == live[r := live'[r]]
    && 8 <= live'[r] - size <= 23
    && (live'[r] == AdjustedSize(size) || live'[r] == AdjustedSize(size) + 8)
  }

  // ---------- reallocation ----------

  /** The size of the free block after `p`, or 0 if it is in use or there is none. */
  ghost function NextFree(b: Blocks, p: int): int
    requires p in b
  {
    var q := p + b[p].size;
    if q in b && !b[q].used then b[q].size else 0
  }

  /** The size of the free block before `p`, or 0 if it is in use or there is none. */
  ghost function PrevFree(b: Blocks, p: int): int {
    if exists q :: EndsAt(b, q, p) && !b[q].used then
      var q :| EndsAt(b, q, p) && !b[q].used;
      b[q].size
    else 0
  }

  /** A free block starts at `e`. */
  ghost predicate FreeAt(b: Blocks, e: int) {
    e in b && !b[e].used
  }

  ghost predicate EndsAt(b: Blocks, q: int, p: int) {
    q in b && q + b[q].size == p
  }

  /** No comparison mm_realloc makes subtracts from a sum smaller than the adjusted size. */
  ghost predicate ReallocSafe(b: Blocks, p: int, size: int)
    requires p in b
  {
    var c, a, n, v := b[p].size, AdjustedSize(size), NextFree(b, p), PrevFree(b, p);
    c >= a || ((n > 0 ==> c + n >= a) && (v > 0 && !(n > 0 && c + n > a) ==> c + v >= a))
  }

  /** The call whose Case 2.2.1 leaves a free block in front of another one: growing into the
      block before, while the block after is free and just one tag pair too small. */
  ghost predicate LeavesGap(b: Blocks, p: int, size: int)
    requires p in b
  {
    var c, a, n, v := b[p].size, AdjustedSize(size), NextFree(b, p), PrevFree(b, p);
    c < a && n > 0 && c + n == a && v > 0 && c + v > a + 8
  }

  /** Past Case 2.1, a safe call leaves a gap exactly when a free block follows and Case 2.2.1 is taken. */
  lemma GapOnly(b: Blocks, p: int, size: int)
    requires p in b && b[p].size < AdjustedSize(size) && ReallocSafe(b, p, size)
    requires NextFree(b, p) == 0 || 0 < NextFree(b, p) <= AdjustedSize(size) - b[p].size
    ensures LeavesGap(b, p, size) <==>
            NextFree(b, p) != 0 && PrevFree(b, p) > 0 && b[p].size + PrevFree(b, p) > AdjustedSize(size) + 8
  {
  }

  /** Where a block that has to grow goes without a new allocation; 0 when it needs one. */
  ghost function GrowTarget(b: Blocks, p: int, size: int): int
    requires p in b
  {
    var c, a, n, v := b[p].size, AdjustedSize(size), NextFree(b, p), PrevFree(b, p);
    if n > 0 && c + n > a then p
    else if v > 0 && (c + v > a || n > 0) then p - v
    else 0
  }

  /** The block has to grow, and needs a new allocation for it. */
  ghost predicate Moves(b: Blocks, p: int, size: int)
    requires p in b
  {
    b[p].size < AdjustedSize(size) && GrowTarget(b, p, size) == 0
  }

  /** The live blocks after reallocating `ptr`, at `r`, for `size` bytes. */
  ghost predicate Regranted(live: map<int, int>, live': map<int, int>, ptr: int, r: int, size: int) {
    && ptr in live && r in live' && (r == ptr || r !in live)
    && live' == (live - {ptr})[r := live'[r]]
    && 8 <= live'[r] - size <= 23
  }

  /** The words of `n` bytes from `src` in the memory `w` are at `dst` in `w'`. */
  ghost predicate Moved(w: map<int, Word>, w': map<int, Word>, src: int, dst: int, n: int) {
    forall a {:trigger WordAt(w', a)} | dst <= a < dst + n && a % 4 == 0 :: WordAt(w', a) == WordAt(w, a - dst + src)
  }

  /** `ptr` has been reallocated at `r`: its payload is there as far as it fits, and nothing else in use has changed. */
  ghost predicate Reallocated(w: map<int, Word>, w': map<int, Word>, b: Blocks, c: Blocks, ptr: int, r: int,
                              size: int) {
    && ptr in b && r in c && Regranted(LiveOf(b), LiveOf(c), ptr, r, size)
    && LiveKept(w, w', b - {ptr})
    && Moved(w, w', ptr, r, Min(b[ptr].size, c[r].size) - 8)
  }

  lemma KeptSame(w: map<int, Word>, b: Blocks)
    ensures LiveKept(w, w, b)
  {
  }

  lemma DropOne(w: map<int, Word>, w': map<int, Word>, b: Blocks, x: int)
    requires LiveKept(w, w', b)
    ensures LiveKept(w, w', b - {x})
  {
    var c := b - {x};
    forall q | q in c && c[q].used ensures PayloadKept(w, w', q, c[q].size - 8) {
      assert b[q] == c[q] && PayloadKept(w, w', q, b[q].size - 8);
    }
  }

  /** What is left to say of a block cut down where it is. */
  lemma KeptInPlace(w: map<int, Word>, w': map<int, Word>, b: Blocks, c: Blocks, ptr: int, n: int, size: int)
    requires ptr in b && b[ptr].used && n <= b[ptr].size && 8 <= n - size <= 23
    requires LiveOf(c) == (LiveOf(b) - {ptr})[ptr := n]
    requires LiveKept(w, w', b - {ptr}) && PayloadKept(w, w', ptr, n - 8)
    ensures Reallocated(w, w', b, c, ptr, ptr, size)
  {
    assert ptr in LiveOf(c) && LiveOf(c)[ptr] == n;
  }

  /** A growing block is copied whole: the copied length is a number of double words. */
  lemma CopyLength(copySize: int, size: int)
    requires copySize % 8 == 0 && size > 0 && copySize < AdjustedSize(size)
    ensures copySize - 8 <= size && copySize + 8 <= AdjustedSize(size)
  {
    AdjustedRange(size);
    var k, m := copySize / 8, AdjustedSize(size) / 8;
    assert copySize == 8 * k && AdjustedSize(size) == 8 * m;
  }

  /** What is left to say of a block that has grown, at `r`: the lists changed before `w1`, the region after it. */
  lemma MovedTo(w0: map<int, Word>, w1: map<int, Word>, w2: map<int, Word>, b: Blocks, c: Blocks, ptr: int, r: int,
                n: int, size: int)
    requires ptr in b && b[ptr].used && b[ptr].size <= n && 8 <= n - size <= 23 && (r == ptr || r !in LiveOf(b))
    requires LiveOf(c) == (LiveOf(b) - {ptr})[r := n]
    requires LiveKept(w0, w1, b) && LiveKept(w1, w2, b - {ptr}) && Moved(w1, w2, ptr, r, b[ptr].size - 8)
    ensures Reallocated(w0, w2, b, c, ptr, r, size)
  {
    DropOne(w0, w1, b, ptr);
    LiveKeptTrans(w0, w1, w2, b - {ptr}, b - {ptr});
    assert r in LiveOf(c) && LiveOf(c)[r] == n;
    var m := b[ptr].size - 8;
    assert PayloadKept(w0, w1, ptr, m);
    forall a | r <= a < r + m && a % 4 == 0 ensures WordAt(w2, a) == WordAt(w0, a - r + ptr) {
      assert WordAt(w1, a - r + ptr) == WordAt(w0, a - r + ptr);
    }
  }

  /** A payload copied to the front of a region that is then built up around it. */
  lemma MovedCopy(w: map<int, Word>, w': map<int, Word>, w'': map<int, Word>, src: int, dst: int, m: int, n: int)
    requires Copied(w, w', dst, src, m) && PayloadKept(w', w'', dst, n) && m <= n
    ensures Moved(w, w'', src, dst, m)
  {
    forall a | dst <= a < dst + m && a % 4 == 0 ensures WordAt(w'', a) == WordAt(w, a - dst + src) {
      assert WordAt(w', a) == WordAt(w, a - dst + src);
    }
  }

  /** A payload that stays where it is. */
  lemma MovedNot(w: map<int, Word>, w': map<int, Word>, p: int, m: int, n: int)
    requires PayloadKept(w, w', p, n) && m <= n
    ensures Moved(w, w', p, p, m)
  {
  }

  /** The listed but unjoined tail of a region that ends at `e` can only be beside a free block there. */
  lemma TailGap(c: Blocks, first: int, brk: int, r: int, q: int, e: int)
    requires Tiled(c, first, brk) && q in c && !c[q].used && CompactBut(c, q) && q + c[q].size == e
    requires r in LiveOf(c) && r + c[r].size == q
    ensures Compact(c) <==> !FreeAt(c, e)
  {
    assert NextOk(c, brk, q);
    if FreeAt(c, e) {
      assert !GapOk(c, q);
    } else {
      forall p | p in c ensures GapOk(c, p) {
        assert r in LiveOf(c) && Apart(c, p, r) && Apart(c, r, p);
        assert BlockOk(c, first, brk, p) && BlockOk(c, first, brk, r);
      }
    }
  }

  lemma PayloadHeapOk(w: map<int, Word>, w': map<int, Word>, b: Blocks, l: Lists, lo: int, listed: set<int>, brk: int,
                      p: int, x: int, y: int)
    requires HeapOk(w, b, l, lo, listed, brk) && p in b && b[p].used
    requires p - 3 <= x && y <= p + b[p].size - 8 && SameOutside(w, w', x, y)
    ensures HeapOk(w', b, l, lo, listed, brk) && LiveKept(w, w', b - {p})
  {
    var first, e := First(lo), p + b[p].size;
    assert NextOk(b, brk, p) && BlockOk(b, first, brk, p) && TagOk(w, b, p);
    forall q | q in b ensures p <= q < e ==> q == p {
      assert Apart(b, p, q);
    }
    assert TagOk(w', b, p);
    RetileTags(w, w', b, b, first, brk, p, e);
    forall q | q in listed ensures !(p <= q < e) && q in b {
      assert ListedOk(b, l, q);
    }
    RegionKeepsLists(w, w', b, b, l, lo, brk, listed, p, e);
    RegionKeepsOthers(w, w', b, first, brk, p, e, p);
  }

  /** After mm_malloc the old block is as it was and the new one is another block. */
  lemma GrantedTo(b: Blocks, c: Blocks, ptr: int, r: int, size: int)
    requires ptr in b && b[ptr].used && Granted(LiveOf(b), LiveOf(c), r, size)
    ensures r != ptr && ptr in c && c[ptr] == b[ptr] && r in c && c[r].used && StillUsed(b, c)
    ensures size > 0 ==> c[r].size >= AdjustedSize(size)
  {
    assert ptr in LiveOf(b) && ptr in LiveOf(c) && r in LiveOf(c);
    forall p | p in b && b[p].used ensures p in c && c[p] == b[p] {
      assert p in LiveOf(b) && p in LiveOf(c) && LiveOf(c)[p] == LiveOf(b)[p];
    }
  }

  /** What is left to say of Case 2.4. */
  lemma MovedAway(w0: map<int, Word>, w1: map<int, Word>, w2: map<int, Word>, w3: map<int, Word>,
                  b0: Blocks, b1: Blocks, b2: Blocks, ptr: int, r: int, size: int)
    requires ptr in b0 && b0[ptr].used && Granted(LiveOf(b0), LiveOf(b1), r, size)
    requires r != ptr && ptr in b1 && b1[ptr] == b0[ptr] && r in b1 && b1[r].used && StillUsed(b0, b1)
    requires b0[ptr].size <= b1[r].size && LiveOf(b2) == LiveOf(b1) - {ptr}
    requires LiveKept(w0, w1, b0) && LiveKept(w1, w2, b1 - {r}) && LiveKept(w2, w3, b1 - {ptr})
    requires Copied(w1, w2, r, ptr, b0[ptr].size - 8)
    ensures Reallocated(w0, w3, b0, b2, ptr, r, size)
  {
    assert r in LiveOf(b1) && r in LiveOf(b2) && LiveOf(b2)[r] == b1[r].size;
    forall p | p in b0 - {ptr} && b0[p].used ensures PayloadKept(w0, w3, p, b0[p].size - 8) {
      assert p in LiveOf(b0) && b1[p] == b0[p];
      assert PayloadKept(w0, w1, p, b0[p].size - 8);
      assert (b1 - {r})[p] == b1[p] && PayloadKept(w1, w2, p, (b1 - {r})[p].size - 8);
      assert (b1 - {ptr})[p] == b1[p] && PayloadKept(w2, w3, p, (b1 - {ptr})[p].size - 8);
      forall a | p <= a < p + b0[p].size - 8 ensures WordAt(w3, a) == WordAt(w0, a) {
        assert WordAt(w2, a) == WordAt(w1, a) && WordAt(w1, a) == WordAt(w0, a);
      }
    }
    var m := b0[ptr].size - 8;
    assert PayloadKept(w0, w1, ptr, m);
    assert (b1 - {ptr})[r] == b1[r] && PayloadKept(w2, w3, r, (b1 - {ptr})[r].size - 8);
    forall a | r <= a < r + m && a % 4 == 0 ensures WordAt(w3, a) == WordAt(w0, a - r + ptr) {
      assert WordAt(w2, a) == WordAt(w1, a - r + ptr) && WordAt(w1, a - r + ptr) == WordAt(w0, a - r + ptr);
    }
  }

  /** Subtraction of unsigned 32-bit sizes. */
  function Sub32(x: int, y: int): int {
    (x - y) % ADDRESS_SPACE
  }

  lemma EightsAdd(x: int, y: int)
    requires x % 8 == 0 && y % 8 == 0
    ensures (x + y) % 8 == 0 && (x - y) % 8 == 0
  {
    assert x + y == 8 * (x / 8 + y / 8) && x - y == 8 * (x / 8 - y / 8);
  }

  /** The addresses before the end of a block of `n` bytes at `p`. */
  lemma EndWords(p: int, n: int)
    requires p % 8 == 0 && n % 8 == 0
    ensures (p + n - 8) % 4 == 0 && (p + n - 4) % 4 == 0
  {
    EightsAdd(p, n);
    WordMultiple(p + n, -2);
    WordMultiple(p + n, -1);
  }

  /** What a comparison of mm_realloc sees of a region no smaller than the block wanted. */
  lemma LeftOver(copySize: int, rest: int, size: int)
    requires copySize % 8 == 0 && rest % 8 == 0 && size > 0 && AdjustedSize(size) <= copySize + rest < ADDRESS_SPACE
    ensures var left := Sub32(copySize + rest, AdjustedSize(size));
            left == copySize + rest - AdjustedSize(size) && (left < MIN_BLOCK_SIZE ==> left <= 8)
  {
    AdjustedRange(size);
    EightsAdd(copySize, rest);
    SlackOf(copySize + rest, AdjustedSize(size));
  }

  lemma PrevFreeIs(b: Blocks, first: int, brk: int, p: int, q: int, alloc: int)
    requires Tiled(b, first, brk) && p in b
    requires p == first ==> alloc == 1
    requires p != first ==> q in b && q + b[q].size == p && alloc == if b[q].used then 1 else 0
    ensures alloc == 0 ==> PrevFree(b, p) == b[q].size
    ensures alloc == 1 ==> PrevFree(b, p) == 0
  {
    forall r | EndsAt(b, r, p) ensures p != first && r == q {
      assert BlockOk(b, first, brk, r);
      assert q in b ==> Apart(b, r, q) && Apart(b, q, r) && BlockOk(b, first, brk, q);
    }
    assert alloc == 0 ==> EndsAt(b, q, p);
  }

  // ---------- best fit ----------

  /** `r` is listed and fits, and no listed block that fits is smaller. */
  ghost predicate BestFit(b: Blocks, listed: set<int>, r: int, size: int) {
    && r in listed && r in b && b[r].size >= size
    && (forall q {:trigger q in listed} :: q in listed ==> q in b && (b[q].size >= size ==> b[q].size >= b[r].size))
  }

  /** A block below class `i` is too small. */
  ghost predicate Beyond(b: Blocks, i: int, size: int, q: int) {
    q in b && (Level(b[q].size) < i ==> b[q].size < size)
  }

  lemma FirstFits(w: map<int, Word>, b: Blocks, l: Lists, lo: int, listed: set<int>, i: int, k: int, size: int)
    requires SegOk(w, b, l, lo, listed) && 0 <= i < N_SEGLIST && 0 <= k < |l[i]|
    requires forall q {:trigger Beyond(b, i, size, q)} :: q in listed ==> Beyond(b, i, size, q)
    requires l[i][k] in b && b[l[i][k]].size >= size
    requires k > 0 ==> l[i][k - 1] in b && b[l[i][k - 1]].size < size
    ensures BestFit(b, listed, l[i][k], size)
  {
    var s := l[i];
    assert LevelOk(w, b, l, lo, listed, i);
    forall q | q in listed ensures q in b && (b[q].size >= size ==> b[q].size >= b[s[k]].size) {
      assert ListedOk(b, l, q) && Beyond(b, i, size, q);
      LevelMonotone(b[s[k]].size, b[q].size);
      if Level(b[q].size) == i {
        var m :| 0 <= m < |s| && s[m] == q;
        assert m < k ==> b[s[m]].size <= b[s[k - 1]].size;
        assert m > k ==> b[s[k]].size <= b[s[m]].size;
      }
    }
  }

  lemma NoneFits(w: map<int, Word>, b: Blocks, l: Lists, lo: int, listed: set<int>, i: int, j: int, size: int)
    requires SegOk(w, b, l, lo, listed) && 0 <= i < N_SEGLIST && j == i + 1
    requires forall q {:trigger Beyond(b, i, size, q)} :: q in listed ==> Beyond(b, i, size, q)
    requires |l[i]| > 0 ==> l[i][|l[i]| - 1] in b && b[l[i][|l[i]| - 1]].size < size
    ensures forall q {:trigger Beyond(b, j, size, q)} :: q in listed ==> Beyond(b, j, size, q)
  {
    var s := l[i];
    assert LevelOk(w, b, l, lo, listed, i);
    forall q | q in listed ensures Beyond(b, j, size, q) {
      assert ListedOk(b, l, q) && Beyond(b, i, size, q);
      if Level(b[q].size) == i {
        var m :| 0 <= m < |s| && s[m] == q;
        assert m < |s| - 1 ==> b[s[m]].size <= b[s[|s| - 1]].size;
      }
    }
  }

  lemma WordMultiple(a: int, k: int)
    requires a % 8 == 0
    ensures (a + 4 * k) % 4 == 0
  {
    assert a + 4 * k == 4 * (2 * (a / 8) + k);
  }
}
