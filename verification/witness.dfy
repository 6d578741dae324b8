/** Runs of the allocator, from mm_init on, that reach the heaps on which mm_realloc does not do what one
    might expect of it. */
module Witness {
  import opened MemLib
  import opened BlockMap
  import opened SegList
  import opened Heap
  import opened Layout
  import opened Mm

  /** The tiling by the blocks of `s`, from `p` on. */
  ghost function Laid(p: int, s: seq<Block>): Blocks
    decreases |s|
  {
    if |s| == 0 then map[] else Laid(p + s[0].size, s[1..])[p := s[0]]
  }

  ghost function Extent(s: seq<Block>): int {
    if |s| == 0 then 0 else s[0].size + Extent(s[1..])
  }

  ghost predicate BlocksOk(s: seq<Block>) {
    forall k {:trigger s[k]} :: 0 <= k < |s| ==> s[k].size % 8 == 0 && s[k].size >= MIN_BLOCK_SIZE
  }

  /** No two neighbours are free. */
  ghost predicate Alternate(s: seq<Block>) {
    forall k {:trigger s[k]} :: 0 <= k < |s| - 1 ==> s[k].used || s[k + 1].used
  }

  lemma {:induction false} LaidTiled(p: int, s: seq<Block>)
    requires p % 8 == 0 && BlocksOk(s)
    ensures Tiled(Laid(p, s), p, p + Extent(s)) && Extent(s) >= 0
    ensures |s| > 0 ==> p in Laid(p, s) && Laid(p, s)[p] == s[0]
    ensures Alternate(s) ==> Compact(Laid(p, s))
    decreases |s|
  {
    if |s| > 0 {
      var n, c := p + s[0].size, Laid(p + s[0].size, s[1..]);
      assert n == 8 * (p / 8 + s[0].size / 8);
      LaidTiled(n, s[1..]);
      FrontTiled(c, p, s[0].size, s[0].used, p + Extent(s));
      if Alternate(s) {
        assert forall k :: 0 <= k < |s[1..]| ==> s[1..][k] == s[k + 1];
        assert s[0].used || |s| == 1 || s[1].used;
        FrontCompact(c, p, s[0], p + Extent(s));
      }
    }
  }

  /** A block in front of a compact tiling keeps it compact, if it and the one behind it are not both free. */
  lemma FrontCompact(c: Blocks, p: int, f: Block, brk: int)
    requires Tiled(c, p + f.size, brk) && Compact(c) && f.size >= MIN_BLOCK_SIZE
    requires f.used || p + f.size !in c || c[p + f.size].used
    ensures Compact(c[p := f])
  {
    var b := c[p := f];
    forall q | q in b
      ensures GapOk(b, q)
    {
      assert q in c ==> GapOk(c, q) && BlockOk(c, p + f.size, brk, q);
    }
  }

  /** mm_malloc when one free block is known to fit, and it is the only free one. */
  method Take(a: Allocator, size: int, ghost p: int, ghost d: Blocks) returns (r: int)
    requires a.Valid() && Compact(a.blocks) && 0 < size <= MAX_REQUEST
    requires p in a.blocks && !a.blocks[p].used && AdjustedSize(size) <= a.blocks[p].size
    requires forall q {:trigger a.blocks[q]} :: q in a.blocks && !a.blocks[q].used ==> q == p
    requires Tiled(d, First(a.mem.start), a.mem.brk) && Compact(d)
    requires LiveOf(d) == LiveOf(a.blocks)[p := Placed(a.blocks[p].size, AdjustedSize(size))]
    modifies a`blocks, a`lists, a`listed, a.mem`words, a.mem`brk, a.mem.data
    ensures a.Valid() && a.mem.brk == old(a.mem.brk) && r == p && a.blocks == d
  {
    assert !NoFit(a.blocks, AdjustedSize(size));
    r := a.MmMalloc(size);
    LayoutDetermined(a.blocks, d, First(a.mem.start), a.mem.brk);
  }

  method Return(a: Allocator, p: int, ghost d: Blocks)
    requires a.Valid() && Compact(a.blocks) && p in LiveOf(a.blocks)
    requires Tiled(d, First(a.mem.start), a.mem.brk) && Compact(d) && LiveOf(d) == LiveOf(a.blocks) - {p}
    modifies a`blocks, a`lists, a`listed, a.mem`words, a.mem.data
    ensures a.Valid() && a.mem.brk == old(a.mem.brk) && a.blocks == d
  {
    a.BlockWords(p);
    a.MmFree(p);
    LayoutDetermined(a.blocks, d, First(a.mem.start), a.mem.brk);
  }

  /** Tilings of the heap mm_init makes, by up to four blocks. */
  ghost function Four(f: int, b0: Block, b1: Block, b2: Block, b3: Block): Blocks {
    map[f := b0, f + b0.size := b1, f + b0.size + b1.size := b2, f + b0.size + b1.size + b2.size := b3]
  }

  ghost function Three(f: int, b0: Block, b1: Block, b2: Block): Blocks {
    map[f := b0, f + b0.size := b1, f + b0.size + b1.size := b2]
  }

  ghost function Two(f: int, b0: Block, b1: Block): Blocks {
    map[f := b0, f + b0.size := b1]
  }

  lemma LaidFront(p: int, b: Block, rest: seq<Block>)
    ensures Laid(p, [b] + rest) == Laid(p + b.size, rest)[p := b] && Extent([b] + rest) == b.size + Extent(rest)
  {
    assert ([b] + rest)[1..] == rest;
  }

  lemma TwoLaid(f: int, b0: Block, b1: Block)
    requires b0.size > 0
    ensures Laid(f, [b0, b1]) == Two(f, b0, b1) && Extent([b0, b1]) == b0.size + b1.size
  {
    assert [b0, b1] == [b0] + ([b1] + []);
    LaidFront(f, b0, [b1] + []);
    LaidFront(f + b0.size, b1, []);
    assert Laid(f + b0.size, [b1]) == map[f + b0.size := b1];
    assert Laid(f, [b0, b1]) == Two(f, b0, b1);
  }

  lemma ThreeLaid(f: int, b0: Block, b1: Block, b2: Block)
    requires b0.size > 0 && b1.size > 0
    ensures Laid(f, [b0, b1, b2]) == Three(f, b0, b1, b2) && Extent([b0, b1, b2]) == b0.size + b1.size + b2.size
  {
    assert [b0, b1, b2] == [b0] + [b1, b2];
    LaidFront(f, b0, [b1, b2]);
    TwoLaid(f + b0.size, b1, b2);
    assert Laid(f, [b0, b1, b2]) == Three(f, b0, b1, b2);
  }

  lemma FourTiled(f: int, b0: Block, b1: Block, b2: Block, b3: Block)
    requires f % 8 == 0 && BlocksOk([b0, b1, b2, b3]) && b0.size + b1.size + b2.size + b3.size == CHUNKSIZE
    requires (b0.used || b1.used) && (b1.used || b2.used) && (b2.used || b3.used)
    ensures Tiled(Four(f, b0, b1, b2, b3), f, f + CHUNKSIZE) && Compact(Four(f, b0, b1, b2, b3))
  {
    var s := [b0, b1, b2, b3];
    assert s == [b0] + [b1, b2, b3] && s[0] == b0 && s[1] == b1 && s[2] == b2 && s[3] == b3;
    LaidFront(f, b0, [b1, b2, b3]);
    ThreeLaid(f + b0.size, b1, b2, b3);
    assert Laid(f, s) == Four(f, b0, b1, b2, b3);
    LaidTiled(f, [b0, b1, b2, b3]);
  }

  lemma ThreeTiled(f: int, b0: Block, b1: Block, b2: Block)
    requires f % 8 == 0 && BlocksOk([b0, b1, b2]) && b0.size + b1.size + b2.size == CHUNKSIZE
    requires (b0.used || b1.used) && (b1.used || b2.used)
    ensures Tiled(Three(f, b0, b1, b2), f, f + CHUNKSIZE) && Compact(Three(f, b0, b1, b2))
  {
    var s := [b0, b1, b2];
    assert s[0] == b0 && s[1] == b1 && s[2] == b2;
    ThreeLaid(f, b0, b1, b2);
    LaidTiled(f, [b0, b1, b2]);
  }

  lemma TwoTiled(f: int, b0: Block, b1: Block)
    requires f % 8 == 0 && BlocksOk([b0, b1]) && b0.size + b1.size == CHUNKSIZE && (b0.used || b1.used)
    ensures Tiled(Two(f, b0, b1), f, f + CHUNKSIZE) && Compact(Two(f, b0, b1))
  {
    var s := [b0, b1];
    assert s[0] == b0 && s[1] == b1;
    TwoLaid(f, b0, b1);
    LaidTiled(f, [b0, b1]);
  }

  ghost function Used(size: int): Block { Block(size, true) }
  ghost function Free(size: int): Block { Block(size, false) }

  method StartHeap(a: Allocator) returns (p: int, q: int)
    requires a.mem.Valid() && a.mem.brk == a.mem.start
    modifies a, a.mem`words, a.mem`brk, a.mem.data
    ensures a.Valid() && a.mem.brk == First(a.mem.start) + CHUNKSIZE
    ensures p == First(a.mem.start) && q == p + 32 && a.blocks == Three(p, Used(32), Used(16), Free(4048))
  {
    var inited := a.MmInit();
    ghost var f := First(a.mem.start);
    TwoTiled(f, Used(32), Free(4064));
    p := Take(a, 24, f, Two(f, Used(32), Free(4064)));
    ThreeTiled(f, Used(32), Used(16), Free(4048));
    q := Take(a, 8, f + 32, Three(f, Used(32), Used(16), Free(4048)));
  }

  /** mm_init and four requests that fill its heap. */
  method FillHeap(a: Allocator) returns (p: int, q: int, r: int)
    requires a.mem.Valid() && a.mem.brk == a.mem.start
    modifies a, a.mem`words, a.mem`brk, a.mem.data
    ensures a.Valid() && a.mem.brk == First(a.mem.start) + CHUNKSIZE
    ensures p == First(a.mem.start) && q == p + 32 && r == q + 16
    ensures a.blocks == Four(p, Used(32), Used(16), Used(16), Used(4032))
  {
    p, q := StartHeap(a);
    ghost var f := p;
    FourTiled(f, Used(32), Used(16), Used(16), Free(4032));
    r := Take(a, 8, f + 48, Four(f, Used(32), Used(16), Used(16), Free(4032)));
    FourTiled(f, Used(32), Used(16), Used(16), Used(4032));
    var _ := Take(a, 4024, f + 64, Four(f, Used(32), Used(16), Used(16), Used(4032)));
  }

  /** A run after which two free blocks are adjacent: the block between two free ones is reallocated, when with the
      one after it it would be exactly as large as wanted, and the one before it is larger. */
  method ReachGap(a: Allocator) returns (r: int)
    requires a.mem.Valid() && a.mem.brk == a.mem.start
    modifies a, a.mem`words, a.mem`brk, a.mem.data
    ensures a.Valid() && !Compact(a.blocks)
  {
    var p, q, s := FillHeap(a);
    FreeAround(a, p, s);
    GapNext(p);
    r := a.MmRealloc(q, 24);
  }

  /** Both neighbours of the second block are freed. */
  method FreeAround(a: Allocator, p: int, s: int)
    requires a.Valid() && a.mem.brk == First(a.mem.start) + CHUNKSIZE && p == First(a.mem.start) && s == p + 48
    requires a.blocks == Four(p, Used(32), Used(16), Used(16), Used(4032))
    modifies a`blocks, a`lists, a`listed, a.mem`words, a.mem.data
    ensures a.Valid() && a.blocks == Four(p, Free(32), Used(16), Free(16), Used(4032)) && Compact(a.blocks)
  {
    FourTiled(p, Used(32), Used(16), Used(16), Used(4032));
    FourTiled(p, Free(32), Used(16), Used(16), Used(4032));
    Return(a, p, Four(p, Free(32), Used(16), Used(16), Used(4032)));
    FourTiled(p, Free(32), Used(16), Free(16), Used(4032));
    Return(a, s, Four(p, Free(32), Used(16), Free(16), Used(4032)));
  }

  lemma GapNext(f: int)
    requires f > 0
    ensures var b := Four(f, Free(32), Used(16), Free(16), Used(4032));
            ReallocSafe(b, f + 32, 24) && LeavesGap(b, f + 32, 24) && !NoFit(b, AdjustedSize(24)) && f + 32 in LiveOf(b)
  {
    var b := Four(f, Free(32), Used(16), Free(16), Used(4032));
    assert EndsAt(b, f, f + 32);
    assert NextFree(b, f + 32) == 16 && PrevFree(b, f + 32) == 32;
    assert !b[f].used && b[f].size >= 32;
  }

  /** A run after which the next call of mm_realloc is one in which a comparison wraps: the block after it is free,
      but together they are too small. */
  method ReachWrap(a: Allocator) returns (q: int)
    requires a.mem.Valid() && a.mem.brk == a.mem.start
    modifies a, a.mem`words, a.mem`brk, a.mem.data
    ensures a.Valid() && Compact(a.blocks) && q in LiveOf(a.blocks) && !ReallocSafe(a.blocks, q, 40)
    ensures Sub32(a.blocks[q].size + NextFree(a.blocks, q), AdjustedSize(40)) >= MIN_BLOCK_SIZE
  {
    var p, s;
    p, q, s := FillHeap(a);
    FourTiled(p, Used(32), Used(16), Free(16), Used(4032));
    Return(a, s, Four(p, Used(32), Used(16), Free(16), Used(4032)));
    assert NextFree(a.blocks, q) == 16 && AdjustedSize(40) == 48;
  }
}
