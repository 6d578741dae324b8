/** What holds of every heap whose views agree: consequences for the whole layout. */
module Layout {
  import opened MemLib
  import opened BlockMap
  import opened Tags
  import opened SegList
  import opened Heap

  // ---------- the layout is a function of what is in use ----------

  /** Two compact heaps with the same blocks in use and the same break are tiled the same:
      the order in which blocks were allocated and freed leaves no trace in the layout. */
  lemma LayoutDetermined(b: Blocks, c: Blocks, first: int, brk: int)
    requires Tiled(b, first, brk) && Compact(b) && Tiled(c, first, brk) && Compact(c)
    requires LiveOf(b) == LiveOf(c)
    ensures b == c
  {
    forall p ensures p in b <==> p in c {
      if p in b {
        SameBlock(b, c, first, brk, p);
      }
      if p in c {
        SameBlock(c, b, first, brk, p);
      }
    }
    assert b.Keys == c.Keys;
    forall p | p in b ensures b[p] == c[p] {
      SameBlock(b, c, first, brk, p);
    }
  }

  lemma {:induction false} SameBlock(b: Blocks, c: Blocks, first: int, brk: int, p: int)
    requires Tiled(b, first, brk) && Compact(b) && Tiled(c, first, brk) && Compact(c)
    requires LiveOf(b) == LiveOf(c) && p in b
    ensures p in c && c[p] == b[p]
    decreases p - first
  {
    assert BlockOk(b, first, brk, p);
    if p != first {
      var q := PrevBlock(b, first, brk, p);
      assert BlockOk(b, first, brk, q);
      SameBlock(b, c, first, brk, q);
      assert NextOk(c, brk, q);
    }
    assert b[p].used ==> p in LiveOf(b);
    assert c[p].used ==> p in LiveOf(c);
    if !b[p].used {
      SameFreeSize(b, c, first, brk, p);
      SameFreeSize(c, b, first, brk, p);
    }
  }

  /** A free block of a compact heap ends no later than another heap's free block there. */
  lemma SameFreeSize(b: Blocks, c: Blocks, first: int, brk: int, p: int)
    requires Tiled(b, first, brk) && Compact(b) && Tiled(c, first, brk) && LiveOf(b) == LiveOf(c)
    requires p in b && p in c && !b[p].used && !c[p].used
    ensures b[p].size >= c[p].size
  {
    var n := p + b[p].size;
    assert NextOk(b, brk, p) && GapOk(b, p) && BlockOk(c, first, brk, p) && BlockOk(b, first, brk, p);
    assert n in b && b[n].used ==> n in LiveOf(b);
    assert n in c ==> Apart(c, p, n);
  }

  // ---------- conservation ----------

  /** The sum of what `m` holds at the addresses from `lo` up to `hi`. */
  ghost function SumOver(m: map<int, int>, lo: int, hi: int): int
    decreases hi - lo
  {
    if hi <= lo then 0 else SumOver(m, lo, hi - 1) + if hi - 1 in m then m[hi - 1] else 0
  }

  lemma {:induction false} SumSplit(m: map<int, int>, lo: int, mid: int, hi: int)
    requires lo <= mid <= hi
    ensures SumOver(m, lo, hi) == SumOver(m, lo, mid) + SumOver(m, mid, hi)
    decreases hi - mid
  {
    if mid < hi {
      SumSplit(m, lo, mid, hi - 1);
    }
  }

  lemma {:induction false} SumNone(m: map<int, int>, lo: int, hi: int)
    requires forall k {:trigger k in m} :: lo <= k < hi ==> k !in m
    ensures SumOver(m, lo, hi) == 0
    decreases hi - lo
  {
    if lo < hi {
      SumNone(m, lo, hi - 1);
    }
  }

  /** Sums over disjoint key sets add up. */
  lemma {:induction false} SumUnion(m: map<int, int>, n: map<int, int>, u: map<int, int>, lo: int, hi: int)
    requires u == m + n && m.Keys !! n.Keys
    ensures SumOver(u, lo, hi) == SumOver(m, lo, hi) + SumOver(n, lo, hi)
    decreases hi - lo
  {
    if lo < hi {
      SumUnion(m, n, u, lo, hi - 1);
    }
  }

  ghost function Sizes(b: Blocks): map<int, int> {
    map p | p in b :: b[p].size
  }

  ghost function FreeSizes(b: Blocks): map<int, int> {
    map p | p in b && !b[p].used :: b[p].size
  }

  lemma {:induction false} SizesSum(b: Blocks, first: int, brk: int, p: int)
    requires Tiled(b, first, brk) && Boundary(b, brk, p)
    ensures SumOver(Sizes(b), first, p) == p - first
    decreases p - first
  {
    assert p in b ==> BlockOk(b, first, brk, p);
    if p != first {
      var q := PrevBlock(b, first, brk, p);
      assert BlockOk(b, first, brk, q);
      SizesSum(b, first, brk, q);
      SumSplit(Sizes(b), first, q, p);
      SumSplit(Sizes(b), q, q + 1, p);
      forall k | q < k < p ensures k !in b {
        assert k in b ==> Apart(b, q, k);
      }
      SumNone(Sizes(b), q + 1, p);
      assert SumOver(Sizes(b), q, q) == 0;
    }
  }

  /** Bytes in use, bytes free and the 112 bytes of roots and prologue are the whole heap. */
  lemma Conservation(b: Blocks, lo: int, brk: int)
    requires Tiled(b, First(lo), brk)
    ensures SumOver(LiveOf(b), First(lo), brk) + SumOver(FreeSizes(b), First(lo), brk) + 112 == brk - lo
  {
    SizesSum(b, First(lo), brk, brk);
    SumUnion(LiveOf(b), FreeSizes(b), Sizes(b), First(lo), brk);
  }

  // ---------- what walking memory finds ----------

  /** A walk from the payload address `p` to the break that reads headers and footers: every header names a
      whole block with a matching footer, no free block is followed by a free one, and the epilogue is at the
      break. It asks for more than mm_check does, which is modelled below. */
  ghost predicate Walk(w: map<int, Word>, p: int, brk: int)
    decreases brk - p
  {
    var tag := WordAt(w, p - 4);
    if p >= brk then p == brk && tag == Pack(0, true)
    else
      var size := SizeOf(tag);
      && size >= MIN_BLOCK_SIZE && tag == Pack(size, AllocOf(tag) == 1) && WordAt(w, p + size - 8) == tag
      && (AllocOf(tag) == 0 ==> AllocOf(WordAt(w, p + size - 4)) == 1)
      && Walk(w, p + size, brk)
  }

  /** The tiling a memory records, with no two free blocks adjacent. */
  ghost predicate Records(w: map<int, Word>, b: Blocks, first: int, brk: int) {
    && Tiled(b, first, brk) && Compact(b) && WordAt(w, brk - 4) == Pack(0, true)
    && (forall p {:trigger TagOk(w, b, p)} | p in b :: TagOk(w, b, p))
  }

  lemma {:induction false} RecordedWalks(w: map<int, Word>, b: Blocks, first: int, brk: int, p: int)
    requires Records(w, b, first, brk) && Boundary(b, brk, p)
    ensures Walk(w, p, brk)
    decreases brk - p
  {
    if p != brk {
      var n := p + b[p].size;
      assert TagOk(w, b, p) && BlockOk(b, first, brk, p) && NextOk(b, brk, p) && GapOk(b, p);
      UnpackPack(b[p].size, b[p].used);
      if n in b {
        assert TagOk(w, b, n) && BlockOk(b, first, brk, n);
        UnpackPack(b[n].size, b[n].used);
      }
      RecordedWalks(w, b, first, brk, n);
    } else {
      assert p in b ==> BlockOk(b, first, brk, p);
    }
  }

  lemma {:induction false} WalkRecords(w: map<int, Word>, p: int, brk: int) returns (b: Blocks)
    requires Walk(w, p, brk) && p % 8 == 0
    ensures Records(w, b, p, brk)
    ensures p < brk ==> b[p].used == (AllocOf(WordAt(w, p - 4)) == 1)
    decreases brk - p
  {
    if p >= brk {
      b := map[];
    } else {
      var size, used := SizeOf(WordAt(w, p - 4)), AllocOf(WordAt(w, p - 4)) == 1;
      var n := p + size;
      SizeEights(WordAt(w, p - 4));
      EightsAdd(p, size);
      var c := WalkRecords(w, n, brk);
      b := AddFront(w, c, p, size, used, brk);
    }
  }

  lemma SizeEights(tag: int)
    ensures SizeOf(tag) % 8 == 0
  {
  }

  /** A tiling with one more block in front. */
  lemma FrontTiled(c: Blocks, p: int, size: int, used: bool, brk: int)
    requires Tiled(c, p + size, brk) && p % 8 == 0 && size % 8 == 0 && size >= MIN_BLOCK_SIZE
    ensures Tiled(c[p := Block(size, used)], p, brk) && p !in c
  {
    var b, n := c[p := Block(size, used)], p + size;
    assert p in c ==> BlockOk(c, n, brk, p);
    forall q | q in b ensures BlockOk(b, p, brk, q) && NextOk(b, brk, q) {
      assert q in c ==> BlockOk(c, n, brk, q) && NextOk(c, brk, q);
    }
    forall q, r | q in b && r in b ensures Apart(b, q, r) {
      assert q in c && r in c ==> Apart(c, q, r);
      assert q in c ==> BlockOk(c, n, brk, q);
      assert r in c ==> BlockOk(c, n, brk, r);
    }
  }

  lemma AddFront(w: map<int, Word>, c: Blocks, p: int, size: int, used: bool, brk: int) returns (b: Blocks)
    requires Records(w, c, p + size, brk) && p % 8 == 0 && size % 8 == 0 && size >= MIN_BLOCK_SIZE
    requires WordAt(w, p - 4) == Pack(size, used) && WordAt(w, p + size - 8) == Pack(size, used)
    requires !used && p + size < brk ==> c[p + size].used
    ensures b == c[p := Block(size, used)] && Records(w, b, p, brk)
  {
    b := c[p := Block(size, used)];
    FrontTiled(c, p, size, used, brk);
    assert p + size in c ==> BlockOk(c, p + size, brk, p + size);
    forall q | q in b ensures TagOk(w, b, q) && GapOk(b, q) {
      assert q in c ==> TagOk(w, c, q) && GapOk(c, q) && BlockOk(c, p + size, brk, q);
    }
  }

  /** This walk succeeds exactly on the memories that record a tiling without adjacent free blocks. */
  lemma WalkExact(w: map<int, Word>, first: int, brk: int)
    requires first % 8 == 0
    ensures Walk(w, first, brk) <==> exists b :: Records(w, b, first, brk)
  {
    if Walk(w, first, brk) {
      var b := WalkRecords(w, first, brk);
    }
    if exists b :: Records(w, b, first, brk) {
      var b :| Records(w, b, first, brk);
      RecordedWalks(w, b, first, brk, first);
    }
  }

  // ---------- what chasing the lists finds ----------

  /** The address found by following `k` forward links from `q`, or 0 once one of them is NULL. */
  ghost function Follow(w: map<int, Word>, q: int, k: nat): int {
    if k == 0 then q
    else
      var p := Follow(w, q, k - 1);
      if p == 0 then 0 else WordAt(w, p)
  }

  lemma {:induction false} FollowList(w: map<int, Word>, root: int, s: seq<int>, k: nat)
    requires Linked(w, root, s) && Nodes(root, s)
    ensures Follow(w, root, k) == NodeAt(root, s, k - 1)
  {
    if k > 0 {
      FollowList(w, root, s, k - 1);
      if k - 1 <= |s| {
        assert LinkOk(w, root, s, k - 1);
      }
    }
  }

  /** Whatever a list leads to is a free block of that list's class, linked back, and no larger than its successor. */
  lemma ReachedIsFree(w: map<int, Word>, b: Blocks, l: Lists, lo: int, brk: int, i: int, k: nat)
    requires HeapOk(w, b, l, lo, FreeOf(b), brk) && 0 <= i < N_SEGLIST && k > 0 && Follow(w, Root(lo, i), k) != 0
    ensures var p, n := Follow(w, Root(lo, i), k), Follow(w, Root(lo, i), k + 1);
            && k <= |l[i]| && p == l[i][k - 1]
            && p in b && !b[p].used && Level(b[p].size) == i
            && WordAt(w, p + 4) == Follow(w, Root(lo, i), k - 1)
            && (n != 0 ==> n in b && b[p].size <= b[n].size)
  {
    assert LevelOk(w, b, l, lo, FreeOf(b), i);
    ListNodes(b, l, lo, brk, FreeOf(b), i);
    FollowList(w, Root(lo, i), l[i], k - 1);
    FollowList(w, Root(lo, i), l[i], k);
    FollowList(w, Root(lo, i), l[i], k + 1);
    assert LinkOk(w, Root(lo, i), l[i], k - 1);
  }

  /** Every free block is reached from the root of its class. */
  lemma FreeIsReached(w: map<int, Word>, b: Blocks, l: Lists, lo: int, brk: int, p: int) returns (k: nat)
    requires HeapOk(w, b, l, lo, FreeOf(b), brk) && p in b && !b[p].used
    ensures k > 0 && Follow(w, Root(lo, Level(b[p].size)), k) == p
  {
    var i := Level(b[p].size);
    assert ListedOk(b, l, p) && LevelOk(w, b, l, lo, FreeOf(b), i);
    ListNodes(b, l, lo, brk, FreeOf(b), i);
    var j :| 0 <= j < |l[i]| && l[i][j] == p;
    k := j + 1;
    FollowList(w, Root(lo, i), l[i], k);
  }

  /** No block is reached twice, from one root or from two: the lists are disjoint and have no cycle. */
  lemma ReachedOnce(w: map<int, Word>, b: Blocks, l: Lists, lo: int, brk: int, i: int, k: nat, i': int, k': nat)
    requires HeapOk(w, b, l, lo, FreeOf(b), brk) && 0 <= i < N_SEGLIST && 0 <= i' < N_SEGLIST && k > 0 && k' > 0
    requires Follow(w, Root(lo, i), k) == Follow(w, Root(lo, i'), k') != 0
    ensures i == i' && k == k'
  {
    ReachedIsFree(w, b, l, lo, brk, i, k);
    ReachedIsFree(w, b, l, lo, brk, i', k');
    assert LevelOk(w, b, l, lo, FreeOf(b), i);
  }

  // ---------- the block loop of mm_check ----------

  /** One turn of the loop reports nothing: a free block is in the list of its class, and the block after it is
      not free. */
  ghost predicate TurnOk(w: map<int, Word>, lo: int, p: int) {
    var tag := WordAt(w, p - 4);
    AllocOf(tag) == 0 ==>
      && (exists k: nat {:trigger Follow(w, Root(lo, Level(SizeOf(tag))), k)} ::
            k > 0 && Follow(w, Root(lo, Level(SizeOf(tag))), k) == p)
      && AllocOf(WordAt(w, p + SizeOf(tag) - 4)) == 1
  }

  /** The loop still goes on, or it has ended and reported nothing or something. */
  datatype Checked = Running | Ended(ok: bool)

  /** The loop from the block at `p`, for at most `n` turns: it reads headers only, and ends at the first one that
      looks like the epilogue's. */
  ghost function CheckBlocks(w: map<int, Word>, lo: int, p: int, n: nat): Checked
    decreases n
  {
    var tag := WordAt(w, p - 4);
    if tag == Pack(0, true) then Ended(true)
    else if n == 0 then Running
    else match CheckBlocks(w, lo, p + SizeOf(tag), n - 1)
      case Running => Running
      case Ended(ok) => Ended(ok && TurnOk(w, lo, p))
  }

  ghost predicate CompactFrom(b: Blocks, p: int) {
    forall q {:trigger GapOk(b, q)} :: q in b && p <= q ==> GapOk(b, q)
  }

  lemma TurnExact(w: map<int, Word>, b: Blocks, l: Lists, lo: int, brk: int, p: int)
    requires HeapOk(w, b, l, lo, FreeOf(b), brk) && p in b
    ensures TurnOk(w, lo, p) <==> GapOk(b, p)
    ensures WordAt(w, p - 4) == Pack(b[p].size, b[p].used) != Pack(0, true) && SizeOf(WordAt(w, p - 4)) == b[p].size
  {
    var n := p + b[p].size;
    assert TagOk(w, b, p) && BlockOk(b, First(lo), brk, p) && NextOk(b, brk, p);
    UnpackPack(b[p].size, b[p].used);
    if n in b {
      assert TagOk(w, b, n) && BlockOk(b, First(lo), brk, n);
      UnpackPack(b[n].size, b[n].used);
    }
    if !b[p].used {
      var k := FreeIsReached(w, b, l, lo, brk, p);
    }
  }

  lemma {:induction false} CheckFrom(w: map<int, Word>, b: Blocks, l: Lists, lo: int, brk: int, p: int) returns (n: nat)
    requires HeapOk(w, b, l, lo, FreeOf(b), brk) && Boundary(b, brk, p)
    ensures CheckBlocks(w, lo, p, n) == Ended(CompactFrom(b, p))
    decreases brk - p
  {
    n := 0;
    if p in b {
      var q := p + b[p].size;
      TurnExact(w, b, l, lo, brk, p);
      assert BlockOk(b, First(lo), brk, p) && NextOk(b, brk, p);
      n := CheckFrom(w, b, l, lo, brk, q);
      n := n + 1;
      forall x | x in b && p <= x
        ensures x == p || q <= x
      {
        assert Apart(b, p, x);
      }
      assert CompactFrom(b, p) <==> GapOk(b, p) && CompactFrom(b, q);
    } else {
      forall x | x in b
        ensures x < p
      {
        assert BlockOk(b, First(lo), brk, x);
      }
    }
  }

  /** On a heap whose views agree the block loop of mm_check ends, and it reports something if and only if two free
      blocks are adjacent. */
  lemma CheckExact(w: map<int, Word>, b: Blocks, l: Lists, lo: int, brk: int)
    requires HeapOk(w, b, l, lo, FreeOf(b), brk)
    ensures exists n :: CheckBlocks(w, lo, First(lo), n) == Ended(Compact(b))
  {
    var n := CheckFrom(w, b, l, lo, brk, First(lo));
    forall q | q in b
      ensures First(lo) <= q
    {
      assert BlockOk(b, First(lo), brk, q);
    }
  }

  /** Once nothing is in use the heap is one free block, alone in the lists. */
  lemma EverythingFreed(w: map<int, Word>, b: Blocks, l: Lists, lo: int, brk: int)
    requires HeapOk(w, b, l, lo, FreeOf(b), brk) && Compact(b) && First(lo) < brk && LiveOf(b) == map[]
    ensures b == map[First(lo) := Block(brk - lo - 112, false)]
    ensures forall i :: 0 <= i < N_SEGLIST ==> l[i] == if i == Level(brk - lo - 112) then [First(lo)] else []
  {
    AllFree(b, First(lo), brk);
    forall i | 0 <= i < N_SEGLIST ensures l[i] == if i == Level(brk - lo - 112) then [First(lo)] else [] {
      assert LevelOk(w, b, l, lo, FreeOf(b), i) && ListedOk(b, l, First(lo));
      assert |l[i]| >= 1 ==> l[i][0] == First(lo) && l[i][|l[i]| - 1] == First(lo);
    }
  }
}
