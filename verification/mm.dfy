/** The segregated-fit allocator of mm.c, over the memory of memlib.c. */
module Mm {
  import opened MemLib
  import opened BlockMap
  import opened Tags
  import opened SegList
  import opened Heap
  import opened Shapes

  class Allocator {
    const mem: Memory
    var heapListp: int
    var blkStart: int
    ghost var blocks: Blocks
    ghost var lists: Lists
    ghost var listed: set<int>

    /** The views agree in the memory `w`, with the blocks of `listed` in the free lists. */
    ghost predicate WiredIn(w: map<int, Word>)
      reads this, mem, mem.data
    {
      mem.Valid() && heapListp == mem.start && HeapOk(w, blocks, lists, heapListp, listed, mem.brk)
    }

    ghost predicate Wired()
      reads this, mem, mem.data
    {
      && mem.Valid() && heapListp == mem.start
      && HeapOk(mem.words, blocks, lists, heapListp, listed, mem.brk)
    }

    /** The views agree, and the free lists hold exactly the free blocks. */
    ghost predicate Valid()
      reads this, mem, mem.data
    {
      Wired() && listed == FreeOf(blocks)
    }

    /** The globals before mm_init. */
    constructor (m: Memory)
      ensures mem == m
    {
      mem := m;
      heapListp, blkStart := 0, 0;
      blocks, lists, listed := map[], [], {};
    }

    lemma BlockWords(p: int)
      requires Wired() && p in blocks
      ensures mem.InArena(p - 4) && mem.InArena(p) && mem.InArena(p + 4) && mem.InArena(p + blocks[p].size - 8)
      ensures blocks[p].size >= MIN_BLOCK_SIZE && blocks[p].size % 8 == 0 && p % 8 == 0
      ensures First(heapListp) <= p && p + blocks[p].size <= mem.brk
      ensures TagOk(mem.words, blocks, p)
    {
      assert BlockOk(blocks, First(heapListp), mem.brk, p);
      assert TagOk(mem.words, blocks, p);
      WordMultiple(p, -1);
      WordMultiple(p, 0);
      WordMultiple(p, 1);
      EndWords(p, blocks[p].size);
    }

    /** GET_SIZE */
    method GetSize(a: int) returns (s: int)
      requires mem.Valid() && mem.InArena(a) && a + 4 <= mem.brk
      ensures s == SizeOf(WordAt(mem.words, a))
    {
      var tag := mem.Get(a);
      s := tag / 8 * 8;
    }

    /** GET_ALLOC */
    method GetAlloc(a: int) returns (alloc: int)
      requires mem.Valid() && mem.InArena(a) && a + 4 <= mem.brk
      ensures alloc == AllocOf(WordAt(mem.words, a))
    {
      var tag := mem.Get(a);
      alloc := tag % 2;
    }

    /** GET_SIZE(HDRP(p)) of a block. */
    method BlockSize(p: int) returns (s: int)
      requires Wired() && p in blocks
      ensures s == blocks[p].size
    {
      BlockWords(p);
      UnpackPack(blocks[p].size, blocks[p].used);
      s := GetSize(p - WSIZE);
    }

    /** get_freeblk_root */
    method GetFreeblkRoot(size: int) returns (root: int)
      ensures root == Root(heapListp, Level(size))
    {
      root := heapListp + DSIZE + Level(size) * DSIZE;
    }

    lemma RootWords(i: int)
      requires Wired() && 0 <= i < N_SEGLIST
      ensures mem.InArena(Root(heapListp, i)) && Root(heapListp, i) + 4 <= mem.brk
    {
      WordMultiple(heapListp, 2 + 2 * i);
    }

    /** An address whose word may be loaded and stored. */
    ghost predicate InHeap(a: int)
      reads mem
    {
      mem.InArena(a) && a + 4 <= mem.brk
    }

    /** The walk of insert_free_block and of find_fit along one list, to the first block that is not smaller. */
    method Scan(root: int, ghost i: int, size: int) returns (prevp: int, p: int, ghost k: int)
      requires Wired() && 0 <= i < N_SEGLIST && root == Root(heapListp, i)
      ensures var s := lists[i];
              && 0 <= k <= |s| && p == NodeAt(root, s, k) && prevp == NodeAt(root, s, k - 1)
              && (forall j {:trigger s[j]} | 0 <= j < k :: s[j] in blocks && blocks[s[j]].size < size)
              && (k < |s| ==> s[k] in blocks && size <= blocks[s[k]].size)
      ensures p != 0 <==> k < |lists[i]|
      ensures p != 0 ==> p in blocks && size <= blocks[p].size
    {
      ghost var s := lists[i];
      assert LevelOk(mem.words, blocks, lists, heapListp, listed, i);
      assert LinkOk(mem.words, root, s, 0);
      RootWords(i);
      prevp, k := root, 0;
      p := mem.Get(root);
      while p != 0
        invariant 0 <= k <= |s| && p == NodeAt(root, s, k) && prevp == NodeAt(root, s, k - 1)
        invariant forall j {:trigger s[j]} | 0 <= j < k :: s[j] in blocks && blocks[s[j]].size < size
        decreases |s| - k
      {
        NodeBounds(mem.words, blocks, lists, heapListp, listed, mem.brk, i, k);
        var psize := BlockSize(p);
        if psize >= size {
          break;
        }
        BlockWords(p);
        assert LinkOk(mem.words, root, s, k + 1);
        prevp := p;
        p := mem.Get(p);
        k := k + 1;
      }
      NodeBounds(mem.words, blocks, lists, heapListp, listed, mem.brk, i, k);
    }

    /** The relinking of insert_free_block. */
    method LinkBetween(prev: Word, p: Word, next: Word)
      requires mem.Valid() && InHeap(prev) && InHeap(p) && InHeap(p + 4) && (next != 0 ==> InHeap(next + 4))
      modifies mem`words, mem.data
      ensures mem.Valid() && mem.words == SpliceIn(old(mem.words), prev, p, next)
    {
      mem.Put(prev, p);
      mem.Put(p + WSIZE, prev);
      mem.Put(p, next);
      if next != 0 {
        mem.Put(next + WSIZE, p);
      }
    }

    /** insert_free_block: into the list of its size, before the first block that is not smaller. */
    method InsertFreeBlock(bp: int)
      requires Wired() && bp in blocks && !blocks[bp].used && bp !in listed
      modifies this`lists, this`listed, mem`words, mem.data
      ensures Wired() && listed == old(listed) + {bp} && lists == Filed(blocks, old(lists), bp)
      ensures LiveKept(old(mem.words), mem.words, blocks)
    {
      var size := BlockSize(bp);
      var root := GetFreeblkRoot(size);
      var prevp, p, k := Scan(root, Level(size), size);
      RankExact(blocks, lists[Level(size)], size, k);
      ghost var w', l' := InsertHeap(mem.words, blocks, lists, heapListp, listed, mem.brk, bp, k);
      BlockWords(bp);
      RootWords(Level(size));
      if k > 0 {
        BlockWords(prevp);
      }
      if p != 0 {
        BlockWords(p);
      }
      LinkBetween(prevp, bp, p);
      lists, listed := l', listed + {bp};
    }

    /** delete_free_block: the others keep their order. */
    method DeleteFreeBlock(bp: int)
      requires Wired() && bp in listed
      modifies this`lists, this`listed, mem`words, mem.data
      ensures Wired() && listed == old(listed) - {bp} && lists == Cut(old(lists), bp, bp + 1)
      ensures LiveKept(old(mem.words), mem.words, blocks)
    {
      ghost var i, k, w', l' := RemoveHeap(mem.words, blocks, lists, heapListp, listed, mem.brk, bp);
      CutOne(mem.words, blocks, lists, heapListp, listed, bp, k);
      BlockWords(bp);
      RootWords(i);
      var next := mem.Get(bp);
      var prev := mem.Get(bp + WSIZE);
      if k > 0 {
        BlockWords(prev);
      }
      if next != 0 {
        BlockWords(next);
      }
      Unlink(prev, next);
      lists, listed := l', listed - {bp};
    }

    /** The relinking of delete_free_block. */
    method Unlink(prev: Word, next: Word)
      requires mem.Valid() && InHeap(prev) && (next != 0 ==> InHeap(next + 4))
      modifies mem`words, mem.data
      ensures mem.Valid() && mem.words == SpliceOut(old(mem.words), prev, next)
    {
      mem.Put(prev, next);
      if next != 0 {
        mem.Put(next + WSIZE, prev);
      }
    }

    /** find_fit: the smallest free block that fits, and the first of that size in its list, or 0 when none fits. */
    method FindFit(size: int) returns (r: int)
      requires Wired()
      ensures r == 0 ==> forall q :: q in listed ==> q in blocks && blocks[q].size < size
      ensures r != 0 ==> BestFit(blocks, listed, r, size) && FirstInList(Shape(blocks, lists), r, size)
    {
      var root := GetFreeblkRoot(size);
      ghost var i := Level(size);
      forall q | q in listed ensures Beyond(blocks, i, size, q) {
        assert ListedOk(blocks, lists, q);
      }
      while root <= heapListp + DSIZE * N_SEGLIST
        invariant Level(size) <= i <= N_SEGLIST && root == Root(heapListp, i)
        invariant forall q {:trigger Beyond(blocks, i, size, q)} :: q in listed ==> Beyond(blocks, i, size, q)
        decreases N_SEGLIST - i
      {
        var _, p2, k := Scan(root, i, size);
        if p2 != 0 {
          FirstFits(mem.words, blocks, lists, heapListp, listed, i, k, size);
          assert LevelOk(mem.words, blocks, lists, heapListp, listed, i);
          return p2;
        }
        ghost var j := i + 1;
        NoneFits(mem.words, blocks, lists, heapListp, listed, i, j, size);
        root := root + DSIZE;
        i := j;
      }
      forall q | q in listed ensures q in blocks && blocks[q].size < size {
        assert Beyond(blocks, i, size, q);
      }
      return 0;
    }

    /** PREV_BLKP, and the allocated bit coalesce reads through it. Before the first block lies the prologue. */
    method PrevBlkp(bp: int) returns (p: int, alloc: int)
      requires Wired() && bp in blocks
      ensures bp == First(heapListp) ==> alloc == 1
      ensures bp != First(heapListp) ==>
                p in blocks && p + blocks[p].size == bp && alloc == if blocks[p].used then 1 else 0
    {
      BlockWords(bp);
      if bp != First(heapListp) {
        ghost var q := PrevBlock(blocks, First(heapListp), mem.brk, bp);
        BlockWords(q);
        UnpackPack(blocks[q].size, blocks[q].used);
      }
      var psize := GetSize(bp - DSIZE);
      p := bp - psize;
      psize := GetSize(p - WSIZE);
      alloc := GetAlloc(p + psize - DSIZE);
    }

    /** NEXT_BLKP and its allocated bit. After the last block lies the epilogue header. */
    method NextBlkp(bp: int) returns (p: int, alloc: int)
      requires Wired() && bp in blocks
      ensures p == bp + blocks[bp].size && (p == mem.brk || p in blocks)
      ensures alloc == if p in blocks && !blocks[p].used then 0 else 1
    {
      BlockWords(bp);
      assert NextOk(blocks, mem.brk, bp);
      var size := BlockSize(bp);
      p := bp + size;
      if p in blocks {
        BlockWords(p);
        UnpackPack(blocks[p].size, blocks[p].used);
      }
      alloc := GetAlloc(p - WSIZE);
    }

    /** FTRP: found through the header as it stands. */
    method Ftrp(bp: int) returns (a: int)
      requires mem.Valid() && InHeap(bp - 4)
      ensures a == bp + SizeOf(WordAt(mem.words, bp - 4)) - DSIZE
    {
      var size := GetSize(bp - WSIZE);
      a := bp + size - DSIZE;
    }

    /** Records that the free blocks from `p` up to `e` have become one, as its new tags say. */
    ghost method RecordJoin(w0: map<int, Word>, w: map<int, Word>, p: int, e: int)
      requires mem.Valid() && heapListp == mem.start && HeapOk(w, blocks, lists, heapListp, listed, mem.brk)
      requires p in blocks && Boundary(blocks, mem.brk, e) && p < e
      requires forall q {:trigger blocks[q]} {:trigger q in listed} | q in blocks && p <= q < e ::
                 !blocks[q].used && q !in listed
      requires forall q {:trigger blocks[q]} {:trigger q in listed} | q in blocks && !(p <= q < e) ::
                 q in listed <==> !blocks[q].used
      requires LiveKept(w0, w, blocks) && SameOutside(w, mem.words, p - 4, e - 4)
      requires WordAt(mem.words, p - 4) == Pack(e - p, false) && WordAt(mem.words, e - 8) == Pack(e - p, false)
      modifies this`blocks
      ensures Wired() && blocks == Fuse(old(blocks), p, e, false) && listed == FreeOf(blocks) - {p}
      ensures Cut(lists, p, e) == lists
      ensures LiveKept(w0, mem.words, old(blocks)) && StillUsed(old(blocks), blocks)
    {
      forall q | q in listed ensures q in blocks {
        assert ListedOk(blocks, lists, q);
      }
      CutNone(w, blocks, lists, heapListp, listed, p, e);
      FuseHeap(w, mem.words, blocks, lists, heapListp, listed, mem.brk, p, e, false);
      RegionKeepsLive(w, mem.words, blocks, First(heapListp), mem.brk, p, e);
      LiveKeptTrans(w0, w, mem.words, blocks, blocks);
      blocks := Fuse(blocks, p, e, false);
    }

    lemma ListedInBlocks()
      requires Wired()
      ensures forall q {:trigger q in listed} :: q in listed ==> q in blocks && !blocks[q].used
    {
      forall q | q in listed ensures q in blocks && !blocks[q].used {
        assert ListedOk(blocks, lists, q);
      }
    }

    /** Two adjacent blocks: where their tags are, and that nothing else starts inside. */
    lemma JoinBounds(p: int, q: int)
      requires Wired() && p in blocks && q in blocks && p + blocks[p].size == q
      ensures InHeap(p - 4) && InHeap(q + blocks[q].size - 8) && Boundary(blocks, mem.brk, q + blocks[q].size)
      ensures (blocks[p].size + blocks[q].size) % 8 == 0 && 0 <= p && 16 <= q - p
      ensures q + 16 <= q + blocks[q].size < ADDRESS_SPACE
      ensures forall x {:trigger x in blocks} :: x in blocks && p <= x < q + blocks[q].size ==> x == p || x == q
    {
      BlockWords(p);
      BlockWords(q);
      EightsAdd(blocks[p].size, blocks[q].size);
      assert NextOk(blocks, mem.brk, q);
      forall x | x in blocks ensures p <= x < q + blocks[q].size ==> x == p || x == q {
        assert Apart(blocks, p, x) && Apart(blocks, q, x);
      }
    }

    /** PUT(HDRP(bp), PACK(size, used)) and then PUT(FTRP(bp), PACK(size, used)). */
    method PutTags(bp: int, size: int, used: bool)
      requires mem.Valid() && InHeap(bp - 4) && InHeap(bp + size - 8) && size % 8 == 0 && 0 <= size < ADDRESS_SPACE - 1
      modifies mem`words, mem.data
      ensures mem.Valid()
      ensures mem.words == old(mem.words)[bp - 4 := Pack(size, used)][bp + size - 8 := Pack(size, used)]
    {
      UnpackPack(size, used);
      mem.Put(bp - WSIZE, Pack(size, used));
      var ftr := Ftrp(bp);
      mem.Put(ftr, Pack(size, used));
    }

    /** Two stores of one tag. */
    method PutTwice(a: int, a': int, tag: Word)
      requires mem.Valid() && InHeap(a) && InHeap(a')
      modifies mem`words, mem.data
      ensures mem.Valid() && mem.words == old(mem.words)[a := tag][a' := tag]
    {
      mem.Put(a, tag);
      mem.Put(a', tag);
    }

    /** Two calls of delete_free_block, for blocks from `x` up to `e`. */
    method DeletePair(p: int, q: int, ghost x: int, ghost e: int)
      requires Wired() && p in listed && q in listed && p != q && x <= p < e && x <= q < e
      modifies this`lists, this`listed, mem`words, mem.data
      ensures Wired() && listed == old(listed) - {p, q}
      ensures Cut(lists, x, e) == Cut(old(lists), x, e)
      ensures LiveKept(old(mem.words), mem.words, blocks)
    {
      ghost var w0, l0 := mem.words, lists;
      DeleteFreeBlock(p);
      ghost var w1, l1 := mem.words, lists;
      DeleteFreeBlock(q);
      LiveKeptTrans(w0, w1, mem.words, blocks, blocks);
      CutTwice(l0, p, p + 1, x, e);
      CutTwice(l1, q, q + 1, x, e);
    }

    /** Three calls of delete_free_block. */
    method DeleteThree(p: int, q: int, r: int, ghost x: int, ghost e: int)
      requires Wired() && p in listed && q in listed && r in listed && p != q && q != r && p != r
      requires x <= p < e && x <= q < e && x <= r < e
      modifies this`lists, this`listed, mem`words, mem.data
      ensures Wired() && listed == old(listed) - {p, q, r}
      ensures Cut(lists, x, e) == Cut(old(lists), x, e)
      ensures LiveKept(old(mem.words), mem.words, blocks)
    {
      ghost var w0 := mem.words;
      DeletePair(p, q, x, e);
      ghost var w1, l1 := mem.words, lists;
      DeleteFreeBlock(r);
      LiveKeptTrans(w0, w1, mem.words, blocks, blocks);
      CutTwice(l1, r, r + 1, x, e);
    }

    /** FTRP(p) and GET_SIZE(FTRP(p)) of a block. */
    method FooterSize(p: int) returns (ftr: int, s: int)
      requires Wired() && p in blocks
      ensures s == blocks[p].size && ftr == p + s - DSIZE
    {
      BlockWords(p);
      UnpackPack(blocks[p].size, blocks[p].used);
      ftr := Ftrp(p);
      s := GetSize(ftr);
    }

    /** Case 2 of coalesce, up to the insertion: `bp` takes in the free block after it. */
    method JoinNext(bp: int, next: int)
      requires Valid() && bp in listed && next in listed && bp in blocks && bp + blocks[bp].size == next
      modifies this`blocks, this`lists, this`listed, mem`words, mem.data
      ensures Wired() && listed == FreeOf(blocks) - {bp}
      ensures next in old(blocks) && blocks == Fuse(old(blocks), bp, next + old(blocks)[next].size, false)
      ensures lists == Cut(old(lists), bp, next + old(blocks)[next].size)
      ensures LiveKept(old(mem.words), mem.words, old(blocks)) && StillUsed(old(blocks), blocks)
    {
      ghost var w0 := mem.words;
      ListedInBlocks();
      JoinBounds(bp, next);
      DeletePair(next, bp, bp, next + blocks[next].size);
      ghost var w2 := mem.words;
      var size := BlockSize(bp);
      var nsize := BlockSize(next);
      size := size + nsize;
      PutTags(bp, size, false);
      RecordJoin(w0, w2, bp, bp + size);
    }

    /** Case 3 of coalesce, up to the insertion: the free block before `bp` takes it in. */
    method JoinPrev(prev: int, bp: int)
      requires Valid() && bp in listed && prev in listed && prev in blocks && prev + blocks[prev].size == bp
      modifies this`blocks, this`lists, this`listed, mem`words, mem.data
      ensures Wired() && listed == FreeOf(blocks) - {prev}
      ensures bp in old(blocks) && blocks == Fuse(old(blocks), prev, bp + old(blocks)[bp].size, false)
      ensures lists == Cut(old(lists), prev, bp + old(blocks)[bp].size)
      ensures LiveKept(old(mem.words), mem.words, old(blocks)) && StillUsed(old(blocks), blocks)
    {
      ghost var w0 := mem.words;
      ListedInBlocks();
      JoinBounds(prev, bp);
      DeletePair(prev, bp, prev, bp + blocks[bp].size);
      ghost var w2 := mem.words;
      var ftr, size := FooterSize(bp);
      var psize := BlockSize(prev);
      size := size + psize;
      PutTwice(ftr, prev - WSIZE, Pack(size, false));
      RecordJoin(w0, w2, prev, prev + size);
    }

    /** The size of three blocks together, and the footer of the last. */
    method JoinedSize(prev: int, bp: int, next: int) returns (ftr: int, size: int)
      requires Wired() && prev in blocks && bp in blocks && next in blocks
      ensures size == blocks[bp].size + (blocks[prev].size + blocks[next].size)
      ensures ftr == next + blocks[next].size - DSIZE
    {
      size := BlockSize(bp);
      var psize := BlockSize(prev);
      var nsize;
      ftr, nsize := FooterSize(next);
      size := size + (psize + nsize);
    }

    /** Case 4 of coalesce, up to the insertion: both neighbours are free. */
    method JoinBoth(prev: int, bp: int, next: int)
      requires Valid() && bp in listed && prev in listed && next in listed
      requires prev in blocks && prev + blocks[prev].size == bp && bp in blocks && bp + blocks[bp].size == next
      modifies this`blocks, this`lists, this`listed, mem`words, mem.data
      ensures Wired() && listed == FreeOf(blocks) - {prev}
      ensures next in old(blocks) && blocks == Fuse(old(blocks), prev, next + old(blocks)[next].size, false)
      ensures lists == Cut(old(lists), prev, next + old(blocks)[next].size)
      ensures LiveKept(old(mem.words), mem.words, old(blocks)) && StillUsed(old(blocks), blocks)
    {
      ghost var w0 := mem.words;
      ListedInBlocks();
      JoinBounds(prev, bp);
      JoinBounds(bp, next);
      DeleteThree(prev, next, bp, prev, next + blocks[next].size);
      ghost var w3 := mem.words;
      var ftr, size := JoinedSize(prev, bp, next);
      PutTwice(prev - WSIZE, ftr, Pack(size, false));
      RecordJoin(w0, w3, prev, prev + size);
    }

    /** What coalesce reads of the blocks on either side of the free block `bp`. */
    method Neighbours(bp: int) returns (prev: int, prevAlloc: int, next: int, nextAlloc: int)
      requires Valid() && bp in listed
      ensures 0 <= prevAlloc <= 1 && 0 <= nextAlloc <= 1
      ensures bp in blocks && bp + blocks[bp].size == next
      ensures prevAlloc == 0 ==> prev in listed && prev in blocks && prev + blocks[prev].size == bp && prev < bp
      ensures nextAlloc == 0 ==> next in listed && next in blocks && blocks[next].size > 0
      ensures FreeRun(blocks, bp, if prevAlloc == 1 then bp else prev,
                      if nextAlloc == 1 then next else next + blocks[next].size)
    {
      ListedInBlocks();
      prev, prevAlloc := PrevBlkp(bp);
      next, nextAlloc := NextBlkp(bp);
      if prevAlloc == 0 {
        BlockWords(prev);
      }
      if nextAlloc == 0 {
        BlockWords(next);
      }
      FreeRunIs(blocks, First(heapListp), mem.brk, bp, prev, prevAlloc, nextAlloc);
    }

    /** Cases 2 to 4 of coalesce, up to the insertion. */
    method JoinRun(prev: int, prevAlloc: int, bp: int, next: int, nextAlloc: int) returns (r: int, ghost e: int)
      requires Valid() && bp in listed && 0 <= prevAlloc <= 1 && 0 <= nextAlloc <= 1 && prevAlloc + nextAlloc < 2
      requires bp in blocks && bp + blocks[bp].size == next
      requires prevAlloc == 0 ==> prev in listed && prev in blocks && prev + blocks[prev].size == bp
      requires nextAlloc == 0 ==> next in listed && next in blocks
      modifies this`blocks, this`lists, this`listed, mem`words, mem.data
      ensures r == if prevAlloc == 1 then bp else prev
      ensures e == if nextAlloc == 1 then next else next + old(blocks)[next].size
      ensures Wired() && listed == FreeOf(blocks) - {r}
      ensures blocks == Fuse(old(blocks), r, e, false) && lists == Cut(old(lists), r, e)
      ensures LiveKept(old(mem.words), mem.words, old(blocks)) && StillUsed(old(blocks), blocks)
    {
      e := if nextAlloc == 1 then next else next + blocks[next].size;
      if prevAlloc == 1 {
        JoinNext(bp, next);
        r := bp;
      } else if nextAlloc == 1 {
        JoinPrev(prev, bp);
        r := prev;
      } else {
        JoinBoth(prev, bp, next);
        r := prev;
      }
    }

    /** Cases 2 to 4 of coalesce. */
    method JoinAndInsert(prev: int, prevAlloc: int, bp: int, next: int, nextAlloc: int) returns (r: int, ghost e: int)
      requires Valid() && bp in listed && 0 <= prevAlloc <= 1 && 0 <= nextAlloc <= 1 && prevAlloc + nextAlloc < 2
      requires bp in blocks && bp + blocks[bp].size == next
      requires prevAlloc == 0 ==> prev in listed && prev in blocks && prev + blocks[prev].size == bp
      requires nextAlloc == 0 ==> next in listed && next in blocks
      modifies this`blocks, this`lists, this`listed, mem`words, mem.data
      ensures r == if prevAlloc == 1 then bp else prev
      ensures e == if nextAlloc == 1 then next else next + old(blocks)[next].size
      ensures Valid() && r in listed && r in old(blocks)
      ensures Shape(blocks, lists) == Released(Shape(old(blocks), old(lists)), r, e)
      ensures LiveKept(old(mem.words), mem.words, old(blocks)) && StillUsed(old(blocks), blocks)
    {
      ghost var w0, b0 := mem.words, blocks;
      r, e := JoinRun(prev, prevAlloc, bp, next, nextAlloc);
      ghost var w1 := mem.words;
      InsertFreeBlock(r);
      LiveKeptTrans(w0, w1, mem.words, b0, blocks);
    }

    /** coalesce: the free block `bp` and its free neighbours become one listed block. */
    method Coalesce(bp: int) returns (r: int, ghost e: int)
      requires Valid() && bp in listed
      modifies this`blocks, this`lists, this`listed, mem`words, mem.data
      ensures Valid() && FreeRun(old(blocks), bp, r, e) && r in listed
      ensures r == FreeFrom(old(blocks), bp) && e == FreeTo(old(blocks), bp + old(blocks)[bp].size)
      ensures r in blocks && blocks[r] == Block(e - r, false)
      ensures Shape(blocks, lists) == Joined(Shape(old(blocks), old(lists)), bp)
      ensures LiveKept(old(mem.words), mem.words, old(blocks)) && StillUsed(old(blocks), blocks)
      ensures LiveOf(blocks) == LiveOf(old(blocks))
    {
      var prev, prevAlloc, next, nextAlloc := Neighbours(bp);
      r, e := if prevAlloc == 1 then bp else prev, if nextAlloc == 1 then next else next + blocks[next].size;
      RunFuse(bp, r, e);
      RunIs(blocks, First(heapListp), mem.brk, bp, r, e);
      JoinedIs(Shape(blocks, lists), bp, r, e);
      if prevAlloc == 1 && nextAlloc == 1 {
        return;
      }
      r, e := JoinAndInsert(prev, prevAlloc, bp, next, nextAlloc);
    }

    /** Joining a free run changes no block in use, and nothing at all if the run is one block. */
    lemma RunFuse(bp: int, r: int, e: int)
      requires Wired() && FreeRun(blocks, bp, r, e)
      ensures r in Fuse(blocks, r, e, false) && !Fuse(blocks, r, e, false)[r].used
      ensures LiveOf(Fuse(blocks, r, e, false)) == LiveOf(blocks)
      ensures r == bp && e == bp + blocks[bp].size ==> Fuse(blocks, r, e, false) == blocks
    {
      FreeRunBounds(blocks, First(heapListp), mem.brk, bp, r, e);
      FuseFreeLive(blocks, r, e);
      FuseAlone(blocks, First(heapListp), mem.brk, bp);
    }

    /** A block put in its list and taken out with the run it is joined to might as well not have been put in. */
    lemma RunLists(bp: int, r: int, e: int)
      requires Wired() && bp in blocks && listed == FreeOf(blocks) - {bp} && FreeRun(blocks, bp, r, e)
      ensures Joined(Shape(blocks, Filed(blocks, lists, bp)), bp) == Freed(Shape(blocks, lists), bp)
    {
      FreeRunBounds(blocks, First(heapListp), mem.brk, bp, r, e);
      RunIs(blocks, First(heapListp), mem.brk, bp, r, e);
      CutFiled(blocks, lists, bp, r, e);
      AloneRegion(bp);
      RunFuse(bp, r, e);
      if r == bp && e == bp + blocks[bp].size {
        CutNone(mem.words, blocks, lists, heapListp, listed, r, e);
      }
      JoinedFiled(blocks, lists, bp, r, e);
    }

    /** Tags for a used block of `n` bytes at `p` and a free one of `rest` bytes after it, at `q`,
        in place of the blocks up to `e`; `w` is memory before the region was first written. */
    method CarveRegion(ghost w: map<int, Word>, p: int, n: int, rest: int, ghost e: int, ghost x: int) returns (q: int)
      requires WiredIn(w) && RegionOf(blocks, mem.brk, p, e, x) && SameOutside(w, mem.words, p - 4, e - 4)
      requires ListedBut(blocks, listed, p, e)
      requires n % 8 == 0 && n >= MIN_BLOCK_SIZE && rest >= MIN_BLOCK_SIZE && e == p + n + rest
      modifies this`blocks, mem`words, mem.data
      ensures Wired() && q == p + n && q in blocks && blocks[q] == Block(rest, false) && listed == FreeOf(blocks) - {q}
      ensures blocks == Carve(old(blocks), p, e, n) && Cut(lists, p, e) == lists
      ensures LiveOf(blocks) == (LiveOf(old(blocks)) - {x})[p := n] && StillUsed(old(blocks) - {x}, blocks)
      ensures LiveKept(w, mem.words, old(blocks) - {x}) && PayloadKept(old(mem.words), mem.words, p, n - 8)
      ensures Compact(old(blocks)) ==> CompactBut(blocks, q)
      ensures (e in blocks <==> e in old(blocks)) && (e in blocks ==> blocks[e] == old(blocks)[e])
    {
      ghost var w1 := mem.words;
      RegionWords(w, p, e);
      RegionInner(w, p, n, e);
      CutNone(w, blocks, lists, heapListp, listed, p, e);
      q := PutCarved(p, n, rest);
      blocks := CarveAll(w, w1, mem.words, blocks, lists, heapListp, listed, mem.brk, p, e, n, x);
    }

    /** The four stores of a split. */
    method PutCarved(p: int, n: int, rest: int) returns (q: int)
      requires mem.Valid() && 0 < p && p + n + rest < ADDRESS_SPACE && n % 8 == 0 && rest % 8 == 0 && n >= 16
      requires rest >= 16
      requires InHeap(p - 4) && InHeap(p + n - 8) && InHeap(p + n - 4) && InHeap(p + n + rest - 8)
      modifies mem`words, mem.data
      ensures mem.Valid() && q == p + n
      ensures mem.words == old(mem.words)[p - 4 := Pack(n, true)][p + n - 8 := Pack(n, true)]
                                         [q - 4 := Pack(rest, false)][q + rest - 8 := Pack(rest, false)]
    {
      UnpackPack(n, true);
      PutTags(p, n, true);
      var size := GetSize(p - WSIZE);
      q := p + size;
      PutTags(q, rest, false);
    }

    /** Tags for one used block of `size` bytes at `p`, in place of the blocks up to `e`. */
    method UseRegion(ghost w: map<int, Word>, p: int, size: int, ghost e: int, ghost x: int, ghost h: Shape)
      requires WiredIn(w) && RegionOf(blocks, mem.brk, p, e, x) && SameOutside(w, mem.words, p - 4, e - 4)
      requires ListedBut(blocks, listed, p, e)
      requires e == p + size && h.blocks == blocks && Cut(h.lists, p, e) == Cut(lists, p, e)
      modifies this`blocks, mem`words, mem.data
      ensures Valid() && LiveOf(blocks) == (LiveOf(h.blocks) - {x})[p := size]
      ensures Shape(blocks, lists) == UsedUp(h, p, e)
      ensures StillUsed(h.blocks - {x}, blocks)
      ensures LiveKept(w, mem.words, h.blocks - {x}) && PayloadKept(old(mem.words), mem.words, p, size - 8)
      ensures Compact(h.blocks) ==> Compact(blocks)
    {
      ghost var w1 := mem.words;
      RegionWords(w, p, e);
      CutNone(w, blocks, lists, heapListp, listed, p, e);
      PutTags(p, size, true);
      blocks := UseAll(w, w1, mem.words, blocks, lists, heapListp, listed, mem.brk, p, e, x);
    }

    lemma RootArena(i: int)
      requires mem.Valid() && 0 <= i < N_SEGLIST && heapListp == mem.start && mem.brk == First(heapListp)
      ensures InHeap(Root(heapListp, i))
    {
      WordMultiple(heapListp, 2 + 2 * i);
    }

    /** The other words mm_init writes. */
    lemma InitWords()
      requires mem.Valid() && heapListp == mem.start && mem.brk == First(heapListp)
      ensures InHeap(heapListp) && InHeap(heapListp + 100) && InHeap(heapListp + 104) && InHeap(heapListp + 108)
    {
      WordMultiple(heapListp, 0);
      WordMultiple(heapListp, 25);
      WordMultiple(heapListp, 26);
      WordMultiple(heapListp, 27);
    }

    /** The words a heap grown by `size` bytes from `bp` needs to have written. */
    lemma BreakWords(bp: int, size: int)
      requires mem.Valid() && mem.brk == bp + size && bp % 8 == 0 && bp >= mem.start + 8 && size % 8 == 0 && size >= 16
      ensures InHeap(bp - 4) && InHeap(bp + size - 8) && InHeap(bp + size - 4)
    {
      WordMultiple(bp, -1);
      EndWords(bp, size);
    }

    lemma RegionWords(w: map<int, Word>, p: int, e: int)
      requires WiredIn(w) && p in blocks && Boundary(blocks, mem.brk, e) && p < e
      ensures InHeap(p - 4) && InHeap(e - 8) && (e - p) % 8 == 0 && e - p >= MIN_BLOCK_SIZE && 0 < p && e <= mem.brk
    {
      FuseSize(blocks, First(heapListp), mem.brk, p, e);
      assert BlockOk(blocks, First(heapListp), mem.brk, p);
      WordMultiple(p, -1);
      EndWords(p, e - p);
    }

    lemma RegionInner(w: map<int, Word>, p: int, n: int, e: int)
      requires WiredIn(w) && p in blocks && Boundary(blocks, mem.brk, e) && p < e && n % 8 == 0 && 16 <= n <= e - p
      ensures InHeap(p + n - 8) && InHeap(p + n - 4) && (e - p - n) % 8 == 0
    {
      RegionWords(w, p, e);
      assert BlockOk(blocks, First(heapListp), mem.brk, p);
      EndWords(p, n);
      EightsAdd(e - p, n);
    }

    /** Every free block is in a free run. */
    lemma RunOf(bp: int, r: int, e: int)
      requires Wired() && bp in blocks && !blocks[bp].used
      requires r == FreeFrom(blocks, bp) && e == FreeTo(blocks, bp + blocks[bp].size)
      ensures FreeRun(blocks, bp, r, e) && r <= bp && bp + blocks[bp].size <= e
    {
      if exists q :: EndsAt(blocks, q, bp) && !blocks[q].used {
        var q :| EndsAt(blocks, q, bp) && !blocks[q].used && PrevFree(blocks, bp) == blocks[q].size;
        OneBefore(bp, q);
        BlockWords(q);
      }
      var n := bp + blocks[bp].size;
      if n in blocks {
        BlockWords(n);
      }
    }

    /** Joining a free run leaves the heap compact if it was so elsewhere. */
    lemma RunJoined(bp: int, r: int, e: int)
      requires Wired() && bp in blocks && FreeRun(blocks, bp, r, e)
      ensures CompactBut(blocks, bp) ==> Compact(Freed(Shape(blocks, lists), bp).blocks)
    {
      RunIs(blocks, First(heapListp), mem.brk, bp, r, e);
      if CompactBut(blocks, bp) {
        JoinCompact(blocks, First(heapListp), mem.brk, bp, r, e);
      }
    }

    /** At most one block ends where another starts. */
    lemma OneBefore(bp: int, q: int)
      requires Wired() && EndsAt(blocks, q, bp)
      ensures forall x {:trigger blocks[x]} :: EndsAt(blocks, x, bp) ==> x == q
    {
      forall x | EndsAt(blocks, x, bp) ensures x == q {
        BlockWords(x);
        BlockWords(q);
        assert Apart(blocks, x, q) && Apart(blocks, q, x);
      }
    }

    /** insert_free_block(bp) followed by coalesce(bp), as every function that frees a block ends. */
    method InsertAndCoalesce(bp: int) returns (r: int)
      requires Wired() && bp in blocks && !blocks[bp].used && listed == FreeOf(blocks) - {bp}
      modifies this`blocks, this`lists, this`listed, mem`words, mem.data
      ensures Valid() && Shape(blocks, lists) == Freed(Shape(old(blocks), old(lists)), bp)
      ensures r in listed && r in blocks && r == FreeFrom(old(blocks), bp) <= bp
      ensures r + blocks[r].size == FreeTo(old(blocks), bp + old(blocks)[bp].size) >= bp + old(blocks)[bp].size
      ensures LiveOf(blocks) == LiveOf(old(blocks)) && StillUsed(old(blocks), blocks)
      ensures LiveKept(old(mem.words), mem.words, old(blocks))
      ensures CompactBut(old(blocks), bp) ==> Compact(blocks)
    {
      ghost var w0, b0 := mem.words, blocks;
      ghost var e := FreeTo(blocks, bp + blocks[bp].size);
      RunOf(bp, FreeFrom(blocks, bp), e);
      RunJoined(bp, FreeFrom(blocks, bp), e);
      RunLists(bp, FreeFrom(blocks, bp), e);
      InsertFreeBlock(bp);
      ghost var w1 := mem.words;
      r, e := Coalesce(bp);
      LiveKeptTrans(w0, w1, mem.words, b0, b0);
    }

    /** The unlisted tail of a carved region, freed. */
    lemma TailFreed(b: Blocks, p: int, m: int, n: int)
      requires Wired() && Tiled(b, First(heapListp), mem.brk) && p in b && Boundary(b, mem.brk, m)
      requires n % 8 == 0 && n >= MIN_BLOCK_SIZE && m - p - n >= MIN_BLOCK_SIZE
      requires blocks == Carve(b, p, m, n) && listed == FreeOf(blocks) - {p + n}
      ensures p + n in blocks && !blocks[p + n].used
      ensures Freed(Shape(blocks, lists), p + n) == Carved(Shape(b, lists), p, FreeTo(b, m), n)
    {
      TailRun(b, p, m, n);
      TailUnlisted(p, p + n, FreeTo(b, m));
      CarvedTail(b, blocks, lists, p, FreeTo(b, m), n);
    }

    /** It begins the free run it is in. */
    lemma TailRun(b: Blocks, p: int, m: int, n: int)
      requires Wired() && Tiled(b, First(heapListp), mem.brk) && p in b && Boundary(b, mem.brk, m)
      requires n % 8 == 0 && n >= MIN_BLOCK_SIZE && m - p - n >= MIN_BLOCK_SIZE && blocks == Carve(b, p, m, n)
      ensures var q, e := p + n, FreeTo(b, m);
              && q in blocks && !blocks[q].used && p in blocks && blocks[p] == Block(n, true)
              && FreeFrom(blocks, q) == q && FreeTo(blocks, q + blocks[q].size) == e
              && Fuse(blocks, q, e, false) == Carve(b, p, e, n)
    {
      var q := p + n;
      var r, e := FreeFrom(blocks, q), FreeTo(blocks, q + blocks[q].size);
      RunOf(q, r, e);
      CarveJoin(b, blocks, First(heapListp), mem.brk, p, m, n, r, e);
    }

    /** The front of a carved region is in use, so it is in no list. */
    lemma TailUnlisted(p: int, q: int, e: int)
      requires Wired() && p in blocks && blocks[p].used && q == p + blocks[p].size
      ensures Cut(lists, p, e) == Cut(lists, q, e)
    {
      AloneRegion(p);
      ListedInBlocks();
      BlockWords(p);
      CutFrom(mem.words, blocks, lists, heapListp, listed, p, q, e);
    }

    lemma NextFreeIs(p: int)
      requires Wired() && p in blocks
      ensures var e := p + blocks[p].size;
              NextFree(blocks, p) == 0 <==> !FreeAt(blocks, e)
    {
      var e := p + blocks[p].size;
      if e in blocks {
        BlockWords(e);
      }
    }

    lemma FreeToBounds(e: int)
      requires Wired()
      ensures FreeTo(blocks, e) >= e
    {
      if e in blocks {
        BlockWords(e);
      }
    }

    /** The tail of a carved region becomes free: insert_free_block and coalesce of it. */
    method FreeTail(q: int, ghost b: Blocks, ghost p: int, ghost m: int, ghost n: int)
      requires Wired() && Tiled(b, First(heapListp), mem.brk) && p in b && Boundary(b, mem.brk, m)
      requires n % 8 == 0 && n >= MIN_BLOCK_SIZE && m - q >= MIN_BLOCK_SIZE && q == p + n
      requires blocks == Carve(b, p, m, n) && listed == FreeOf(blocks) - {q}
      modifies this`blocks, this`lists, this`listed, mem`words, mem.data
      ensures Valid() && Shape(blocks, lists) == Carved(Shape(b, old(lists)), p, FreeTo(b, m), n)
      ensures LiveOf(blocks) == LiveOf(old(blocks)) && StillUsed(old(blocks), blocks)
      ensures LiveKept(old(mem.words), mem.words, old(blocks))
      ensures CompactBut(old(blocks), q) ==> Compact(blocks)
    {
      TailFreed(b, p, m, n);
      var _ := InsertAndCoalesce(q);
    }

    /** Carves a region and frees what is left of it, as place and mm_realloc do. */
    method CarveAndFree(ghost w: map<int, Word>, p: int, n: int, rest: int, ghost e: int, ghost x: int,
                        ghost h: Shape)
      requires WiredIn(w) && RegionOf(blocks, mem.brk, p, e, x) && SameOutside(w, mem.words, p - 4, e - 4)
      requires ListedBut(blocks, listed, p, e)
      requires n % 8 == 0 && n >= MIN_BLOCK_SIZE && rest >= MIN_BLOCK_SIZE && e == p + n + rest
      requires h.blocks == blocks && |h.lists| == N_SEGLIST
      requires Cut(lists, p, FreeTo(blocks, e)) == Cut(h.lists, p, FreeTo(blocks, e))
      modifies this`blocks, this`lists, this`listed, mem`words, mem.data
      ensures Valid() && Shape(blocks, lists) == Carved(h, p, FreeTo(h.blocks, e), n)
      ensures LiveOf(blocks) == (LiveOf(h.blocks) - {x})[p := n]
      ensures LiveKept(w, mem.words, h.blocks - {x}) && PayloadKept(old(mem.words), mem.words, p, n - 8)
      ensures Compact(h.blocks) ==> Compact(blocks)
    {
      ghost var w0, b0 := mem.words, blocks;
      SameRegion(blocks, lists, h.lists, p, FreeTo(blocks, e));
      var q := CarveRegion(w, p, n, rest, e, x);
      ghost var w1, b1 := mem.words, blocks;
      FreeTail(q, b0, p, e, n);
      LiveKeptTrans(w, w1, mem.words, b0 - {x}, b1);
      FrontKept(w0, w1, mem.words, b1, p, n);
    }

    lemma FrontKept(w0: map<int, Word>, w1: map<int, Word>, w2: map<int, Word>, b: Blocks, p: int, n: int)
      requires PayloadKept(w0, w1, p, n - 8) && LiveKept(w1, w2, b) && p in LiveOf(b) && LiveOf(b)[p] == n
      ensures PayloadKept(w0, w2, p, n - 8)
    {
      assert PayloadKept(w1, w2, p, b[p].size - 8);
      forall a | p <= a < p + n - 8 ensures WordAt(w2, a) == WordAt(w0, a) {
        assert WordAt(w1, a) == WordAt(w0, a);
      }
    }

    /** Carves a region and lists what is left of it, as the cases of mm_realloc that move a payload down do. */
    method CarveAndInsert(ghost w: map<int, Word>, p: int, n: int, rest: int, ghost e: int, ghost x: int,
                          ghost h: Shape)
      returns (q: int)
      requires WiredIn(w) && RegionOf(blocks, mem.brk, p, e, x) && SameOutside(w, mem.words, p - 4, e - 4)
      requires ListedBut(blocks, listed, p, e)
      requires n % 8 == 0 && n >= MIN_BLOCK_SIZE && rest >= MIN_BLOCK_SIZE && e == p + n + rest
      requires h.blocks == blocks && |h.lists| == N_SEGLIST && Cut(lists, p, e) == Cut(h.lists, p, e)
      modifies this`blocks, this`lists, this`listed, mem`words, mem.data
      ensures Valid() && Shape(blocks, lists) == Carved(h, p, e, n)
      ensures q == p + n && q in blocks && blocks[q] == Block(rest, false)
      ensures LiveOf(blocks) == (LiveOf(h.blocks) - {x})[p := n] && StillUsed(h.blocks - {x}, blocks)
      ensures LiveKept(w, mem.words, h.blocks - {x}) && PayloadKept(old(mem.words), mem.words, p, n - 8)
      ensures Compact(h.blocks) ==> CompactBut(blocks, q)
      ensures (e in blocks <==> e in h.blocks) && (e in blocks ==> blocks[e] == h.blocks[e])
    {
      ghost var w0, b0 := mem.words, blocks;
      q := CarveRegion(w, p, n, rest, e, x);
      ghost var w1, b1 := mem.words, blocks;
      InsertFreeBlock(q);
      LiveKeptTrans(w, w1, mem.words, b0 - {x}, b1);
      FrontKept(w0, w1, mem.words, b1, p, n);
    }

    /** The first branch of place. */
    method PlaceFront(bp: int, asize: int)
      requires Wired() && bp in blocks && !blocks[bp].used && listed == FreeOf(blocks) - {bp}
      requires asize % 8 == 0 && MIN_BLOCK_SIZE <= asize <= blocks[bp].size - MIN_BLOCK_SIZE
      modifies this`blocks, this`lists, this`listed, mem`words, mem.data
      ensures Valid() && LiveOf(blocks) == LiveOf(old(blocks))[bp := asize]
      ensures var e := bp + old(blocks)[bp].size;
              Shape(blocks, lists) == Carved(Shape(old(blocks), old(lists)), bp, FreeTo(old(blocks), e), asize)
      ensures LiveKept(old(mem.words), mem.words, old(blocks) - {bp})
      ensures Compact(old(blocks)) ==> Compact(blocks)
    {
      ghost var h0 := Shape(blocks, lists);
      ghost var e := bp + blocks[bp].size;
      var startSize := BlockSize(bp);
      AloneRegion(bp);
      CarveAndFree(mem.words, bp, asize, startSize - asize, e, bp, h0);
    }

    /** The second branch of place. */
    method PlaceWhole(bp: int)
      requires Wired() && bp in blocks && !blocks[bp].used && listed == FreeOf(blocks) - {bp}
      modifies this`blocks, mem`words, mem.data
      ensures Valid() && LiveOf(blocks) == LiveOf(old(blocks))[bp := old(blocks)[bp].size]
      ensures Shape(blocks, lists) == UsedUp(Shape(old(blocks), old(lists)), bp, bp + old(blocks)[bp].size)
      ensures LiveKept(old(mem.words), mem.words, old(blocks) - {bp})
      ensures Compact(old(blocks)) ==> Compact(blocks)
    {
      ghost var h0 := Shape(blocks, lists);
      var startSize := BlockSize(bp);
      AloneRegion(bp);
      BlockWords(bp);
      UseRegion(mem.words, bp, startSize, bp + startSize, bp, h0);
    }

    /** The branches of place. */
    method PlaceOut(bp: int, asize: int, remainingSize: int)
      requires Wired() && bp in blocks && !blocks[bp].used && listed == FreeOf(blocks) - {bp}
      requires asize % 8 == 0 && MIN_BLOCK_SIZE <= asize && remainingSize == blocks[bp].size - asize >= 0
      modifies this`blocks, this`lists, this`listed, mem`words, mem.data
      ensures Valid()
      ensures var size := old(blocks)[bp].size;
              LiveOf(blocks) == LiveOf(old(blocks))[bp := if size - asize >= MIN_BLOCK_SIZE then asize else size]
      ensures var h, e := Shape(old(blocks), old(lists)), bp + old(blocks)[bp].size;
              Shape(blocks, lists) ==
              if remainingSize >= MIN_BLOCK_SIZE then Carved(h, bp, FreeTo(old(blocks), e), asize) else UsedUp(h, bp, e)
      ensures LiveKept(old(mem.words), mem.words, old(blocks))
      ensures Compact(old(blocks)) ==> Compact(blocks)
    {
      ghost var w0, b0 := mem.words, blocks;
      if remainingSize >= MIN_BLOCK_SIZE {
        PlaceFront(bp, asize);
      } else {
        PlaceWhole(bp);
      }
      DropFree(w0, mem.words, b0, bp);
    }

    /** How place starts: a block whose tag says free leaves its list. */
    method TakeOut(bp: int, asize: int) returns (remainingSize: int)
      requires Valid() && bp in listed && bp in blocks
      modifies this`lists, this`listed, mem`words, mem.data
      ensures Wired() && listed == FreeOf(blocks) - {bp} && !blocks[bp].used && lists == Cut(old(lists), bp, bp + 1)
      ensures LiveKept(old(mem.words), mem.words, blocks) && remainingSize == blocks[bp].size - asize
    {
      BlockWords(bp);
      UnpackPack(blocks[bp].size, false);
      var isRealloc := GetAlloc(bp - WSIZE);
      var startSize := BlockSize(bp);
      remainingSize := startSize - asize;
      if isRealloc == 0 {
        DeleteFreeBlock(bp);
      }
    }

    /** place: allocates the front of a free block, and frees what is left if that can be a block. */
    method Place(bp: int, asize: int)
      requires Valid() && bp in listed && bp in blocks
      requires asize % 8 == 0 && MIN_BLOCK_SIZE <= asize <= blocks[bp].size
      modifies this`blocks, this`lists, this`listed, mem`words, mem.data
      ensures Valid()
      ensures var size := old(blocks)[bp].size;
              LiveOf(blocks) == LiveOf(old(blocks))[bp := if size - asize >= MIN_BLOCK_SIZE then asize else size]
      ensures Shape(blocks, lists) == Allotted(Shape(old(blocks), old(lists)), bp, asize)
      ensures LiveKept(old(mem.words), mem.words, old(blocks))
      ensures Compact(old(blocks)) ==> Compact(blocks)
    {
      ghost var w0, b0 := mem.words, blocks;
      AllottedAlone(blocks, lists, First(heapListp), mem.brk, bp, asize);
      var remainingSize := TakeOut(bp, asize);
      ghost var w1 := mem.words;
      PlaceOut(bp, asize, remainingSize);
      LiveKeptTrans(w0, w1, mem.words, b0, b0);
    }

    /** No other block starts inside a block. */
    lemma AloneRegion(p: int)
      requires Wired() && p in blocks
      ensures Boundary(blocks, mem.brk, p + blocks[p].size)
      ensures forall q {:trigger q in blocks} :: q in blocks && p <= q < p + blocks[p].size ==> q == p
    {
      assert NextOk(blocks, mem.brk, p);
      forall q | q in blocks ensures p <= q < p + blocks[p].size ==> q == p {
        assert Apart(blocks, p, q);
      }
    }

    /** The stores of extend_heap: the new block's tags and the new epilogue. */
    method AddBlock(bp: int, size: int)
      requires mem.Valid() && heapListp == mem.start && mem.brk == bp + size && size % 8 == 0 && size >= MIN_BLOCK_SIZE
      requires HeapOk(mem.words, blocks, lists, heapListp, listed, bp) && listed == FreeOf(blocks)
      modifies this`blocks, mem`words, mem.data
      ensures Wired() && bp in blocks && blocks[bp] == Block(size, false) && listed == FreeOf(blocks) - {bp}
      ensures LiveOf(blocks) == LiveOf(old(blocks)) && StillUsed(old(blocks), blocks)
      ensures LiveKept(old(mem.words), mem.words, old(blocks)) && blocks == old(blocks)[bp := Block(size, false)]
      ensures Compact(old(blocks)) ==> CompactBut(blocks, bp)
    {
      ghost var w := mem.words;
      BrkAligned(blocks, First(heapListp), bp);
      BreakWords(bp, size);
      PutTags(bp, size, false);
      mem.Put(bp + size - WSIZE, Pack(0, true));
      ExtendHeapOk(w, mem.words, blocks, lists, heapListp, listed, bp, size);
      blocks := blocks[bp := Block(size, false)];
    }

    /** A block put at the break is joined with the free block below it, if there is one. */
    lemma TopRun(b: Blocks, bp: int, size: int, r: int, e: int)
      requires Tiled(b, First(heapListp), bp) && size > 0 && FreeRun(b[bp := Block(size, false)], bp, r, e)
      requires Tiled(b[bp := Block(size, false)], First(heapListp), bp + size) && |lists| == N_SEGLIST
      ensures TopStart(b, bp, r) && e == bp + size && r == FreeFrom(b, bp)
      ensures Freed(Shape(b[bp := Block(size, false)], lists), bp) == Grown(Shape(b, lists), bp, size)
    {
      GrownIs(b, lists, First(heapListp), bp, size, r, e);
      var c := b[bp := Block(size, false)];
      assert bp + size in b ==> BlockOk(b, First(heapListp), bp, bp + size);
      assert bp in b ==> BlockOk(b, First(heapListp), bp, bp);
      assert forall q :: q in b ==> BlockOk(b, First(heapListp), bp, q);
      assert forall q :: q in b && q != bp ==> c[q] == b[q];
    }

    /** extend_heap: `words` more words of heap, as a free block joined to a free block before it. */
    method ExtendHeap(words: int) returns (r: int)
      requires Valid() && 4 <= words && WSIZE * (words + 1) < ADDRESS_SPACE && mem.Roomy(WSIZE * (words + words % 2))
      modifies this`blocks, this`lists, this`listed, mem`words, mem`brk, mem.data
      ensures Valid()
      ensures var size := WSIZE * (words + words % 2);
              if old(mem.brk) + size > mem.start + MAX_HEAP then
                r == 0 && mem.brk == old(mem.brk) && mem.words == old(mem.words) && mem.data[..] == old(mem.data[..])
                && blocks == old(blocks) && lists == old(lists) && listed == old(listed)
              else
                r > 0 && r in listed && r in blocks && blocks[r].size >= size && mem.brk == old(mem.brk) + size
                && TopStart(old(blocks), old(mem.brk), r) && r + blocks[r].size == mem.brk
                && r == FreeFrom(old(blocks), old(mem.brk))
                && Shape(blocks, lists) == Grown(Shape(old(blocks), old(lists)), old(mem.brk), size)
      ensures LiveOf(blocks) == LiveOf(old(blocks)) && StillUsed(old(blocks), blocks)
      ensures LiveKept(old(mem.words), mem.words, old(blocks))
      ensures Compact(old(blocks)) ==> Compact(blocks)
    {
      var size := if words % 2 == 1 then (words + 1) * WSIZE else words * WSIZE;
      WordPairs(words);
      assert size == WSIZE * (words + words % 2);
      var incr := if size < ADDRESS_SPACE / 2 then size else size - ADDRESS_SPACE;
      var bp := mem.Sbrk(incr);
      if bp == -1 {
        return 0;
      }
      r := AddAndCoalesce(bp, size);
    }

    /** What extend_heap does with the new space. */
    method AddAndCoalesce(bp: int, size: int) returns (r: int)
      requires mem.Valid() && heapListp == mem.start && mem.brk == bp + size && size % 8 == 0 && size >= MIN_BLOCK_SIZE
      requires HeapOk(mem.words, blocks, lists, heapListp, listed, bp) && listed == FreeOf(blocks)
      modifies this`blocks, this`lists, this`listed, mem`words, mem.data
      ensures Valid() && r > 0 && r in listed && r in blocks && blocks[r].size >= size && r + blocks[r].size == mem.brk
      ensures TopStart(old(blocks), bp, r) && r == FreeFrom(old(blocks), bp)
      ensures Shape(blocks, lists) == Grown(Shape(old(blocks), old(lists)), bp, size)
      ensures LiveOf(blocks) == LiveOf(old(blocks)) && StillUsed(old(blocks), blocks)
      ensures LiveKept(old(mem.words), mem.words, old(blocks))
      ensures Compact(old(blocks)) ==> Compact(blocks)
    {
      ghost var w0, b0 := mem.words, blocks;
      AddBlock(bp, size);
      ghost var w1, b1 := mem.words, blocks;
      ghost var x, e := FreeFrom(blocks, bp), FreeTo(blocks, bp + blocks[bp].size);
      RunOf(bp, x, e);
      TopRun(b0, bp, size, x, e);
      r := InsertAndCoalesce(bp);
      BlockWords(r);
      LiveKeptTrans(w0, w1, mem.words, b0, b1);
    }

    /** The stores of mm_init: alignment padding, roots, prologue and epilogue. */
    method InitLayout()
      requires mem.Valid() && heapListp == mem.start && mem.brk == First(heapListp)
      modifies mem`words, mem.data
      ensures mem.Valid() && HeapOk(mem.words, map[], seq(N_SEGLIST, i => []), heapListp, {}, mem.brk)
    {
      InitWords();
      mem.Put(heapListp, 0);
      for i := 0 to N_SEGLIST
        modifies mem`words, mem.data
        invariant mem.Valid()
        invariant forall j :: 0 <= j < i ==> WordAt(mem.words, Root(heapListp, j)) == 0
      {
        RootArena(i);
        mem.Put(heapListp + (i + 1) * DSIZE, 0);
      }
      mem.Put(heapListp + DSIZE + N_SEGLIST * DSIZE + WSIZE, Pack(DSIZE, true));
      mem.Put(heapListp + 2 * DSIZE + N_SEGLIST * DSIZE, Pack(DSIZE, true));
      mem.Put(heapListp + 2 * DSIZE + N_SEGLIST * DSIZE + WSIZE, Pack(0, true));
      EmptyHeapOk(mem.words, seq(N_SEGLIST, i => []), heapListp);
    }

    /** mm_init: an empty arena becomes a heap of one free block. */
    method MmInit() returns (r: int)
      requires mem.Valid() && mem.brk == mem.start
      modifies this, mem`words, mem`brk, mem.data
      ensures r == 0 && Valid() && blkStart == First(heapListp) && heapListp == mem.start
      ensures mem.brk == First(heapListp) + CHUNKSIZE && mem.HeapSize() == 4208
      ensures blocks == map[First(heapListp) := Block(CHUNKSIZE, false)]
    {
      var p := mem.Sbrk(3 * DSIZE + N_SEGLIST * DSIZE);
      if p == -1 {
        return -1;
      }
      heapListp := p;
      InitLayout();
      blocks, lists, listed := map[], seq(N_SEGLIST, i => []), {};
      assert WSIZE * (CHUNKSIZE / WSIZE + CHUNKSIZE / WSIZE % 2) == CHUNKSIZE;
      var q := ExtendHeap(CHUNKSIZE / WSIZE);
      if q == 0 {
        return -1;
      }
      AllFree(blocks, First(heapListp), mem.brk);
      blkStart := heapListp + (N_SEGLIST + 3) * DSIZE;
      return 0;
    }

    /** place, for a request of `size` bytes. */
    method PlaceFor(bp: int, asize: int, ghost size: int)
      requires Valid() && bp in listed && bp in blocks
      requires size > 0 && asize == AdjustedSize(size) <= blocks[bp].size
      modifies this`blocks, this`lists, this`listed, mem`words, mem.data
      ensures Valid() && Granted(LiveOf(old(blocks)), LiveOf(blocks), bp, size)
      ensures LiveOf(blocks)[bp] == Placed(old(blocks)[bp].size, asize)
      ensures Shape(blocks, lists) == Allotted(Shape(old(blocks), old(lists)), bp, asize)
      ensures LiveKept(old(mem.words), mem.words, old(blocks))
      ensures Compact(old(blocks)) ==> Compact(blocks)
    {
      AdjustedRange(size);
      BlockWords(bp);
      SlackOf(blocks[bp].size, asize);
      Place(bp, asize);
    }

    /** mm_malloc. A null result means a request for nothing, or one no free block and no extension can meet. */
    method MmMalloc(size: int) returns (r: int)
      requires Valid() && 0 <= size <= MAX_REQUEST
      requires size > 0 && NoFit(blocks, AdjustedSize(size)) ==> mem.Roomy(Growth(size))
      modifies this`blocks, this`lists, this`listed, mem`words, mem`brk, mem.data
      ensures Valid()
      ensures r == 0 <==>
                || size == 0
                || (NoFit(old(blocks), AdjustedSize(size)) && old(mem.brk) + Growth(size) > mem.start + MAX_HEAP)
      ensures r == 0 ==> mem.brk == old(mem.brk) && mem.words == old(mem.words) && mem.data[..] == old(mem.data[..])
                         && blocks == old(blocks) && lists == old(lists) && listed == old(listed)
      ensures r != 0 ==> Granted(LiveOf(old(blocks)), LiveOf(blocks), r, size)
      ensures r != 0 ==> ServedAt(old(blocks), old(mem.brk), LiveOf(blocks), mem.brk, r, size)
      ensures r != 0 ==> Served(Shape(old(blocks), old(lists)), Shape(blocks, lists), old(mem.brk), r, size)
      ensures LiveKept(old(mem.words), mem.words, old(blocks))
      ensures Compact(old(blocks)) ==> Compact(blocks)
    {
      if size == 0 {
        return 0;
      }
      var asize := if size <= DSIZE then 2 * DSIZE else DSIZE * ((size + DSIZE + (DSIZE - 1)) % ADDRESS_SPACE / DSIZE);
      AdjustedRange(size);
      r := FindFit(asize);
      if r != 0 {
        ListedInBlocks();
        PlaceFor(r, asize, size);
        return;
      }
      r := ExtendFor(asize, size);
    }

    /** What mm_malloc asks of extend_heap. */
    method MoreHeap(asize: int, ghost size: int) returns (r: int)
      requires Valid() && 0 < size <= MAX_REQUEST && asize == AdjustedSize(size) && mem.Roomy(Growth(size))
      modifies this`blocks, this`lists, this`listed, mem`words, mem`brk, mem.data
      ensures Valid()
      ensures if old(mem.brk) + Growth(size) > mem.start + MAX_HEAP then
                r == 0 && mem.brk == old(mem.brk) && mem.words == old(mem.words) && mem.data[..] == old(mem.data[..])
                && blocks == old(blocks) && lists == old(lists) && listed == old(listed)
              else
                r > 0 && r in listed && r in blocks && blocks[r].size >= asize && mem.brk == old(mem.brk) + Growth(size)
                && TopStart(old(blocks), old(mem.brk), r) && r + blocks[r].size == mem.brk
                && r == FreeFrom(old(blocks), old(mem.brk))
                && Shape(blocks, lists) == Grown(Shape(old(blocks), old(lists)), old(mem.brk), Growth(size))
      ensures LiveOf(blocks) == LiveOf(old(blocks)) && StillUsed(old(blocks), blocks)
      ensures LiveKept(old(mem.words), mem.words, old(blocks))
      ensures Compact(old(blocks)) ==> Compact(blocks)
    {
      GrowthWords(size);
      var extendsize := if asize > CHUNKSIZE then asize else CHUNKSIZE;
      assert WSIZE * (extendsize / WSIZE + extendsize / WSIZE % 2) == Growth(size);
      r := ExtendHeap(extendsize / WSIZE);
    }

    /** The end of mm_malloc, when no free block fits. */
    method ExtendFor(asize: int, ghost size: int) returns (r: int)
      requires Valid() && 0 < size <= MAX_REQUEST && asize == AdjustedSize(size) && mem.Roomy(Growth(size))
      requires NoFit(blocks, asize)
      modifies this`blocks, this`lists, this`listed, mem`words, mem`brk, mem.data
      ensures Valid()
      ensures r == 0 <==> old(mem.brk) + Growth(size) > mem.start + MAX_HEAP
      ensures r == 0 ==> mem.brk == old(mem.brk) && mem.words == old(mem.words) && mem.data[..] == old(mem.data[..])
                         && blocks == old(blocks) && lists == old(lists) && listed == old(listed)
      ensures r != 0 ==> Granted(LiveOf(old(blocks)), LiveOf(blocks), r, size)
      ensures r != 0 ==> mem.brk - old(mem.brk) == (if asize > 4096 then asize else 4096)
                         && TopStart(old(blocks), old(mem.brk), r)
                         && LiveOf(blocks)[r] == Placed(mem.brk - r, asize)
      ensures r != 0 ==> Served(Shape(old(blocks), old(lists)), Shape(blocks, lists), old(mem.brk), r, size)
      ensures LiveKept(old(mem.words), mem.words, old(blocks))
      ensures Compact(old(blocks)) ==> Compact(blocks)
    {
      ghost var w0, b0 := mem.words, blocks;
      r := MoreHeap(asize, size);
      if r == 0 {
        return 0;
      }
      ghost var w1, b1 := mem.words, blocks;
      PlaceFor(r, asize, size);
      LiveKeptTrans(w0, w1, mem.words, b0, b1);
    }

    /** mm_free. Null and the address of a block that is already free are ignored. */
    method MmFree(ptr: int)
      requires Valid()
      requires ptr != 0 ==> InHeap(ptr - 4) && (AllocOf(WordAt(mem.words, ptr - 4)) == 1 ==> ptr in LiveOf(blocks))
      modifies this`blocks, this`lists, this`listed, mem`words, mem.data
      ensures Valid()
      ensures LiveOf(blocks) == LiveOf(old(blocks)) - {ptr}
      ensures ptr in LiveOf(old(blocks)) ==> Shape(blocks, lists) == Freed(Shape(old(blocks), old(lists)), ptr)
      ensures ptr !in LiveOf(old(blocks)) ==>
                mem.words == old(mem.words) && mem.data[..] == old(mem.data[..])
                && blocks == old(blocks) && lists == old(lists) && listed == old(listed)
      ensures LiveKept(old(mem.words), mem.words, old(blocks) - {ptr})
      ensures Compact(old(blocks)) ==> Compact(blocks)
    {
      if ptr == 0 {
        NullNotLive();
        return;
      }
      var alloc := GetAlloc(ptr - WSIZE);
      if alloc == 0 {
        FreeTag(ptr);
        return;
      }
      ghost var w0, b0 := mem.words, blocks;
      var size := BlockSize(ptr);
      TagFree(ptr, size);
      ghost var w1, b1 := mem.words, blocks;
      TaggedRun(b0, ptr);
      var _ := InsertAndCoalesce(ptr);
      LiveKeptTrans(w0, w1, mem.words, b0 - {ptr}, b1);
    }

    lemma NullNotLive()
      requires Valid()
      ensures 0 !in blocks
    {
      assert 0 in blocks ==> BlockOk(blocks, First(heapListp), mem.brk, 0);
    }

    /** A block whose header has the allocated bit clear is not in use. */
    lemma FreeTag(ptr: int)
      requires Valid() && AllocOf(WordAt(mem.words, ptr - 4)) == 0
      ensures ptr !in LiveOf(blocks)
    {
      if ptr in blocks {
        BlockWords(ptr);
        UnpackPack(blocks[ptr].size, blocks[ptr].used);
      }
    }

    /** Once its tags say free, a block is freed as if it had been in use until then. */
    lemma TaggedRun(b: Blocks, p: int)
      requires Wired() && Tiled(b, First(heapListp), mem.brk) && p in b && blocks == b[p := Block(b[p].size, false)]
      ensures Freed(Shape(blocks, lists), p) == Freed(Shape(b, lists), p)
    {
      var r, e := FreeFrom(blocks, p), FreeTo(blocks, p + b[p].size);
      RunOf(p, r, e);
      FreedRun(b, First(heapListp), mem.brk, p, r, e);
      FreedAlike(b, blocks, lists, p, r, e);
    }

    /** The stores of mm_free: the tags of the block, now free. */
    method TagFree(ptr: int, size: int)
      requires Valid() && ptr in blocks && blocks[ptr] == Block(size, true)
      modifies this`blocks, mem`words, mem.data
      ensures Wired() && blocks == old(blocks)[ptr := Block(size, false)] && listed == FreeOf(blocks) - {ptr}
      ensures LiveOf(blocks) == LiveOf(old(blocks)) - {ptr} && StillUsed(old(blocks) - {ptr}, blocks)
      ensures LiveKept(old(mem.words), mem.words, old(blocks) - {ptr})
      ensures Compact(old(blocks)) ==> CompactBut(blocks, ptr)
    {
      ghost var w, b0 := mem.words, blocks;
      AloneRegion(ptr);
      BlockWords(ptr);
      PutTags(ptr, size, false);
      FuseHeap(w, mem.words, blocks, lists, heapListp, listed, mem.brk, ptr, ptr + size, false);
      assert Fuse(blocks, ptr, ptr + size, false) == blocks[ptr := Block(size, false)];
      blocks := blocks[ptr := Block(size, false)];
      RegionKeepsOthers(w, mem.words, b0, First(heapListp), mem.brk, ptr, ptr + size, ptr);
      if Compact(b0) {
        FreeCompact(b0, ptr);
      }
    }

    /** Case 1.2: the tail of a block that is too large becomes free. */
    method Shrink(ptr: int, asize: int, copySize: int, ghost size: int)
      requires Valid() && ptr in blocks && blocks[ptr] == Block(copySize, true)
      requires size > 0 && asize == AdjustedSize(size) <= copySize - MIN_BLOCK_SIZE
      modifies this`blocks, this`lists, this`listed, mem`words, mem.data
      ensures Valid() && Reallocated(old(mem.words), mem.words, old(blocks), blocks, ptr, ptr, size)
      ensures Shape(blocks, lists)
              == Carved(Shape(old(blocks), old(lists)), ptr, FreeTo(old(blocks), ptr + copySize), asize)
      ensures Compact(old(blocks)) ==> Compact(blocks)
    {
      ghost var h0 := Shape(blocks, lists);
      ghost var w0, b0 := mem.words, blocks;
      AdjustedRange(size);
      AloneRegion(ptr);
      CarveAndFree(w0, ptr, asize, copySize - asize, ptr + copySize, ptr, h0);
      KeptInPlace(w0, mem.words, b0, blocks, ptr, asize, size);
    }

    /** A block and the free one after it, once that is out of its list. */
    lemma RegionAhead(ptr: int, next: int)
      requires Valid() && ptr in blocks && next in blocks && next == ptr + blocks[ptr].size
      requires blocks[ptr].used && !blocks[next].used
      ensures var e := next + blocks[next].size;
              && RegionOf(blocks, mem.brk, ptr, e, ptr) && ListedBut(blocks, listed - {next}, ptr, e)
              && ptr < next < e && (blocks[ptr].size + blocks[next].size) % 8 == 0
    {
      JoinBounds(ptr, next);
    }

    /** A block in use and the free one before it, once that is out of its list. */
    lemma RegionBehind(prev: int, ptr: int)
      requires Valid() && prev in blocks && ptr in blocks && prev + blocks[prev].size == ptr
      requires !blocks[prev].used && blocks[ptr].used
      ensures var e := ptr + blocks[ptr].size;
              && RegionOf(blocks, mem.brk, prev, e, ptr) && ListedBut(blocks, listed - {prev}, prev, e)
              && prev < ptr < e && (blocks[ptr].size + blocks[prev].size) % 8 == 0
    {
      JoinBounds(prev, ptr);
    }

    /** A block in use and the free ones on either side, once they are out of their lists. */
    lemma RegionAround(prev: int, ptr: int, next: int)
      requires Valid() && prev in blocks && ptr in blocks && prev + blocks[prev].size == ptr
      requires next in blocks && next == ptr + blocks[ptr].size
      requires !blocks[prev].used && blocks[ptr].used && !blocks[next].used
      ensures var e := next + blocks[next].size;
              && RegionOf(blocks, mem.brk, prev, e, ptr) && ListedBut(blocks, listed - {prev, next}, prev, e)
              && prev < ptr < next < e && (Compact(blocks) ==> !FreeAt(blocks, e))
    {
      JoinBounds(prev, ptr);
      JoinBounds(ptr, next);
      assert Compact(blocks) ==> GapOk(blocks, next);
    }

    /** Case 1: a block that is large enough stays, and gives back its tail if that can be a block. */
    method Trim(ptr: int, asize: int, copySize: int, ghost size: int)
      requires Valid() && ptr in blocks && blocks[ptr] == Block(copySize, true)
      requires 0 < size <= MAX_REQUEST && asize == AdjustedSize(size) <= copySize
      modifies this`blocks, this`lists, this`listed, mem`words, mem.data
      ensures Valid() && Reallocated(old(mem.words), mem.words, old(blocks), blocks, ptr, ptr, size)
      ensures Resized(Shape(old(blocks), old(lists)), Shape(blocks, lists), ptr, size)
      ensures Compact(old(blocks)) ==> Compact(blocks)
    {
      AdjustedRange(size);
      BlockWords(ptr);
      SlackOf(copySize, asize);
      KeptSame(mem.words, blocks - {ptr});
      if copySize - asize < MIN_BLOCK_SIZE {
        return;
      }
      Shrink(ptr, asize, copySize, size);
    }

    /** Case 2.1.1: the block grows into the front of the free block after it. */
    method GrowNextSplit(ptr: int, next: int, asize: int, copySize: int, nextSize: int, ghost size: int)
      requires Valid() && ptr in blocks && blocks[ptr] == Block(copySize, true) && next == ptr + copySize
      requires next in listed && next in blocks && blocks[next].size == nextSize
      requires size > 0 && asize == AdjustedSize(size) && copySize < asize
      requires copySize + nextSize - asize >= MIN_BLOCK_SIZE
      modifies this`blocks, this`lists, this`listed, mem`words, mem.data
      ensures Valid() && Reallocated(old(mem.words), mem.words, old(blocks), blocks, ptr, ptr, size)
      ensures Shape(blocks, lists)
              == Carved(Shape(old(blocks), old(lists)), ptr, FreeTo(old(blocks), next + nextSize), asize)
      ensures Compact(old(blocks)) ==> Compact(blocks)
    {
      ghost var w0, h0, e := mem.words, Shape(blocks, lists), next + nextSize;
      DetachNext(ptr, next, e);
      StayAndCarve(w0, h0, ptr, copySize, asize, copySize + nextSize - asize, e, size);
    }

    /** Case 2.1.2: the block takes in all of the free block after it. */
    method GrowNextWhole(ptr: int, next: int, asize: int, copySize: int, nextSize: int, ghost size: int)
      requires Valid() && ptr in blocks && blocks[ptr] == Block(copySize, true) && next == ptr + copySize
      requires next in listed && next in blocks && blocks[next].size == nextSize
      requires size > 0 && asize == AdjustedSize(size)
      requires copySize < asize < copySize + nextSize < asize + MIN_BLOCK_SIZE
      modifies this`blocks, this`lists, this`listed, mem`words, mem.data
      ensures Valid() && Reallocated(old(mem.words), mem.words, old(blocks), blocks, ptr, ptr, size)
      ensures Shape(blocks, lists) == UsedUp(Shape(old(blocks), old(lists)), ptr, next + nextSize)
      ensures Compact(old(blocks)) ==> Compact(blocks)
    {
      ghost var w0, h0, e := mem.words, Shape(blocks, lists), next + nextSize;
      AdjustedRange(size);
      JoinBounds(ptr, next);
      SlackOf(copySize + nextSize, asize);
      DetachNext(ptr, next, e);
      StayAndUse(w0, h0, ptr, copySize, copySize + nextSize, e, size);
    }

    /** memmove of a whole payload into the region from `prev` to `e`. */
    method MovePayload(prev: int, ptr: int, copySize: int, ghost e: int, size: int)
      requires Wired() && ptr in blocks && blocks[ptr] == Block(copySize, true) && prev in blocks
      requires prev + blocks[prev].size == ptr
      requires size > 0 && copySize < AdjustedSize(size) && e >= ptr + copySize
      modifies mem`words, mem.data
      ensures WiredIn(old(mem.words)) && Copied(old(mem.words), mem.words, prev, ptr, copySize - 8)
      ensures SameOutside(old(mem.words), mem.words, prev - 4, e - 4)
    {
      BlockWords(ptr);
      BlockWords(prev);
      CopyLength(copySize, size);
      WholeWords(copySize - DSIZE);
      mem.Memmove(prev, ptr, if copySize - DSIZE > size then size else copySize - DSIZE);
    }

    lemma WholeWords(n: int)
      requires n % 8 == 0
      ensures n % 4 == 0
    {
      assert n == 4 * (2 * (n / 8));
    }

    /** The region from `p` up to `e`, in which only `x` is in use, is out of the lists; memory was `w0` and the shape
        of the heap `h` when its free blocks were still listed. */
    ghost predicate Detached(w0: map<int, Word>, h: Shape, p: int, e: int, x: int)
      reads this, mem, mem.data
    {
      && Wired() && RegionOf(blocks, mem.brk, p, e, x) && ListedBut(blocks, listed, p, e)
      && h.blocks == blocks && |h.lists| == N_SEGLIST && Cut(lists, p, e) == Cut(h.lists, p, e)
      && LiveKept(w0, mem.words, blocks)
    }

    /** delete_free_block for the block after `ptr`. */
    method DetachNext(ptr: int, next: int, ghost e: int)
      requires Valid() && ptr in blocks && blocks[ptr].used && next in listed && next in blocks
      requires next == ptr + blocks[ptr].size && e == next + blocks[next].size
      modifies this`lists, this`listed, mem`words, mem.data
      ensures Detached(old(mem.words), Shape(blocks, old(lists)), ptr, e, ptr)
    {
      ListedInBlocks();
      RegionAhead(ptr, next);
      CutTwice(lists, next, next + 1, ptr, e);
      DeleteFreeBlock(next);
    }

    /** delete_free_block for the block before `ptr`. */
    method DetachPrev(prev: int, ptr: int, ghost e: int)
      requires Valid() && ptr in blocks && blocks[ptr].used && prev in listed && prev in blocks
      requires prev + blocks[prev].size == ptr && e == ptr + blocks[ptr].size
      modifies this`lists, this`listed, mem`words, mem.data
      ensures Detached(old(mem.words), Shape(blocks, old(lists)), prev, e, ptr)
      ensures !blocks[prev].used
    {
      ListedInBlocks();
      RegionBehind(prev, ptr);
      CutTwice(lists, prev, prev + 1, prev, e);
      DeleteFreeBlock(prev);
    }

    /** delete_free_block for the blocks on either side of `ptr`. */
    method DetachBoth(prev: int, ptr: int, next: int, ghost e: int)
      requires Valid() && ptr in blocks && blocks[ptr].used && prev in listed && prev in blocks
      requires prev + blocks[prev].size == ptr && next in listed && next in blocks && next == ptr + blocks[ptr].size
      requires e == next + blocks[next].size
      modifies this`lists, this`listed, mem`words, mem.data
      ensures Detached(old(mem.words), Shape(blocks, old(lists)), prev, e, ptr)
      ensures !blocks[prev].used && next < e
      ensures Compact(blocks) ==> !FreeAt(blocks, e)
    {
      ListedInBlocks();
      RegionAround(prev, ptr, next);
      DeletePair(prev, next, prev, e);
    }

    /** What follows the deletions in Cases 2.2.1 and 2.3.1: the payload moves down, the region is carved, and what is
        left of it is listed. */
    method SlideAndCarve(ghost w0: map<int, Word>, ghost h: Shape, prev: int, ptr: int, copySize: int, asize: int,
                         rest: int, ghost e: int, size: int)
      requires Detached(w0, h, prev, e, ptr) && blocks[ptr] == Block(copySize, true)
      requires prev + blocks[prev].size == ptr && ptr + copySize <= e && !blocks[prev].used
      requires size > 0 && asize == AdjustedSize(size) > copySize
      requires rest >= MIN_BLOCK_SIZE && e == prev + asize + rest
      modifies this`blocks, this`lists, this`listed, mem`words, mem.data
      ensures Valid() && Shape(blocks, lists) == Carved(h, prev, e, asize)
      ensures Reallocated(w0, mem.words, h.blocks, blocks, ptr, prev, size)
      ensures Compact(h.blocks) && !FreeAt(h.blocks, e) ==> Compact(blocks)
      ensures Compact(h.blocks) && FreeAt(h.blocks, e) ==> !Compact(blocks)
    {
      ghost var w1, b0 := mem.words, blocks;
      AdjustedRange(size);
      MovePayload(prev, ptr, copySize, e, size);
      ghost var w2 := mem.words;
      var q := CarveAndInsert(w1, prev, asize, rest, e, ptr, h);
      MovedCopy(w1, w2, mem.words, ptr, prev, copySize - 8, asize - 8);
      MovedTo(w0, w1, mem.words, b0, blocks, ptr, prev, asize, size);
      if Compact(b0) {
        TailGap(blocks, First(heapListp), mem.brk, prev, q, e);
      }
    }

    /** What follows the deletion in Case 2.2.2. */
    method SlideAndUse(ghost w0: map<int, Word>, ghost h: Shape, prev: int, ptr: int, copySize: int, n: int,
                       ghost e: int, size: int)
      requires Detached(w0, h, prev, e, ptr) && blocks[ptr] == Block(copySize, true)
      requires prev + blocks[prev].size == ptr && ptr + copySize <= e && !blocks[prev].used
      requires size > 0 && copySize < AdjustedSize(size) && copySize <= n && 8 <= n - size <= 23 && e == prev + n
      modifies this`blocks, mem`words, mem.data
      ensures Valid() && Shape(blocks, lists) == UsedUp(h, prev, e)
      ensures Reallocated(w0, mem.words, h.blocks, blocks, ptr, prev, size)
      ensures Compact(h.blocks) ==> Compact(blocks)
    {
      ghost var w1, b0 := mem.words, blocks;
      MovePayload(prev, ptr, copySize, e, size);
      ghost var w2 := mem.words;
      UseRegion(w1, prev, n, e, ptr, h);
      MovedCopy(w1, w2, mem.words, ptr, prev, copySize - 8, n - 8);
      MovedTo(w0, w1, mem.words, b0, blocks, ptr, prev, n, size);
    }

    /** What follows the deletion in Case 2.1.1. */
    method StayAndCarve(ghost w0: map<int, Word>, ghost h: Shape, ptr: int, copySize: int, asize: int, rest: int,
                        ghost e: int, ghost size: int)
      requires Detached(w0, h, ptr, e, ptr) && blocks[ptr] == Block(copySize, true)
      requires size > 0 && asize == AdjustedSize(size) > copySize
      requires rest >= MIN_BLOCK_SIZE && e == ptr + asize + rest
      modifies this`blocks, this`lists, this`listed, mem`words, mem.data
      ensures Valid() && Shape(blocks, lists) == Carved(h, ptr, FreeTo(h.blocks, e), asize)
      ensures Reallocated(w0, mem.words, h.blocks, blocks, ptr, ptr, size)
      ensures Compact(h.blocks) ==> Compact(blocks)
    {
      ghost var w1, b0 := mem.words, blocks;
      AdjustedRange(size);
      FreeToBounds(e);
      CutTwice(lists, ptr, e, ptr, FreeTo(blocks, e));
      CutTwice(h.lists, ptr, e, ptr, FreeTo(blocks, e));
      CarveAndFree(w1, ptr, asize, rest, e, ptr, h);
      MovedNot(w1, mem.words, ptr, copySize - 8, asize - 8);
      MovedTo(w0, w1, mem.words, b0, blocks, ptr, ptr, asize, size);
    }

    /** What follows the deletion in Case 2.1.2. */
    method StayAndUse(ghost w0: map<int, Word>, ghost h: Shape, ptr: int, copySize: int, n: int, ghost e: int,
                      ghost size: int)
      requires Detached(w0, h, ptr, e, ptr) && blocks[ptr] == Block(copySize, true)
      requires copySize <= n && 8 <= n - size <= 23 && e == ptr + n
      modifies this`blocks, mem`words, mem.data
      ensures Valid() && Shape(blocks, lists) == UsedUp(h, ptr, e)
      ensures Reallocated(w0, mem.words, h.blocks, blocks, ptr, ptr, size)
      ensures Compact(h.blocks) ==> Compact(blocks)
    {
      ghost var w1, b0 := mem.words, blocks;
      UseRegion(w1, ptr, n, e, ptr, h);
      MovedNot(w1, mem.words, ptr, copySize - 8, n - 8);
      MovedTo(w0, w1, mem.words, b0, blocks, ptr, ptr, n, size);
    }

    /** Case 2.2.1: the block moves down into the free block before it, and its tail becomes free.
        The tail is listed but not joined to a free block after it. */
    method GrowPrevSplit(prev: int, ptr: int, asize: int, copySize: int, prevSize: int, size: int)
      requires Valid() && ptr in blocks && blocks[ptr] == Block(copySize, true) && prev + prevSize == ptr
      requires prev in listed && prev in blocks && blocks[prev].size == prevSize
      requires size > 0 && asize == AdjustedSize(size) && copySize < asize
      requires copySize + prevSize - asize >= MIN_BLOCK_SIZE
      modifies this`blocks, this`lists, this`listed, mem`words, mem.data
      ensures Valid() && Reallocated(old(mem.words), mem.words, old(blocks), blocks, ptr, prev, size)
      ensures Shape(blocks, lists) == Carved(Shape(old(blocks), old(lists)), prev, ptr + copySize, asize)
      ensures Compact(old(blocks)) ==> (Compact(blocks) <==> !FreeAt(old(blocks), ptr + copySize))
    {
      ghost var w0, h0, e := mem.words, Shape(blocks, lists), ptr + copySize;
      DetachPrev(prev, ptr, e);
      SlideAndCarve(w0, h0, prev, ptr, copySize, asize, copySize + prevSize - asize, e, size);
    }

    /** Case 2.2.2: the block moves down and takes in all of the free block before it. */
    method GrowPrevWhole(prev: int, ptr: int, asize: int, copySize: int, prevSize: int, size: int)
      requires Valid() && ptr in blocks && blocks[ptr] == Block(copySize, true) && prev + prevSize == ptr
      requires prev in listed && prev in blocks && blocks[prev].size == prevSize
      requires size > 0 && asize == AdjustedSize(size)
      requires copySize < asize < copySize + prevSize < asize + MIN_BLOCK_SIZE
      modifies this`blocks, this`lists, this`listed, mem`words, mem.data
      ensures Valid() && Reallocated(old(mem.words), mem.words, old(blocks), blocks, ptr, prev, size)
      ensures Shape(blocks, lists) == UsedUp(Shape(old(blocks), old(lists)), prev, ptr + copySize)
      ensures Compact(old(blocks)) ==> Compact(blocks)
    {
      ghost var w0, h0, e := mem.words, Shape(blocks, lists), ptr + copySize;
      AdjustedRange(size);
      JoinBounds(prev, ptr);
      SlackOf(copySize + prevSize, asize);
      DetachPrev(prev, ptr, e);
      SlideAndUse(w0, h0, prev, ptr, copySize, copySize + prevSize, e, size);
    }

    /** Case 2.3.1: the block and both its free neighbours become one region; the block moves to its front. */
    method GrowBoth(prev: int, ptr: int, next: int, asize: int, copySize: int, prevSize: int, nextSize: int, size: int)
      requires Valid() && ptr in blocks && blocks[ptr] == Block(copySize, true)
      requires prev + prevSize == ptr && prev in listed && prev in blocks && blocks[prev].size == prevSize
      requires next == ptr + copySize && next in listed && next in blocks && blocks[next].size == nextSize
      requires size > 0 && asize == AdjustedSize(size) && copySize < asize
      requires copySize + prevSize + nextSize - asize >= MIN_BLOCK_SIZE
      modifies this`blocks, this`lists, this`listed, mem`words, mem.data
      ensures Valid() && Reallocated(old(mem.words), mem.words, old(blocks), blocks, ptr, prev, size)
      ensures Shape(blocks, lists)
              == Carved(Shape(old(blocks), old(lists)), prev, next + old(blocks)[next].size, asize)
      ensures Compact(old(blocks)) ==> Compact(blocks)
    {
      ghost var w0, h0, e := mem.words, Shape(blocks, lists), next + blocks[next].size;
      DetachBoth(prev, ptr, next, e);
      SlideAndCarve(w0, h0, prev, ptr, copySize, asize, copySize + prevSize + nextSize - asize, e, size);
    }

    /** Writes inside a payload in use leave the heap wired. */
    lemma PayloadWritten(w: map<int, Word>, p: int, x: int, y: int)
      requires WiredIn(w) && p in blocks && blocks[p].used
      requires p - 3 <= x && y <= p + blocks[p].size - 8 && SameOutside(w, mem.words, x, y)
      ensures Wired() && LiveKept(w, mem.words, blocks - {p})
    {
      PayloadHeapOk(w, mem.words, blocks, lists, heapListp, listed, mem.brk, p, x, y);
    }

    /** Case 2.4: a new block, a copy, and the old block freed. */
    method MoveAway(ptr: int, copySize: int, size: int) returns (r: int)
      requires NoFit(blocks, AdjustedSize(size)) ==> mem.Roomy(Growth(size))
      requires Valid() && ptr in blocks && blocks[ptr] == Block(copySize, true)
      requires 0 < size <= MAX_REQUEST && copySize < AdjustedSize(size)
      modifies this`blocks, this`lists, this`listed, mem`words, mem`brk, mem.data
      ensures Valid()
      ensures r == 0 ==> blocks == old(blocks) && lists == old(lists) && listed == old(listed)
                         && mem.brk == old(mem.brk) && mem.words == old(mem.words) && mem.data[..] == old(mem.data[..])
      ensures r == 0 <==> NoFit(old(blocks), AdjustedSize(size)) && old(mem.brk) + Growth(size) > mem.start + MAX_HEAP
      ensures r != 0 ==> r != ptr && Reallocated(old(mem.words), mem.words, old(blocks), blocks, ptr, r, size)
      ensures r != 0 ==> ServedAt(old(blocks), old(mem.brk), LiveOf(blocks), mem.brk, r, size)
      ensures r != 0 ==> MovedOff(Shape(old(blocks), old(lists)), Shape(blocks, lists), old(mem.brk), ptr, r, size)
      ensures Compact(old(blocks)) ==> Compact(blocks)
    {
      ghost var w0, b0, h0 := mem.words, blocks, Shape(blocks, lists);
      r := MmMalloc(size);
      if r == 0 {
        return;
      }
      ghost var w1, b1, h1 := mem.words, blocks, Shape(blocks, lists);
      GrantedTo(b0, b1, ptr, r, size);
      BlockWords(ptr);
      CopyLength(copySize, size);
      CopyAway(r, ptr, copySize, size);
      ghost var w2 := mem.words;
      MmFree(ptr);
      MovedAway(w0, w1, w2, mem.words, b0, b1, blocks, ptr, r, size);
    }

    /** memcpy of a whole payload into a new block. */
    method CopyAway(newptr: int, ptr: int, copySize: int, size: int)
      requires Valid() && ptr in blocks && blocks[ptr] == Block(copySize, true) && newptr in blocks
      requires blocks[newptr].used
      requires newptr != ptr && copySize <= blocks[newptr].size && copySize - 8 <= size
      modifies mem`words, mem.data
      ensures Valid() && LiveKept(old(mem.words), mem.words, blocks - {newptr})
      ensures Copied(old(mem.words), mem.words, newptr, ptr, copySize - 8)
    {
      ghost var w := mem.words;
      BlockWords(ptr);
      BlockWords(newptr);
      assert Apart(blocks, ptr, newptr) && Apart(blocks, newptr, ptr);
      WholeWords(copySize - DSIZE);
      mem.Memmove(newptr, ptr, if copySize - DSIZE > size then size else copySize - DSIZE);
      PayloadWritten(w, newptr, newptr, newptr + copySize - 8);
    }

    /** PREV_BLKP, and the allocated bit mm_realloc reads in its header. */
    method PrevHeader(bp: int) returns (p: int, alloc: int)
      requires Wired() && bp in blocks
      ensures bp == First(heapListp) ==> alloc == 1
      ensures bp != First(heapListp) ==>
                p in blocks && p + blocks[p].size == bp && alloc == if blocks[p].used then 1 else 0
    {
      BlockWords(bp);
      if bp != First(heapListp) {
        ghost var q := PrevBlock(blocks, First(heapListp), mem.brk, bp);
        BlockWords(q);
        UnpackPack(blocks[q].size, blocks[q].used);
      }
      var psize := GetSize(bp - DSIZE);
      p := bp - psize;
      alloc := GetAlloc(p - WSIZE);
    }

    /** The neighbours of a block in use, as mm_realloc finds them. */
    method Surroundings(ptr: int) returns (prev: int, prevAlloc: int, next: int, nextAlloc: int)
      requires Valid() && ptr in blocks && blocks[ptr].used
      ensures 0 <= prevAlloc <= 1 && 0 <= nextAlloc <= 1
      ensures next == ptr + blocks[ptr].size
      ensures if nextAlloc == 0 then next in listed && next in blocks && NextFree(blocks, ptr) == blocks[next].size > 0
              else NextFree(blocks, ptr) == 0
      ensures if prevAlloc == 0 then prev in listed && prev in blocks && prev + blocks[prev].size == ptr
                                     && PrevFree(blocks, ptr) == blocks[prev].size > 0 && prev > 0
              else PrevFree(blocks, ptr) == 0
    {
      prev, prevAlloc := PrevHeader(ptr);
      next, nextAlloc := NextBlkp(ptr);
      PrevFreeIs(blocks, First(heapListp), mem.brk, ptr, prev, prevAlloc);
      if nextAlloc == 0 {
        BlockWords(next);
      }
      if prevAlloc == 0 {
        BlockWords(prev);
      }
    }

    /** Case 2.1: into the free block after. */
    method GrowNext(ptr: int, next: int, asize: int, copySize: int, ghost size: int) returns (done: bool)
      requires Valid() && ptr in blocks && blocks[ptr] == Block(copySize, true) && next == ptr + copySize
      requires next in listed && next in blocks && asize <= copySize + blocks[next].size
      requires size > 0 && asize == AdjustedSize(size) && copySize < asize
      modifies this`blocks, this`lists, this`listed, mem`words, mem.data
      ensures Valid() && done == (asize < copySize + old(blocks)[next].size)
      ensures done ==> Reallocated(old(mem.words), mem.words, old(blocks), blocks, ptr, ptr, size)
      ensures var e := next + old(blocks)[next].size;
              done ==> Shape(blocks, lists)
                       == Fitted(Shape(old(blocks), old(lists)), ptr, e, FreeTo(old(blocks), e), asize)
      ensures !done ==> mem.words == old(mem.words) && mem.data[..] == old(mem.data[..])
                        && blocks == old(blocks) && lists == old(lists) && listed == old(listed)
      ensures Compact(old(blocks)) ==> Compact(blocks)
    {
      var nextFreesize := BlockSize(next);
      BlockWords(next);
      BlockWords(ptr);
      LeftOver(copySize, nextFreesize, size);
      var left := Sub32(copySize + nextFreesize, asize);
      if left >= MIN_BLOCK_SIZE {
        GrowNextSplit(ptr, next, asize, copySize, nextFreesize, size);
        return true;
      } else if left > 0 {
        GrowNextWhole(ptr, next, asize, copySize, nextFreesize, size);
        return true;
      }
      return false;
    }

    /** Case 2.2: into the free block before. */
    method GrowPrev(prev: int, ptr: int, asize: int, copySize: int, size: int) returns (done: bool)
      requires Valid() && ptr in blocks && blocks[ptr] == Block(copySize, true)
      requires prev in listed && prev in blocks && prev + blocks[prev].size == ptr
      requires asize <= copySize + blocks[prev].size
      requires size > 0 && asize == AdjustedSize(size) && copySize < asize
      modifies this`blocks, this`lists, this`listed, mem`words, mem.data
      ensures Valid() && done == (asize < copySize + old(blocks)[prev].size)
      ensures done ==> Reallocated(old(mem.words), mem.words, old(blocks), blocks, ptr, prev, size)
      ensures var e := ptr + copySize;
              done ==> Shape(blocks, lists) == Fitted(Shape(old(blocks), old(lists)), prev, e, e, asize)
      ensures !done ==> mem.words == old(mem.words) && mem.data[..] == old(mem.data[..])
                        && blocks == old(blocks) && lists == old(lists) && listed == old(listed)
      ensures Compact(old(blocks)) ==>
                (Compact(blocks) <==> copySize + old(blocks)[prev].size <= asize + 8 || NextFree(old(blocks), ptr) == 0)
    {
      var prevFreesize := BlockSize(prev);
      BlockWords(prev);
      BlockWords(ptr);
      LeftOver(copySize, prevFreesize, size);
      NextFreeIs(ptr);
      var left := Sub32(copySize + prevFreesize, asize);
      if left >= MIN_BLOCK_SIZE {
        GrowPrevSplit(prev, ptr, asize, copySize, prevFreesize, size);
        return true;
      } else if left > 0 {
        GrowPrevWhole(prev, ptr, asize, copySize, prevFreesize, size);
        return true;
      }
      return false;
    }

    /** Case 2 of mm_realloc: the block is too small. */
    method Grow(ptr: int, asize: int, copySize: int, size: int) returns (r: int)
      requires NoFit(blocks, AdjustedSize(size)) ==> mem.Roomy(Growth(size))
      requires Valid() && ptr in blocks && blocks[ptr] == Block(copySize, true)
      requires 0 < size <= MAX_REQUEST && asize == AdjustedSize(size) && copySize < asize
      requires ReallocSafe(blocks, ptr, size)
      modifies this`blocks, this`lists, this`listed, mem`words, mem`brk, mem.data
      ensures Valid()
      ensures r == 0 ==> mem.brk == old(mem.brk) && mem.words == old(mem.words) && mem.data[..] == old(mem.data[..])
                         && blocks == old(blocks) && lists == old(lists) && listed == old(listed)
      ensures r == 0 <==> GrowTarget(old(blocks), ptr, size) == 0
                          && NoFit(old(blocks), asize) && old(mem.brk) + Growth(size) > mem.start + MAX_HEAP
      ensures r != 0 ==> Reallocated(old(mem.words), mem.words, old(blocks), blocks, ptr, r, size)
      ensures GrowTarget(old(blocks), ptr, size) != 0 ==>
                r == GrowTarget(old(blocks), ptr, size) && mem.brk == old(mem.brk)
      ensures GrowTarget(old(blocks), ptr, size) != 0 ==>
                Resized(Shape(old(blocks), old(lists)), Shape(blocks, lists), ptr, size)
      ensures GrowTarget(old(blocks), ptr, size) == 0 ==> r != ptr
      ensures GrowTarget(old(blocks), ptr, size) == 0 && r != 0 ==>
                && ServedAt(old(blocks), old(mem.brk), LiveOf(blocks), mem.brk, r, size)
                && MovedOff(Shape(old(blocks), old(lists)), Shape(blocks, lists), old(mem.brk), ptr, r, size)
      ensures Compact(old(blocks)) ==> (Compact(blocks) <==> !LeavesGap(old(blocks), ptr, size))
    {
      BlockWords(ptr);
      var target := GrowInPlace(ptr, asize, copySize, size);
      if target != 0 {
        return target;
      }
      r := MoveAway(ptr, copySize, size);
    }

    /** Cases 2.1 to 2.3: the block takes in free neighbours. A result of 0 means that it needs a new allocation. */
    method GrowInPlace(ptr: int, asize: int, copySize: int, size: int) returns (r: int)
      requires Valid() && ptr in blocks && blocks[ptr] == Block(copySize, true)
      requires 0 < size <= MAX_REQUEST && asize == AdjustedSize(size) && copySize < asize
      requires ReallocSafe(blocks, ptr, size)
      modifies this`blocks, this`lists, this`listed, mem`words, mem.data
      ensures Valid() && r == GrowTarget(old(blocks), ptr, size)
      ensures r == 0 ==> mem.words == old(mem.words) && mem.data[..] == old(mem.data[..])
                         && blocks == old(blocks) && lists == old(lists) && listed == old(listed)
      ensures r != 0 ==> Reallocated(old(mem.words), mem.words, old(blocks), blocks, ptr, r, size)
                         && Resized(Shape(old(blocks), old(lists)), Shape(blocks, lists), ptr, size)
      ensures Compact(old(blocks)) ==> (Compact(blocks) <==> !LeavesGap(old(blocks), ptr, size))
    {
      BlockWords(ptr);
      var prev, prevAlloc, next, nextAlloc := Surroundings(ptr);
      var done := TryNext(ptr, next, nextAlloc, asize, copySize, size);
      if done {
        return ptr;
      }
      done := TryPrev(prev, prevAlloc, ptr, asize, copySize, size);
      if done {
        return prev;
      }
      if prevAlloc == 0 && nextAlloc == 0 {
        TryAround(prev, ptr, next, asize, copySize, size);
        return prev;
      }
      return 0;
    }

    /** Case 2.1, if the block after is free. */
    method TryNext(ptr: int, next: int, nextAlloc: int, asize: int, copySize: int, ghost size: int) returns (done: bool)
      requires Valid() && ptr in blocks && blocks[ptr] == Block(copySize, true) && next == ptr + copySize
      requires 0 < size <= MAX_REQUEST && asize == AdjustedSize(size) && copySize < asize
      requires ReallocSafe(blocks, ptr, size)
      requires if nextAlloc == 0 then next in listed && next in blocks && NextFree(blocks, ptr) == blocks[next].size > 0
               else NextFree(blocks, ptr) == 0
      modifies this`blocks, this`lists, this`listed, mem`words, mem.data
      ensures Valid()
      ensures done <==> NextFree(old(blocks), ptr) > 0 && copySize + NextFree(old(blocks), ptr) > asize
      ensures done ==> Reallocated(old(mem.words), mem.words, old(blocks), blocks, ptr, ptr, size)
                       && Resized(Shape(old(blocks), old(lists)), Shape(blocks, lists), ptr, size)
      ensures !done ==> mem.words == old(mem.words) && mem.data[..] == old(mem.data[..])
                        && blocks == old(blocks) && lists == old(lists) && listed == old(listed)
      ensures Compact(old(blocks)) ==> Compact(blocks)
    {
      ghost var h := Shape(blocks, lists);
      done := false;
      if nextAlloc == 0 {
        done := GrowNext(ptr, next, asize, copySize, size);
        if done {
          ResizedNext(h, Shape(blocks, lists), ptr, size);
        }
      }
    }

    /** Case 2.2, if the block before is free. */
    method TryPrev(prev: int, prevAlloc: int, ptr: int, asize: int, copySize: int, size: int) returns (done: bool)
      requires Valid() && ptr in blocks && blocks[ptr] == Block(copySize, true)
      requires 0 < size <= MAX_REQUEST && asize == AdjustedSize(size) && copySize < asize
      requires ReallocSafe(blocks, ptr, size)
      requires NextFree(blocks, ptr) == 0 || 0 < NextFree(blocks, ptr) <= asize - copySize
      requires if prevAlloc == 0 then prev in listed && prev in blocks && prev + blocks[prev].size == ptr
                                      && PrevFree(blocks, ptr) == blocks[prev].size > 0
               else PrevFree(blocks, ptr) == 0
      modifies this`blocks, this`lists, this`listed, mem`words, mem.data
      ensures Valid()
      ensures done <==> PrevFree(old(blocks), ptr) > 0 && copySize + PrevFree(old(blocks), ptr) > asize
      ensures done ==> Reallocated(old(mem.words), mem.words, old(blocks), blocks, ptr, prev, size)
                       && Resized(Shape(old(blocks), old(lists)), Shape(blocks, lists), ptr, size)
      ensures !done ==> mem.words == old(mem.words) && mem.data[..] == old(mem.data[..])
                        && blocks == old(blocks) && lists == old(lists) && listed == old(listed)
      ensures Compact(old(blocks)) ==> (Compact(blocks) <==> !LeavesGap(old(blocks), ptr, size))
    {
      ghost var h := Shape(blocks, lists);
      done := false;
      GapOnly(blocks, ptr, size);
      if prevAlloc == 0 {
        done := GrowPrev(prev, ptr, asize, copySize, size);
        if done {
          ResizedPrev(h, Shape(blocks, lists), ptr, size);
        }
      }
    }

    /** Case 2.3, between free blocks that alone make exactly the size wanted. */
    method TryAround(prev: int, ptr: int, next: int, asize: int, copySize: int, size: int)
      requires Valid() && ptr in blocks && blocks[ptr] == Block(copySize, true)
      requires prev in listed && prev in blocks && prev + blocks[prev].size == ptr
      requires next in listed && next in blocks && next == ptr + copySize
      requires copySize + blocks[prev].size == asize == copySize + blocks[next].size
      requires size > 0 && asize == AdjustedSize(size) && copySize < asize
      requires NextFree(blocks, ptr) == blocks[next].size && PrevFree(blocks, ptr) == blocks[prev].size
      modifies this`blocks, this`lists, this`listed, mem`words, mem.data
      ensures Valid() && Reallocated(old(mem.words), mem.words, old(blocks), blocks, ptr, prev, size)
      ensures Resized(Shape(old(blocks), old(lists)), Shape(blocks, lists), ptr, size)
      ensures Compact(old(blocks)) ==> Compact(blocks)
    {
      ghost var h := Shape(blocks, lists);
      GrowAround(prev, ptr, next, asize, copySize, size);
      ResizedBoth(h, Shape(blocks, lists), ptr, size);
    }

    /** Case 2.3: into both neighbours, each of which alone makes exactly the size wanted. */
    method GrowAround(prev: int, ptr: int, next: int, asize: int, copySize: int, size: int)
      requires Valid() && ptr in blocks && blocks[ptr] == Block(copySize, true)
      requires prev in listed && prev in blocks && prev + blocks[prev].size == ptr
      requires copySize + blocks[prev].size == asize
      requires next in listed && next in blocks && next == ptr + copySize && copySize + blocks[next].size == asize
      requires size > 0 && asize == AdjustedSize(size) && copySize < asize
      modifies this`blocks, this`lists, this`listed, mem`words, mem.data
      ensures Valid() && Reallocated(old(mem.words), mem.words, old(blocks), blocks, ptr, prev, size)
      ensures Shape(blocks, lists)
              == Carved(Shape(old(blocks), old(lists)), prev, next + old(blocks)[next].size, asize)
      ensures Compact(old(blocks)) ==> Compact(blocks)
    {
      var prevFreesize := BlockSize(prev);
      var nextFreesize := BlockSize(next);
      BlockWords(prev);
      BlockWords(next);
      var left := Sub32(copySize + prevFreesize + nextFreesize, asize);
      if left >= MIN_BLOCK_SIZE {
        GrowBoth(prev, ptr, next, asize, copySize, prevFreesize, nextFreesize, size);
      } else {
        // Case 2.3.2 and the way on to Case 2.4: what is left here is the whole of the next block
        assert false;
      }
    }

    /** Whether mm_realloc may be called: no comparison it makes wraps. Not part of the code; callers that must
        stay inside the model ask. */
    method InGuards(ptr: int, size: int) returns (safe: bool)
      requires Valid() && 0 < size <= MAX_REQUEST && ptr in LiveOf(blocks)
      ensures safe == ReallocSafe(blocks, ptr, size)
    {
      var copySize := BlockSize(ptr);
      var asize := AdjustedSize(size);
      if copySize >= asize {
        return true;
      }
      var prev, prevAlloc, next, nextAlloc := Surroundings(ptr);
      var nextFreesize, prevFreesize := 0, 0;
      if nextAlloc == 0 {
        nextFreesize := BlockSize(next);
      }
      if prevAlloc == 0 {
        prevFreesize := BlockSize(prev);
      }
      var intoNext := nextFreesize > 0 && copySize + nextFreesize > asize;
      safe := (nextFreesize > 0 ==> copySize + nextFreesize >= asize)
              && (prevFreesize > 0 && !intoNext ==> copySize + prevFreesize >= asize);
    }

    /** mm_realloc */
    method MmRealloc(ptr: int, size: int) returns (r: int)
      requires Valid() && 0 <= size <= MAX_REQUEST
      requires ptr == 0 || ptr in LiveOf(blocks)
      requires ptr != 0 && size > 0 ==> ReallocSafe(blocks, ptr, size)
      requires size > 0 && NoFit(blocks, AdjustedSize(size)) ==> mem.Roomy(Growth(size))
      modifies this`blocks, this`lists, this`listed, mem`words, mem`brk, mem.data
      ensures Valid()
      ensures size == 0 ==> r == 0 && LiveOf(blocks) == LiveOf(old(blocks)) - {ptr} && mem.brk == old(mem.brk)
      ensures size == 0 && ptr != 0 ==> Shape(blocks, lists) == Freed(Shape(old(blocks), old(lists)), ptr)
      ensures size > 0 && r == 0 ==>
                mem.brk == old(mem.brk) && mem.words == old(mem.words) && mem.data[..] == old(mem.data[..])
                && blocks == old(blocks) && lists == old(lists) && listed == old(listed)
      ensures size > 0 && r != 0 && ptr == 0 ==>
                && Granted(LiveOf(old(blocks)), LiveOf(blocks), r, size)
                && Served(Shape(old(blocks), old(lists)), Shape(blocks, lists), old(mem.brk), r, size)
      ensures size > 0 && r != 0 && ptr != 0 ==>
                Reallocated(old(mem.words), mem.words, old(blocks), blocks, ptr, r, size)
      ensures size > 0 ==>
                (r == 0 <==> (ptr == 0 || Moves(old(blocks), ptr, size))
                             && NoFit(old(blocks), AdjustedSize(size))
                             && old(mem.brk) + Growth(size) > mem.start + MAX_HEAP)
      ensures size > 0 && r != 0 && (ptr == 0 || Moves(old(blocks), ptr, size)) ==>
                ServedAt(old(blocks), old(mem.brk), LiveOf(blocks), mem.brk, r, size)
      ensures size > 0 && r != 0 && ptr != 0 && Moves(old(blocks), ptr, size) ==>
                && r != ptr
                && MovedOff(Shape(old(blocks), old(lists)), Shape(blocks, lists), old(mem.brk), ptr, r, size)
      ensures size > 0 && ptr != 0 && !Moves(old(blocks), ptr, size) ==>
                && r == (if AdjustedSize(size) <= old(blocks)[ptr].size then ptr
                         else GrowTarget(old(blocks), ptr, size))
                && mem.brk == old(mem.brk)
                && Resized(Shape(old(blocks), old(lists)), Shape(blocks, lists), ptr, size)
      ensures mem.brk == old(mem.brk) || mem.brk == old(mem.brk) + Growth(size)
      ensures LiveKept(old(mem.words), mem.words, old(blocks) - {ptr})
      ensures Compact(old(blocks)) ==>
                (Compact(blocks) <==> !(ptr != 0 && size > 0 && LeavesGap(old(blocks), ptr, size)))
    {
      if size == 0 {
        if ptr != 0 {
          BlockWords(ptr);
        }
        MmFree(ptr);
        return 0;
      }
      if ptr == 0 {
        ghost var w0, b0 := mem.words, blocks;
        r := MmMalloc(size);
        DropOne(w0, mem.words, b0, 0);
        return;
      }
      r := Resize(ptr, size);
    }

    /** mm_realloc of a block for a request that is not empty. */
    method Resize(ptr: int, size: int) returns (r: int)
      requires Valid() && 0 < size <= MAX_REQUEST && ptr in LiveOf(blocks) && ReallocSafe(blocks, ptr, size)
      requires NoFit(blocks, AdjustedSize(size)) ==> mem.Roomy(Growth(size))
      modifies this`blocks, this`lists, this`listed, mem`words, mem`brk, mem.data
      ensures Valid()
      ensures r == 0 ==>
                mem.brk == old(mem.brk) && mem.words == old(mem.words) && mem.data[..] == old(mem.data[..])
                && blocks == old(blocks) && lists == old(lists) && listed == old(listed)
      ensures r != 0 ==> Reallocated(old(mem.words), mem.words, old(blocks), blocks, ptr, r, size)
      ensures r == 0 <==> Moves(old(blocks), ptr, size) && NoFit(old(blocks), AdjustedSize(size))
                          && old(mem.brk) + Growth(size) > mem.start + MAX_HEAP
      ensures r != 0 && Moves(old(blocks), ptr, size) ==>
                && r != ptr && ServedAt(old(blocks), old(mem.brk), LiveOf(blocks), mem.brk, r, size)
                && MovedOff(Shape(old(blocks), old(lists)), Shape(blocks, lists), old(mem.brk), ptr, r, size)
      ensures !Moves(old(blocks), ptr, size) ==>
                && r == (if AdjustedSize(size) <= old(blocks)[ptr].size then ptr
                         else GrowTarget(old(blocks), ptr, size))
                && mem.brk == old(mem.brk)
                && Resized(Shape(old(blocks), old(lists)), Shape(blocks, lists), ptr, size)
      ensures LiveKept(old(mem.words), mem.words, old(blocks) - {ptr})
      ensures Compact(old(blocks)) ==> (Compact(blocks) <==> !LeavesGap(old(blocks), ptr, size))
    {
      BlockWords(ptr);
      var copySize := BlockSize(ptr);
      var asize := if size <= DSIZE then 2 * DSIZE else DSIZE * ((size + DSIZE + (DSIZE - 1)) % ADDRESS_SPACE / DSIZE);
      AdjustedRange(size);
      if copySize >= asize {
        Trim(ptr, asize, copySize, size);
        return ptr;
      }
      r := Grow(ptr, asize, copySize, size);
    }
  }
}
