/** The heap as a tiling by blocks, and the boundary tags that record it in memory.
    A block is named by the address of its payload, as in mm.c; its header is the word
    before the payload and its footer is the last word before the next header. */
module BlockMap {
  import opened MemLib
  import opened Tags

  const MIN_BLOCK_SIZE: int := 16

  datatype Block = Block(size: int, used: bool)

  type Blocks = map<int, Block>

  /** The blocks in use, with their sizes. */
  ghost function LiveOf(b: Blocks): map<int, int> {
    map p | p in b && b[p].used :: b[p].size
  }

  ghost function FreeOf(b: Blocks): set<int> {
    set p | p in b && !b[p].used
  }

  // ---------- tilings ----------

  ghost predicate BlockOk(b: Blocks, first: int, brk: int, p: int) {
    p in b && first <= p && p % 8 == 0 && b[p].size % 8 == 0 && b[p].size >= MIN_BLOCK_SIZE && p + b[p].size <= brk
  }

  /** A block ends where the next one starts or at the break. */
  ghost predicate NextOk(b: Blocks, brk: int, p: int) {
    p in b && (p + b[p].size == brk || p + b[p].size in b)
  }

  ghost predicate Apart(b: Blocks, p: int, q: int) {
    p in b && q in b && (p < q ==> p + b[p].size <= q)
  }

  /** The blocks fill the addresses from `first` up to the break without gap or overlap. */
  ghost predicate Tiled(b: Blocks, first: int, brk: int) {
    && first % 8 == 0 && first <= brk
    && (first == brk || first in b)
    && (forall p {:trigger BlockOk(b, first, brk, p)} | p in b :: BlockOk(b, first, brk, p))
    && (forall p {:trigger NextOk(b, brk, p)} | p in b :: NextOk(b, brk, p))
    && (forall p, q {:trigger Apart(b, p, q)} | p in b && q in b :: Apart(b, p, q))
  }

  /** The block that ends where `p` starts. */
  lemma PrevBlock(b: Blocks, first: int, brk: int, p: int) returns (q: int)
    requires Tiled(b, first, brk) && (p in b || p == brk) && p != first
    ensures q in b && q + b[q].size == p
  {
    assert p in b ==> BlockOk(b, first, brk, p);
    q := first;
    while q + b[q].size != p
      invariant q in b && q < p
      decreases p - q
    {
      assert NextOk(b, brk, q) && BlockOk(b, first, brk, q);
      assert p in b ==> Apart(b, q, p);
      q := q + b[q].size;
    }
  }

  /** The tiling with every block that starts from `p` up to `e` replaced by one block. */
  ghost function Fuse(b: Blocks, p: int, e: int, used: bool): Blocks {
    map q | q in b && !(p < q < e) :: if q == p then Block(e - p, used) else b[q]
  }

  /** The tiling with the block at `p` split `n` bytes in: the front used, the rest free. */
  ghost function Split(f: Blocks, p: int, n: int): Blocks
    requires p in f
  {
    f[p := Block(n, true)][p + n := Block(f[p].size - n, false)]
  }

  /** The tiling with the blocks from `p` up to `e` replaced by a used block of `n` bytes and a free one. */
  ghost function Carve(b: Blocks, p: int, e: int, n: int): Blocks
    requires p in b
  {
    Split(Fuse(b, p, e, true), p, n)
  }

  /** No block straddles `e`. */
  ghost predicate Boundary(b: Blocks, brk: int, e: int) {
    e == brk || e in b
  }

  lemma FuseSize(b: Blocks, first: int, brk: int, p: int, e: int)
    requires Tiled(b, first, brk) && p in b && Boundary(b, brk, e) && p < e
    ensures e - p >= MIN_BLOCK_SIZE && (e - p) % 8 == 0 && e <= brk
  {
    assert BlockOk(b, first, brk, p);
    assert e in b ==> BlockOk(b, first, brk, e);
    var last := PrevBlock(b, first, brk, e);
    assert Apart(b, last, p) && BlockOk(b, first, brk, last);
    assert e - p == 8 * (last / 8 + b[last].size / 8 - p / 8);
  }

  lemma FuseNext(b: Blocks, first: int, brk: int, p: int, e: int, used: bool, q: int)
    requires Tiled(b, first, brk) && p in b && Boundary(b, brk, e) && p < e && q in Fuse(b, p, e, used)
    ensures NextOk(Fuse(b, p, e, used), brk, q)
  {
    assert NextOk(b, brk, q) && BlockOk(b, first, brk, q) && BlockOk(b, first, brk, p);
    assert Apart(b, q, p);
    assert e in b ==> Apart(b, q, e);
  }

  lemma FuseTiled(b: Blocks, first: int, brk: int, p: int, e: int, used: bool)
    requires Tiled(b, first, brk) && p in b && Boundary(b, brk, e) && p < e
    ensures Tiled(Fuse(b, p, e, used), first, brk)
  {
    var c := Fuse(b, p, e, used);
    FuseSize(b, first, brk, p, e);
    assert BlockOk(b, first, brk, p);
    forall q | q in c ensures BlockOk(c, first, brk, q) {
      assert BlockOk(b, first, brk, q);
    }
    forall q | q in c ensures NextOk(c, brk, q) {
      FuseNext(b, first, brk, p, e, used, q);
    }
    forall q, r | q in c && r in c ensures Apart(c, q, r) {
      assert Apart(b, q, r);
    }
  }

  lemma CarveTiled(b: Blocks, first: int, brk: int, p: int, e: int, n: int)
    requires Tiled(b, first, brk) && p in b && Boundary(b, brk, e)
    requires n % 8 == 0 && n >= MIN_BLOCK_SIZE && e - p - n >= MIN_BLOCK_SIZE
    ensures Tiled(Carve(b, p, e, n), first, brk)
  {
    FuseTiled(b, first, brk, p, e, true);
    SplitTiled(Fuse(b, p, e, true), first, brk, p, n);
  }

  lemma SplitApart(f: Blocks, first: int, brk: int, p: int, n: int, q: int, r: int)
    requires Tiled(f, first, brk) && p in f && MIN_BLOCK_SIZE <= n <= f[p].size - MIN_BLOCK_SIZE
    requires q in Split(f, p, n) && r in Split(f, p, n)
    ensures Apart(Split(f, p, n), q, r)
  {
    var s := p + n;
    assert q in f && r in f ==> Apart(f, q, r);
    assert q in f ==> Apart(f, q, p) && Apart(f, p, q) && BlockOk(f, first, brk, q);
    assert r in f ==> Apart(f, r, p) && Apart(f, p, r) && BlockOk(f, first, brk, r);
  }

  lemma SplitTiled(f: Blocks, first: int, brk: int, p: int, n: int)
    requires Tiled(f, first, brk) && p in f && n % 8 == 0 && MIN_BLOCK_SIZE <= n <= f[p].size - MIN_BLOCK_SIZE
    ensures Tiled(Split(f, p, n), first, brk)
  {
    var s := p + n;
    var c := Split(f, p, n);
    assert BlockOk(f, first, brk, p) && NextOk(f, brk, p);
    assert s in f ==> Apart(f, p, s);
    assert s % 8 == 0;
    assert (f[p].size - n) % 8 == 0;
    forall q | q in c ensures BlockOk(c, first, brk, q) {
      assert q in f ==> BlockOk(f, first, brk, q);
    }
    forall q | q in c ensures NextOk(c, brk, q) {
      assert q in f ==> NextOk(f, brk, q);
    }
    forall q, r | q in c && r in c ensures Apart(c, q, r) {
      SplitApart(f, first, brk, p, n, q, r);
    }
  }

  lemma ExtendTiled(b: Blocks, first: int, brk: int, n: int)
    requires Tiled(b, first, brk) && n % 8 == 0 && n >= MIN_BLOCK_SIZE
    ensures Tiled(b[brk := Block(n, false)], first, brk + n)
  {
    var c := b[brk := Block(n, false)];
    var e := brk + n;
    if first != brk {
      var last := PrevBlock(b, first, brk, brk);
      assert BlockOk(b, first, brk, last);
    }
    assert brk in b ==> BlockOk(b, first, brk, brk);
    forall q | q in c ensures BlockOk(c, first, e, q) {
      assert q in b ==> BlockOk(b, first, brk, q);
    }
    forall q | q in c ensures NextOk(c, e, q) {
      assert q in b ==> NextOk(b, brk, q);
    }
    forall q, r | q in c && r in c ensures Apart(c, q, r) {
      assert q in b ==> BlockOk(b, first, brk, q);
      assert r in b ==> BlockOk(b, first, brk, r);
      assert q in b && r in b ==> Apart(b, q, r);
    }
  }

  // ---------- boundary tags ----------

  /** Header and footer of `p` both hold its size and allocated bit. */
  ghost predicate TagOk(w: map<int, Word>, b: Blocks, p: int) {
    && p in b
    && WordAt(w, p - 4) == Pack(b[p].size, b[p].used)
    && WordAt(w, p + b[p].size - 8) == Pack(b[p].size, b[p].used)
  }

  /** Memory records the tiling: tags of every block, the prologue before the first block,
      and the epilogue header before the break. */
  ghost predicate TagsOk(w: map<int, Word>, b: Blocks, first: int, brk: int) {
    && WordAt(w, first - 12) == Pack(8, true)
    && WordAt(w, first - 8) == Pack(8, true)
    && WordAt(w, brk - 4) == Pack(0, true)
    && (forall p {:trigger TagOk(w, b, p)} | p in b :: TagOk(w, b, p))
  }

  lemma RetileTags(w: map<int, Word>, w': map<int, Word>, b: Blocks, c: Blocks, first: int, brk: int, p: int, e: int)
    requires Tiled(b, first, brk) && TagsOk(w, b, first, brk)
    requires p in b && Boundary(b, brk, e) && p < e
    requires SameOutside(w, w', p - 4, e - 4)
    requires forall q {:trigger TagOk(w', c, q)} | q in c && p <= q < e :: TagOk(w', c, q)
    requires forall q {:trigger c[q]} | q in c && !(p <= q < e) :: q in b && c[q] == b[q]
    ensures TagsOk(w', c, first, brk)
  {
    FuseSize(b, first, brk, p, e);
    assert BlockOk(b, first, brk, p);
    forall q | q in c ensures TagOk(w', c, q) {
      if !(p <= q < e) {
        assert c[q] == b[q];
        assert TagOk(w, b, q) && BlockOk(b, first, brk, q) && Apart(b, q, p);
        assert WordAt(w', q - 4) == WordAt(w, q - 4);
        assert WordAt(w', q + b[q].size - 8) == WordAt(w, q + b[q].size - 8);
      }
    }
  }

  lemma FuseTags(w: map<int, Word>, w': map<int, Word>, b: Blocks, first: int, brk: int, p: int, e: int, used: bool)
    requires Tiled(b, first, brk) && TagsOk(w, b, first, brk)
    requires p in b && Boundary(b, brk, e) && p < e
    requires SameOutside(w, w', p - 4, e - 4)
    requires WordAt(w', p - 4) == Pack(e - p, used) && WordAt(w', e - 8) == Pack(e - p, used)
    ensures TagsOk(w', Fuse(b, p, e, used), first, brk)
  {
    RetileTags(w, w', b, Fuse(b, p, e, used), first, brk, p, e);
  }

  lemma CarveTags(w: map<int, Word>, w': map<int, Word>, b: Blocks, first: int, brk: int, p: int, e: int, n: int)
    requires Tiled(b, first, brk) && TagsOk(w, b, first, brk)
    requires p in b && Boundary(b, brk, e) && 0 < n && p + n < e
    requires SameOutside(w, w', p - 4, e - 4)
    requires WordAt(w', p - 4) == Pack(n, true) && WordAt(w', p + n - 8) == Pack(n, true)
    requires WordAt(w', p + n - 4) == Pack(e - p - n, false) && WordAt(w', e - 8) == Pack(e - p - n, false)
    ensures TagsOk(w', Carve(b, p, e, n), first, brk)
  {
    RetileTags(w, w', b, Carve(b, p, e, n), first, brk, p, e);
  }

  // ---------- adjacent free blocks ----------

  /** `p` is not a free block with a free block right after it. */
  ghost predicate GapOk(b: Blocks, p: int) {
    p in b && !b[p].used && p + b[p].size in b ==> b[p + b[p].size].used
  }

  /** No two free blocks are adjacent, unless one of them is `x`. */
  ghost predicate CompactBut(b: Blocks, x: int) {
    forall p {:trigger GapOk(b, p)} | p in b && p != x && p + b[p].size != x :: GapOk(b, p)
  }

  /** No two free blocks are adjacent. */
  ghost predicate Compact(b: Blocks) {
    forall p {:trigger GapOk(b, p)} | p in b :: GapOk(b, p)
  }

  /** Joining a free block with its free neighbours leaves no adjacent free blocks. */
  lemma JoinCompact(b: Blocks, first: int, brk: int, x: int, r: int, e: int)
    requires Tiled(b, first, brk) && CompactBut(b, x) && FreeRun(b, x, r, e)
    ensures Compact(Fuse(b, r, e, false))
  {
    var c := Fuse(b, r, e, false);
    FreeRunBounds(b, first, brk, x, r, e);
    assert BlockOk(b, first, brk, x);
    forall p | p in c ensures GapOk(c, p) {
      assert GapOk(b, p) || p == x || p + b[p].size == x;
      assert NextOk(b, brk, p) && BlockOk(b, first, brk, p);
      if p == r {
        var n := x + b[x].size;
        assert e in b ==> BlockOk(b, first, brk, e);
        assert n in b && !b[n].used ==> (GapOk(b, n) && BlockOk(b, first, brk, n));
      } else {
        assert Apart(b, p, r) && Apart(b, r, p) && Apart(b, p, x);
        assert p + b[p].size == r && !b[p].used && r != x ==> GapOk(b, p);
      }
    }
  }

  /** The free neighbours of the free block `bp` reach down to `r` and up to `e`. */
  ghost predicate FreeRun(b: Blocks, bp: int, r: int, e: int) {
    && bp in b && !b[bp].used && r in b && !b[r].used && r <= bp
    && (r == bp || r + b[r].size == bp)
    && (forall q {:trigger b[q]} :: q in b && q + b[q].size == bp && !b[q].used ==> q == r)
    && var n := bp + b[bp].size;
       if n in b && !b[n].used then e == n + b[n].size else e == n
  }

  lemma FreeRunBounds(b: Blocks, first: int, brk: int, x: int, r: int, e: int)
    requires Tiled(b, first, brk) && FreeRun(b, x, r, e)
    ensures Boundary(b, brk, e) && r <= x < e
    ensures forall q {:trigger b[q]} :: q in b && r <= q < e ==> !b[q].used
  {
    var n := x + b[x].size;
    assert BlockOk(b, first, brk, x) && NextOk(b, brk, x) && NextOk(b, brk, r);
    assert n in b ==> NextOk(b, brk, n) && BlockOk(b, first, brk, n);
    forall q | q in b && r <= q < e ensures !b[q].used {
      assert Apart(b, r, q) && Apart(b, x, q);
      assert n in b ==> Apart(b, n, q);
    }
  }

  lemma CarveCompact(b: Blocks, first: int, brk: int, p: int, e: int, n: int)
    requires Tiled(b, first, brk) && Compact(b) && p in b && Boundary(b, brk, e) && 0 < n && p + n < e
    ensures CompactBut(Carve(b, p, e, n), p + n)
  {
    var c := Carve(b, p, e, n);
    forall q | q in c && q != p + n && q + c[q].size != p + n ensures GapOk(c, q) {
      assert q in b ==> GapOk(b, q) && Apart(b, q, p) && NextOk(b, brk, q);
      assert e in b ==> Apart(b, q, e);
    }
  }

  lemma FuseCompact(b: Blocks, first: int, brk: int, p: int, e: int)
    requires Tiled(b, first, brk) && Compact(b) && p in b && Boundary(b, brk, e) && p < e
    ensures Compact(Fuse(b, p, e, true))
  {
    var c := Fuse(b, p, e, true);
    forall q | q in c ensures GapOk(c, q) {
      assert GapOk(b, q) && Apart(b, q, p);
    }
  }

  /** Freeing a block may put it beside free blocks, and no others. */
  lemma FreeCompact(b: Blocks, p: int)
    requires Compact(b) && p in b
    ensures CompactBut(b[p := Block(b[p].size, false)], p)
  {
    var c := b[p := Block(b[p].size, false)];
    forall q | q in c && q != p && q + c[q].size != p ensures GapOk(c, q) {
      assert GapOk(b, q);
    }
  }

  lemma ExtendCompact(b: Blocks, first: int, brk: int, n: int)
    requires Tiled(b, first, brk) && Compact(b)
    ensures CompactBut(b[brk := Block(n, false)], brk)
  {
    var c := b[brk := Block(n, false)];
    forall q | q in c && q != brk && q + c[q].size != brk ensures GapOk(c, q) {
      assert GapOk(b, q);
    }
  }

  // ---------- what is in use ----------

  lemma FuseFreeLive(b: Blocks, p: int, e: int)
    requires p in b && p < e && forall q {:trigger b[q]} :: q in b && p <= q < e ==> !b[q].used
    ensures LiveOf(Fuse(b, p, e, false)) == LiveOf(b)
  {
  }
}
