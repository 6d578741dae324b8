/** What the operations of mm.c make of the tiling and of the order of the free lists. */
module Shapes {
  import opened MemLib
  import opened BlockMap
  import opened SegList
  import opened Heap

  /** The blocks, and the free lists with their order. */
  datatype Shape = Shape(blocks: Blocks, lists: Lists)

  // ---------- one list ----------

  /** Where a block of `size` bytes goes in a list: before the first block that is not smaller. */
  ghost function Rank(b: Blocks, s: seq<int>, size: int): (k: int)
    ensures 0 <= k <= |s|
  {
    if |s| == 0 || s[0] !in b || b[s[0]].size >= size then 0 else 1 + Rank(b, s[1..], size)
  }

  /** The elements of a list that are not from `p` up to `e`, in their order. */
  ghost function Outside(s: seq<int>, p: int, e: int): seq<int> {
    if |s| == 0 then []
    else if p <= s[0] < e then Outside(s[1..], p, e)
    else [s[0]] + Outside(s[1..], p, e)
  }

  lemma {:induction false} OutsideHas(s: seq<int>, p: int, e: int, q: int)
    ensures q in Outside(s, p, e) <==> q in s && !(p <= q < e)
  {
    if |s| > 0 {
      OutsideHas(s[1..], p, e, q);
    }
  }

  lemma {:induction false} OutsideAppend(s: seq<int>, t: seq<int>, p: int, e: int)
    ensures Outside(s + t, p, e) == Outside(s, p, e) + Outside(t, p, e)
  {
    if |s| == 0 {
      assert s + t == t;
    } else {
      assert (s + t)[1..] == s[1..] + t;
      OutsideAppend(s[1..], t, p, e);
    }
  }

  lemma {:induction false} OutsideNone(s: seq<int>, p: int, e: int)
    requires forall k {:trigger s[k]} | 0 <= k < |s| :: !(p <= s[k] < e)
    ensures Outside(s, p, e) == s
  {
    if |s| > 0 {
      OutsideNone(s[1..], p, e);
    }
  }

  /** Cutting out a region undoes any cut within it. */
  lemma {:induction false} OutsideTwice(s: seq<int>, p: int, q: int, x: int, y: int)
    requires x <= p && q <= y
    ensures Outside(Outside(s, p, q), x, y) == Outside(s, x, y)
  {
    if |s| > 0 {
      OutsideTwice(s[1..], p, q, x, y);
      assert !(p <= s[0] < q) ==> Outside(s, p, q)[1..] == Outside(s[1..], p, q);
    }
  }

  /** A region may be cut from a later start if no element lies before it. */
  lemma {:induction false} OutsideFrom(s: seq<int>, p: int, q: int, e: int)
    requires p <= q && forall k {:trigger s[k]} | 0 <= k < |s| :: !(p <= s[k] < q)
    ensures Outside(s, p, e) == Outside(s, q, e)
  {
    if |s| > 0 {
      OutsideFrom(s[1..], p, q, e);
    }
  }

  /** A region may be cut up to an earlier end if no element lies behind it. */
  lemma {:induction false} OutsideUpTo(s: seq<int>, p: int, q: int, e: int)
    requires q <= e && forall k {:trigger s[k]} | 0 <= k < |s| :: !(q <= s[k] < e)
    ensures Outside(s, p, e) == Outside(s, p, q)
  {
    if |s| > 0 {
      OutsideUpTo(s[1..], p, q, e);
    }
  }

  lemma OutsideInsert(s: seq<int>, k: int, p: int, x: int, y: int)
    requires 0 <= k <= |s| && x <= p < y
    ensures Outside(InsertAt(s, k, p), x, y) == Outside(s, x, y)
  {
    OutsideAppend(s[..k] + [p], s[k..], x, y);
    OutsideAppend(s[..k], [p], x, y);
    OutsideAppend(s[..k], s[k..], x, y);
    assert s[..k] + s[k..] == s;
  }

  lemma {:induction false} OutsideRemove(s: seq<int>, k: int)
    requires 0 <= k < |s| && forall j {:trigger s[j]} | 0 <= j < |s| && j != k :: s[j] != s[k]
    ensures Outside(s, s[k], s[k] + 1) == RemoveAt(s, k)
  {
    if k == 0 {
      OutsideNone(s[1..], s[0], s[0] + 1);
    } else {
      OutsideRemove(s[1..], k - 1);
      assert RemoveAt(s, k) == [s[0]] + RemoveAt(s[1..], k - 1);
    }
  }

  // ---------- all the lists ----------

  /** The lists without the blocks that start from `p` up to `e`. */
  ghost function Cut(l: Lists, p: int, e: int): (l': Lists)
    ensures |l'| == |l|
  {
    seq(|l|, i requires 0 <= i < |l| => Outside(l[i], p, e))
  }

  /** The lists once insert_free_block has put in `p`. */
  ghost function Filed(b: Blocks, l: Lists, p: int): (l': Lists)
    requires |l| == N_SEGLIST && p in b
    ensures |l'| == N_SEGLIST
  {
    var i := Level(b[p].size);
    l[i := InsertAt(l[i], Rank(b, l[i], b[p].size), p)]
  }

  lemma CutTwice(l: Lists, p: int, q: int, x: int, y: int)
    requires x <= p && q <= y
    ensures Cut(Cut(l, p, q), x, y) == Cut(l, x, y)
  {
    forall i | 0 <= i < |l| ensures Cut(Cut(l, p, q), x, y)[i] == Cut(l, x, y)[i] {
      OutsideTwice(l[i], p, q, x, y);
    }
  }

  lemma CutFiled(b: Blocks, l: Lists, p: int, x: int, y: int)
    requires |l| == N_SEGLIST && p in b && x <= p < y
    ensures Cut(Filed(b, l, p), x, y) == Cut(l, x, y)
  {
    var i := Level(b[p].size);
    OutsideInsert(l[i], Rank(b, l[i], b[p].size), p, x, y);
    forall j | 0 <= j < |l| ensures Cut(Filed(b, l, p), x, y)[j] == Cut(l, x, y)[j] {
    }
  }

  /** Where nothing is listed there is nothing to cut. */
  lemma CutNone(w: map<int, Word>, b: Blocks, l: Lists, lo: int, listed: set<int>, p: int, e: int)
    requires SegOk(w, b, l, lo, listed) && Unlisted(listed, p, e)
    ensures Cut(l, p, e) == l
  {
    forall i | 0 <= i < |l| ensures Cut(l, p, e)[i] == l[i] {
      assert LevelOk(w, b, l, lo, listed, i);
      OutsideNone(l[i], p, e);
    }
  }

  lemma CutFrom(w: map<int, Word>, b: Blocks, l: Lists, lo: int, listed: set<int>, p: int, q: int, e: int)
    requires SegOk(w, b, l, lo, listed) && p <= q && Unlisted(listed, p, q)
    ensures Cut(l, p, e) == Cut(l, q, e)
  {
    forall i | 0 <= i < |l| ensures Cut(l, p, e)[i] == Cut(l, q, e)[i] {
      assert LevelOk(w, b, l, lo, listed, i);
      OutsideFrom(l[i], p, q, e);
    }
  }

  lemma CutUpTo(w: map<int, Word>, b: Blocks, l: Lists, lo: int, listed: set<int>, p: int, q: int, e: int)
    requires SegOk(w, b, l, lo, listed) && q <= e && Unlisted(listed, q, e)
    ensures Cut(l, p, e) == Cut(l, p, q)
  {
    forall i | 0 <= i < |l| ensures Cut(l, p, e)[i] == Cut(l, p, q)[i] {
      assert LevelOk(w, b, l, lo, listed, i);
      OutsideUpTo(l[i], p, q, e);
    }
  }

  /** delete_free_block leaves the other blocks in their order. */
  lemma CutOne(w: map<int, Word>, b: Blocks, l: Lists, lo: int, listed: set<int>, p: int, k: int)
    requires SegOk(w, b, l, lo, listed) && p in b && 0 <= k < |l[Level(b[p].size)]| && l[Level(b[p].size)][k] == p
    ensures var i := Level(b[p].size);
            Cut(l, p, p + 1) == l[i := RemoveAt(l[i], k)]
  {
    var i := Level(b[p].size);
    var l' := l[i := RemoveAt(l[i], k)];
    forall j | 0 <= j < |l| ensures Cut(l, p, p + 1)[j] == l'[j] {
      assert LevelOk(w, b, l, lo, listed, j);
      if j == i {
        OutsideRemove(l[i], k);
      } else {
        OutsideNone(l[j], p, p + 1);
      }
    }
  }

  /** The place of a block is the one with smaller blocks before it and none behind it: the walk of insert_free_block,
      along a list in any order, stops there. */
  lemma {:induction false} RankExact(b: Blocks, s: seq<int>, size: int, k: int)
    requires 0 <= k <= |s| && (k < |s| ==> s[k] in b)
    ensures Rank(b, s, size) == k <==>
            && (forall j {:trigger s[j]} | 0 <= j < k :: s[j] in b && b[s[j]].size < size)
            && (k < |s| ==> size <= b[s[k]].size)
  {
    if k > 0 {
      RankExact(b, s[1..], size, k - 1);
      assert forall j :: 1 <= j < k ==> s[1..][j - 1] == s[j];
    }
  }

  lemma {:induction false} RankFirst(b: Blocks, s: seq<int>, size: int)
    ensures forall j {:trigger s[j]} | 0 <= j < Rank(b, s, size) :: s[j] in b && b[s[j]].size < size
  {
    if |s| > 0 {
      RankFirst(b, s[1..], size);
      assert forall j :: 1 <= j < |s| ==> s[1..][j - 1] == s[j];
    }
  }

  // ---------- what the operations do ----------

  /** Where the free block at `e` ends, or `e` itself if there is none. */
  ghost function FreeTo(b: Blocks, e: int): int {
    if FreeAt(b, e) then e + b[e].size else e
  }

  /** Where the free block that ends at `p` starts, or `p` itself if there is none. */
  ghost function FreeFrom(b: Blocks, p: int): int {
    p - PrevFree(b, p)
  }

  /** The blocks from `p` up to `e` become one block in use. */
  ghost function UsedUp(h: Shape, p: int, e: int): Shape {
    Shape(Fuse(h.blocks, p, e, true), Cut(h.lists, p, e))
  }

  /** The blocks from `p` up to `e` become a block in use of `n` bytes and a free one, put in its list. */
  ghost function Carved(h: Shape, p: int, e: int, n: int): Shape
    requires |h.lists| == N_SEGLIST && p in h.blocks
  {
    var c := Carve(h.blocks, p, e, n);
    Shape(c, Filed(c, Cut(h.lists, p, e), p + n))
  }

  /** The blocks from `p` up to `e` become one free block, put in its list. */
  ghost function Released(h: Shape, p: int, e: int): Shape
    requires |h.lists| == N_SEGLIST && p in h.blocks
  {
    var c := Fuse(h.blocks, p, e, false);
    Shape(c, Filed(c, Cut(h.lists, p, e), p))
  }

  /** The blocks from `p` up to `e` serve a request: all of them, if less than a block would be left over, and
      otherwise their front, while the rest becomes free with what follows it up to `x`. */
  ghost function Fitted(h: Shape, p: int, e: int, x: int, asize: int): Shape
    requires |h.lists| == N_SEGLIST && p in h.blocks
  {
    if e - p - asize >= MIN_BLOCK_SIZE then Carved(h, p, x, asize) else UsedUp(h, p, e)
  }

  /** place: the free block at `p` serves a request. */
  ghost function Allotted(h: Shape, p: int, asize: int): Shape
    requires |h.lists| == N_SEGLIST && p in h.blocks
  {
    var e := p + h.blocks[p].size;
    Fitted(h, p, e, FreeTo(h.blocks, e), asize)
  }

  /** mm_free: the block at `p` becomes free with its free neighbours. */
  ghost function Freed(h: Shape, p: int): (h': Shape)
    requires |h.lists| == N_SEGLIST && p in h.blocks
    ensures |h'.lists| == N_SEGLIST
  {
    Released(h, FreeFrom(h.blocks, p), FreeTo(h.blocks, p + h.blocks[p].size))
  }

  /** coalesce: the listed free block at `p` and its free neighbours become one. */
  ghost function Joined(h: Shape, p: int): Shape
    requires |h.lists| == N_SEGLIST && p in h.blocks
  {
    var e := p + h.blocks[p].size;
    if FreeFrom(h.blocks, p) == p && FreeTo(h.blocks, e) == e then h else Freed(h, p)
  }

  /** extend_heap: `n` bytes more at the break, free with the free block below them. */
  ghost function Grown(h: Shape, brk: int, n: int): (h': Shape)
    requires |h.lists| == N_SEGLIST
    ensures |h'.lists| == N_SEGLIST
  {
    Released(Shape(h.blocks[brk := Block(n, false)], h.lists), FreeFrom(h.blocks, brk), brk + n)
  }

  /** No block before `r` in its list fits. */
  ghost predicate FirstInList(h: Shape, r: int, asize: int)
    requires |h.lists| == N_SEGLIST && r in h.blocks
  {
    var s := h.lists[Level(h.blocks[r].size)];
    exists k :: 0 <= k < |s| && s[k] == r
                && forall j {:trigger s[j]} | 0 <= j < k :: s[j] in h.blocks && h.blocks[s[j]].size < asize
  }

  /** find_fit: a smallest free block that fits, and of those the first in its list. */
  ghost predicate FirstFit(h: Shape, r: int, asize: int)
    requires |h.lists| == N_SEGLIST
  {
    BestFit(h.blocks, FreeOf(h.blocks), r, asize) && FirstInList(h, r, asize)
  }

  /** What mm_malloc does when it returns the block `r` for `size` bytes. */
  ghost predicate Served(h: Shape, h': Shape, brk: int, r: int, size: int)
    requires |h.lists| == N_SEGLIST
  {
    var asize := AdjustedSize(size);
    if NoFit(h.blocks, asize) then
      var g := Grown(h, brk, Growth(size));
      r == FreeFrom(h.blocks, brk) && r in g.blocks && h' == Allotted(g, r, asize)
    else FirstFit(h, r, asize) && h' == Allotted(h, r, asize)
  }

  /** What mm_realloc does to a block it does not have to move elsewhere. */
  ghost predicate Resized(h: Shape, h': Shape, p: int, size: int)
    requires |h.lists| == N_SEGLIST && p in h.blocks
  {
    var b, c, a := h.blocks, h.blocks[p].size, AdjustedSize(size);
    var e, n, r := p + c, NextFree(b, p), GrowTarget(b, p, size);
    if c >= a then h' == if c - a < MIN_BLOCK_SIZE then h else Carved(h, p, FreeTo(b, e), a)
    else if r == p then h' == Fitted(h, p, e + n, FreeTo(b, e + n), a)
    else r in b && h' == if e - r > a then Fitted(h, r, e, e, a) else Carved(h, r, e + n, a)
  }

  /** What mm_realloc does to a block it moves elsewhere, to `r`. */
  ghost predicate MovedOff(h: Shape, h': Shape, brk: int, p: int, r: int, size: int)
    requires |h.lists| == N_SEGLIST
  {
    exists g: Shape :: Served(h, g, brk, r, size) && |g.lists| == N_SEGLIST && p in g.blocks && h' == Freed(g, p)
  }

  /** Case 2.1 */
  lemma ResizedNext(h: Shape, h': Shape, p: int, size: int)
    requires |h.lists| == N_SEGLIST && p in h.blocks && h.blocks[p].size < AdjustedSize(size)
    requires NextFree(h.blocks, p) > 0 && h.blocks[p].size + NextFree(h.blocks, p) > AdjustedSize(size)
    requires var e := p + h.blocks[p].size + NextFree(h.blocks, p);
             h' == Fitted(h, p, e, FreeTo(h.blocks, e), AdjustedSize(size))
    ensures Resized(h, h', p, size)
  {
  }

  /** Case 2.2 */
  lemma ResizedPrev(h: Shape, h': Shape, p: int, size: int)
    requires |h.lists| == N_SEGLIST && p in h.blocks && h.blocks[p].size < AdjustedSize(size)
    requires NextFree(h.blocks, p) <= 0 || h.blocks[p].size + NextFree(h.blocks, p) <= AdjustedSize(size)
    requires PrevFree(h.blocks, p) > 0 && h.blocks[p].size + PrevFree(h.blocks, p) > AdjustedSize(size)
    requires p - PrevFree(h.blocks, p) in h.blocks
    requires var e := p + h.blocks[p].size;
             h' == Fitted(h, p - PrevFree(h.blocks, p), e, e, AdjustedSize(size))
    ensures Resized(h, h', p, size)
  {
  }

  /** Case 2.3 */
  lemma ResizedBoth(h: Shape, h': Shape, p: int, size: int)
    requires |h.lists| == N_SEGLIST && p in h.blocks && h.blocks[p].size < AdjustedSize(size)
    requires NextFree(h.blocks, p) > 0 && h.blocks[p].size + NextFree(h.blocks, p) <= AdjustedSize(size)
    requires PrevFree(h.blocks, p) > 0 && h.blocks[p].size + PrevFree(h.blocks, p) <= AdjustedSize(size)
    requires p - PrevFree(h.blocks, p) in h.blocks
    requires var e := p + h.blocks[p].size + NextFree(h.blocks, p);
             h' == Carved(h, p - PrevFree(h.blocks, p), e, AdjustedSize(size))
    ensures Resized(h, h', p, size)
  {
  }

  /** There is one first fit: the lists decide where a request goes. */
  lemma OneFirstFit(h: Shape, r: int, q: int, asize: int)
    requires |h.lists| == N_SEGLIST && FirstFit(h, r, asize) && FirstFit(h, q, asize)
    ensures r == q
  {
    var s := h.lists[Level(h.blocks[r].size)];
    var k :| 0 <= k < |s| && s[k] == r
             && forall j {:trigger s[j]} | 0 <= j < k :: s[j] in h.blocks && h.blocks[s[j]].size < asize;
    var m :| 0 <= m < |s| && s[m] == q
             && forall j {:trigger s[j]} | 0 <= j < m :: s[j] in h.blocks && h.blocks[s[j]].size < asize;
    assert !(k < m) && !(m < k);
  }

  /** So the blocks, the lists and the break decide which address mm_malloc returns, and what it leaves. */
  lemma OneServed(h: Shape, h1: Shape, h2: Shape, brk: int, r: int, q: int, size: int)
    requires |h.lists| == N_SEGLIST && Served(h, h1, brk, r, size) && Served(h, h2, brk, q, size)
    ensures r == q && h1 == h2
  {
    if !NoFit(h.blocks, AdjustedSize(size)) {
      OneFirstFit(h, r, q, AdjustedSize(size));
    }
  }

  /** What is left of a carved region joins the free block after it, if there is one: the region was that much
      larger. */
  lemma CarveJoin(b: Blocks, c: Blocks, first: int, brk: int, p: int, m: int, n: int, r: int, e: int)
    requires Tiled(b, first, brk) && p in b && Boundary(b, brk, m)
    requires n % 8 == 0 && n >= MIN_BLOCK_SIZE && m - p - n >= MIN_BLOCK_SIZE && c == Carve(b, p, m, n)
    requires FreeRun(c, p + n, r, e)
    ensures r == p + n && e == FreeTo(b, m) && Fuse(c, r, e, false) == Carve(b, p, e, n)
  {
    CarveTiled(b, first, brk, p, m, n);
    assert BlockOk(c, first, brk, r) && Apart(c, p, r) && Apart(c, r, p);
    assert m in b ==> BlockOk(b, first, brk, m) && BlockOk(c, first, brk, m);
    forall q | q in b ensures m < q < e ==> false {
      assert m in b ==> Apart(b, m, q);
    }
  }

  /** A region is joined alike whatever its first blocks were. */
  lemma FuseAny(b: Blocks, p: int, f: Block, r: int, e: int, used: bool)
    requires p in b && r <= p < e && r in b
    ensures Fuse(b[p := f], r, e, used) == Fuse(b, r, e, used)
  {
  }

  /** The free run around a block, by what its neighbours are. */
  lemma RunIs(b: Blocks, first: int, brk: int, p: int, r: int, e: int)
    requires Tiled(b, first, brk) && FreeRun(b, p, r, e)
    ensures r == FreeFrom(b, p) && e == FreeTo(b, p + b[p].size)
  {
    if exists q :: EndsAt(b, q, p) && !b[q].used {
      assert EndsAt(b, r, p);
    } else {
      assert r != p ==> EndsAt(b, r, p);
    }
  }

  /** Freeing a block in use: the free run it starts is as its neighbours were before. */
  lemma FreedRun(b: Blocks, first: int, brk: int, p: int, r: int, e: int)
    requires Tiled(b, first, brk) && p in b && FreeRun(b[p := Block(b[p].size, false)], p, r, e)
    requires Tiled(b[p := Block(b[p].size, false)], first, brk)
    ensures r == FreeFrom(b, p) && e == FreeTo(b, p + b[p].size) && r in b
    ensures Fuse(b[p := Block(b[p].size, false)], r, e, false) == Fuse(b, r, e, false)
  {
    var c := b[p := Block(b[p].size, false)];
    assert BlockOk(b, first, brk, p);
    assert c[r] == b[r] || r == p;
    if exists q :: EndsAt(b, q, p) && !b[q].used {
      var q :| EndsAt(b, q, p) && !b[q].used && PrevFree(b, p) == b[q].size;
      assert c[q] == b[q];
    } else {
      assert r != p ==> EndsAt(b, r, p);
    }
    FreeRunBounds(c, first, brk, p, r, e);
    FuseAny(b, p, Block(b[p].size, false), r, e, false);
  }

  lemma JoinedIs(h: Shape, p: int, r: int, e: int)
    requires |h.lists| == N_SEGLIST && p in h.blocks
    requires r == FreeFrom(h.blocks, p) && e == FreeTo(h.blocks, p + h.blocks[p].size)
    ensures Joined(h, p) == if r == p && e == p + h.blocks[p].size then h else Released(h, r, e)
  {
  }

  /** A block put in its list and then joined, when nothing else in the run it is joined to matters to the lists. */
  lemma JoinedFiled(b: Blocks, l: Lists, p: int, r: int, e: int)
    requires |l| == N_SEGLIST && p in b && r in b && r == FreeFrom(b, p) && e == FreeTo(b, p + b[p].size)
    requires Cut(Filed(b, l, p), r, e) == Cut(l, r, e)
    requires r == p && e == p + b[p].size ==> Cut(l, r, e) == l && Fuse(b, r, e, false) == b
    ensures Joined(Shape(b, Filed(b, l, p)), p) == Freed(Shape(b, l), p)
  {
  }

  /** What is left of a carved region, freed. */
  lemma CarvedTail(b: Blocks, c: Blocks, l: Lists, p: int, e: int, n: int)
    requires |l| == N_SEGLIST && p in b && p + n in c && Fuse(c, p + n, e, false) == Carve(b, p, e, n)
    requires FreeFrom(c, p + n) == p + n && FreeTo(c, p + n + c[p + n].size) == e
    requires Cut(l, p, e) == Cut(l, p + n, e)
    ensures Freed(Shape(c, l), p + n) == Carved(Shape(b, l), p, e, n)
  {
  }

  /** A block freed in place and one whose tags already say free are freed alike. */
  lemma FreedAlike(b: Blocks, c: Blocks, l: Lists, p: int, r: int, e: int)
    requires |l| == N_SEGLIST && p in b && p in c && c[p].size == b[p].size && r in b
    requires r == FreeFrom(b, p) && r == FreeFrom(c, p)
    requires e == FreeTo(b, p + b[p].size) && e == FreeTo(c, p + b[p].size)
    requires Fuse(c, r, e, false) == Fuse(b, r, e, false)
    ensures Freed(Shape(c, l), p) == Freed(Shape(b, l), p)
  {
  }

  /** A region is built up alike whether its blocks are still listed or already out of the lists. */
  lemma SameRegion(b: Blocks, l: Lists, l': Lists, p: int, e: int)
    requires |l| == |l'| == N_SEGLIST && p in b && Cut(l, p, e) == Cut(l', p, e)
    ensures UsedUp(Shape(b, l), p, e) == UsedUp(Shape(b, l'), p, e)
    ensures forall n {:trigger Carved(Shape(b, l), p, e, n)} ::
              Carved(Shape(b, l), p, e, n) == Carved(Shape(b, l'), p, e, n)
  {
  }

  /** Serving a request from a block already out of its list comes to the same. */
  lemma AllottedAlone(b: Blocks, l: Lists, first: int, brk: int, p: int, asize: int)
    requires |l| == N_SEGLIST && Tiled(b, first, brk) && p in b
    ensures var h, e := Shape(b, Cut(l, p, p + 1)), p + b[p].size;
            Allotted(Shape(b, l), p, asize) ==
            if b[p].size - asize >= MIN_BLOCK_SIZE then Carved(h, p, FreeTo(b, e), asize) else UsedUp(h, p, e)
  {
    var e := p + b[p].size;
    assert BlockOk(b, first, brk, p) && (e in b ==> BlockOk(b, first, brk, e));
    CutTwice(l, p, p + 1, p, e);
    CutTwice(l, p, p + 1, p, FreeTo(b, e));
  }

  /** A block added at the break and freed with what is below it. */
  lemma GrownIs(b: Blocks, l: Lists, first: int, brk: int, n: int, r: int, e: int)
    requires |l| == N_SEGLIST && Tiled(b, first, brk) && n > 0
    requires Tiled(b[brk := Block(n, false)], first, brk + n) && FreeRun(b[brk := Block(n, false)], brk, r, e)
    ensures r == FreeFrom(b, brk) && e == brk + n
    ensures Freed(Shape(b[brk := Block(n, false)], l), brk) == Grown(Shape(b, l), brk, n)
  {
    var c := b[brk := Block(n, false)];
    RunIs(c, first, brk + n, brk, r, e);
    assert brk in b ==> BlockOk(b, first, brk, brk);
    assert brk + n in b ==> BlockOk(b, first, brk, brk + n);
    if exists q :: EndsAt(b, q, brk) && !b[q].used {
      var q :| EndsAt(b, q, brk) && !b[q].used && PrevFree(b, brk) == b[q].size;
      assert c[q] == b[q];
    } else {
      assert r != brk ==> EndsAt(b, r, brk);
    }
  }
}
