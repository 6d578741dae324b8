/** The client of mdriver.c: runs of the allocator over arbitrary traces of requests. */
module Mdriver {
  import opened MemLib
  import opened BlockMap
  import opened SegList
  import opened Heap
  import opened Layout
  import opened Mm
  import opened Ranges
  import opened Prelude

  // ---------- traces ----------

  datatype Op = Alloc(index: int, size: int) | Realloc(index: int, size: int) | Free(index: int)

  /** The sizes of the live requests, by index, after an operation. */
  ghost function Apply(live: map<int, int>, op: Op): map<int, int> {
    match op
    case Alloc(i, size) => live[i := size]
    case Realloc(i, size) => live[i := size]
    case Free(i) => live - {i}
  }

  /** An allocation names an index not in use; the others name one in use; sizes are positive. */
  ghost predicate OpOk(live: map<int, int>, numIds: int, op: Op) {
    0 <= op.index < numIds &&
    match op
    case Alloc(i, size) => i !in live && 0 < size <= MAX_REQUEST
    case Realloc(i, size) => i in live && 0 < size <= MAX_REQUEST
    case Free(i) => i in live
  }

  ghost function LiveAfter(ops: seq<Op>, n: nat): map<int, int>
    requires n <= |ops|
  {
    if n == 0 then map[] else Apply(LiveAfter(ops, n - 1), ops[n - 1])
  }

  ghost predicate WellFormed(ops: seq<Op>, numIds: int) {
    forall k {:trigger OpOkAt(ops, k, numIds)} | 0 <= k < |ops| :: OpOkAt(ops, k, numIds)
  }

  ghost predicate OpOkAt(ops: seq<Op>, k: int, numIds: int) {
    0 <= k < |ops| && OpOk(LiveAfter(ops, k), numIds, ops[k])
  }

  /** No break that mem_sbrk computes for the trace passes the end of the address space. */
  ghost predicate InReach(ops: seq<Op>, start: int) {
    forall k {:trigger ops[k]} | 0 <= k < |ops| && !ops[k].Free? :: Reachable(start, ops[k].size)
  }

  ghost predicate Reachable(start: int, size: int) {
    Growth(size) < ADDRESS_SPACE / 2 ==> start + MAX_HEAP + Growth(size) < ADDRESS_SPACE
  }

  /** No reallocation asks for a larger block than the last request under its index did. */
  ghost predicate NoGrowth(ops: seq<Op>) {
    forall k {:trigger ShrinksAt(ops, k)} | 0 <= k < |ops| :: ShrinksAt(ops, k)
  }

  ghost predicate ShrinksAt(ops: seq<Op>, k: int) {
    0 <= k < |ops| && (ops[k].Realloc? ==> Shrinks(LiveAfter(ops, k), ops[k]))
  }

  ghost predicate Shrinks(live: map<int, int>, op: Op) {
    op.Realloc? && op.index in live && AdjustedSize(op.size) <= AdjustedSize(live[op.index])
  }

  /** The heap that surely suffices for the first `n` operations. */
  ghost function Budget(ops: seq<Op>, n: nat): int
    requires n <= |ops|
  {
    if n == 0 then 112 + CHUNKSIZE
    else Budget(ops, n - 1) + if ops[n - 1].Free? then 0 else Growth(ops[n - 1].size)
  }

  lemma {:induction false} BudgetGrows(ops: seq<Op>, n: nat, m: nat)
    requires n <= m <= |ops|
    ensures Budget(ops, n) <= Budget(ops, m)
    decreases m - n
  {
    if n < m {
      BudgetGrows(ops, n, m - 1);
    }
  }

  // ---------- the bytes the driver compares ----------

  /** A byte read through a plain char, which is signed on the target. */
  function SignedChar(v: int): int {
    if v >= 128 then v - 256 else v
  }

  /** The reallocations whose bytes can never compare equal: the fill byte of the index is negative as a char. */
  predicate Misread(op: Op) {
    op.Realloc? && op.index % 256 >= 128
  }

  lemma MisreadExactly(index: int)
    ensures SignedChar(index % 256) == index % 256 <==> !Misread(Realloc(index, 1))
  {
  }

  // ---------- what the driver knows ----------

  /** Where a live request was placed, and its size. */
  datatype Held = Held(ptr: int, size: int)

  ghost function RangeOf(h: Held): Range {
    Range(h.ptr, h.ptr + h.size - 1)
  }

  ghost predicate HeldIn(held: map<int, Held>, live: map<int, int>, i: int) {
    i in held && held[i].ptr in live && held[i].size > 0 && 8 <= live[held[i].ptr] - held[i].size <= 23
  }

  ghost predicate Owned(held: map<int, Held>, p: int) {
    exists i :: i in held && held[i].ptr == p
  }

  /** The blocks in use are exactly those of the live requests, each large enough. */
  ghost predicate HeldOk(held: map<int, Held>, live: map<int, int>) {
    && (forall i {:trigger HeldIn(held, live, i)} | i in held :: HeldIn(held, live, i))
    && (forall i, j {:trigger held[i], held[j]} | i in held && j in held && i != j :: held[i].ptr != held[j].ptr)
    && (forall p {:trigger Owned(held, p)} | p in live :: Owned(held, p))
  }

  ghost predicate Recorded(held: map<int, Held>, r: Range) {
    exists i :: i in held && RangeOf(held[i]) == r
  }

  ghost predicate DistinctStarts(ranges: seq<Range>) {
    forall j, k {:trigger ranges[j], ranges[k]} | 0 <= j < k < |ranges| :: ranges[j].lo != ranges[k].lo
  }

  /** The range list records exactly the live requests, each once. */
  ghost predicate RangesOk(ranges: seq<Range>, held: map<int, Held>) {
    && (forall i {:trigger held[i]} | i in held :: RangeOf(held[i]) in ranges)
    && (forall r {:trigger Recorded(held, r)} | r in ranges :: Recorded(held, r))
    && DistinctStarts(ranges)
  }

  ghost predicate Filled(s: seq<Byte>, start: int, h: Held, v: Byte) {
    forall a {:trigger s[a]} | h.ptr - start <= a < h.ptr - start + h.size && 0 <= a < |s| :: s[a] == v
  }

  /** The request of index `i` is filled with the low byte of its index. */
  ghost predicate FilledOk(s: seq<Byte>, start: int, held: map<int, Held>) {
    forall i {:trigger Filled(s, start, held[i], i % 256)} | i in held :: Filled(s, start, held[i], i % 256)
  }

  // ---------- allocation ----------

  lemma HeldAlloc(held: map<int, Held>, live: map<int, int>, live': map<int, int>, i: int, p: int, size: int)
    requires HeldOk(held, live) && i !in held && size > 0
    requires p !in live && p in live' && live' == live[p := live'[p]] && 8 <= live'[p] - size <= 23
    ensures HeldOk(held[i := Held(p, size)], live')
  {
    var h := held[i := Held(p, size)];
    forall j | j in h ensures HeldIn(h, live', j) {
      assert j in held ==> HeldIn(held, live, j);
    }
    forall q | q in live' ensures Owned(h, q) {
      if q == p {
        assert h[i].ptr == p;
      } else {
        assert Owned(held, q);
        var j :| j in held && held[j].ptr == q;
        assert h[j].ptr == q;
      }
    }
    forall j, k | j in h && k in h && j != k ensures h[j].ptr != h[k].ptr {
      assert j in held ==> HeldIn(held, live, j);
      assert k in held ==> HeldIn(held, live, k);
    }
  }

  /** A payload in a block of its own is apart from every recorded range. */
  lemma NewRangeClear(ranges: seq<Range>, held: map<int, Held>, b: Blocks, first: int, brk: int, p: int, size: int)
    requires RangesOk(ranges, held) && Tiled(b, first, brk) && p in b && 0 < size <= b[p].size - 8
    requires forall i {:trigger held[i]} | i in held ::
               held[i].ptr in b && held[i].ptr != p && 0 < held[i].size <= b[held[i].ptr].size - 8
    ensures Clear(ranges, p, p + size - 1)
  {
    forall k | 0 <= k < |ranges| ensures !Trips(p, p + size - 1, ranges[k]) {
      assert ranges[k] in ranges && Recorded(held, ranges[k]);
      var i :| i in held && RangeOf(held[i]) == ranges[k];
      assert Apart(b, p, held[i].ptr) && Apart(b, held[i].ptr, p);
    }
  }

  lemma RangesAlloc(ranges: seq<Range>, held: map<int, Held>, i: int, h: Held)
    requires RangesOk(ranges, held) && i !in held
    requires forall j {:trigger held[j]} | j in held :: held[j].ptr != h.ptr
    ensures RangesOk([RangeOf(h)] + ranges, held[i := h])
  {
    var rs, hs := [RangeOf(h)] + ranges, held[i := h];
    assert rs[0] == RangeOf(h);
    forall j | j in hs ensures RangeOf(hs[j]) in rs {
      if j != i {
        var k :| 0 <= k < |ranges| && ranges[k] == RangeOf(held[j]);
        assert rs[k + 1] == ranges[k];
      }
    }
    forall r | r in rs ensures Recorded(hs, r) {
      if r in ranges {
        assert Recorded(held, r);
        var j :| j in held && RangeOf(held[j]) == r;
        assert RangeOf(hs[j]) == r;
      } else {
        assert RangeOf(hs[i]) == r;
      }
    }
    forall j, k | 0 <= j < k < |rs| ensures rs[j].lo != rs[k].lo {
      assert ranges[k - 1] in ranges && Recorded(held, ranges[k - 1]);
      var m :| m in held && RangeOf(held[m]) == ranges[k - 1];
      assert j > 0 ==> ranges[j - 1].lo != ranges[k - 1].lo;
    }
  }

  // ---------- removal ----------

  lemma {:induction false} WithoutElements(ranges: seq<Range>, lo: int)
    requires DistinctStarts(ranges)
    ensures forall r {:trigger r in Without(ranges, lo)} :: r in Without(ranges, lo) <==> r in ranges && r.lo != lo
    ensures DistinctStarts(Without(ranges, lo))
  {
    if |ranges| > 0 {
      var rest := ranges[1..];
      assert ranges == [ranges[0]] + rest;
      forall r | r in rest ensures r.lo != ranges[0].lo {
        var k :| 0 <= k < |rest| && rest[k] == r;
        assert ranges[k + 1] == r;
      }
      WithoutElements(rest, lo);
      var out := Without(ranges, lo);
      forall j, k | 0 <= j < k < |out| ensures out[j].lo != out[k].lo {
        if ranges[0].lo != lo {
          assert out[k] == Without(rest, lo)[k - 1] && out[k] in Without(rest, lo);
          assert j > 0 ==> out[j] == Without(rest, lo)[j - 1];
        }
      }
    }
  }

  lemma RangesFree(ranges: seq<Range>, held: map<int, Held>, i: int)
    requires RangesOk(ranges, held) && i in held
    requires forall j, k {:trigger held[j], held[k]} | j in held && k in held && j != k :: held[j].ptr != held[k].ptr
    ensures RangesOk(Without(ranges, held[i].ptr), held - {i})
  {
    var lo := held[i].ptr;
    var out, hs := Without(ranges, lo), held - {i};
    WithoutElements(ranges, lo);
    forall j | j in hs ensures RangeOf(hs[j]) in out {
      assert held[j].ptr != held[i].ptr && RangeOf(held[j]) in ranges;
    }
    forall r | r in out ensures Recorded(hs, r) {
      assert Recorded(held, r);
      var j :| j in held && RangeOf(held[j]) == r;
      assert j in hs && RangeOf(hs[j]) == r;
    }
  }

  lemma HeldFree(held: map<int, Held>, live: map<int, int>, i: int)
    requires HeldOk(held, live) && i in held
    ensures HeldOk(held - {i}, live - {held[i].ptr})
  {
    var h, l := held - {i}, live - {held[i].ptr};
    forall j | j in h ensures HeldIn(h, l, j) {
      assert HeldIn(held, live, j) && held[j].ptr != held[i].ptr;
    }
    forall q | q in l ensures Owned(h, q) {
      assert Owned(held, q);
      var j :| j in held && held[j].ptr == q;
      assert j in h && h[j].ptr == q;
    }
    forall j, k | j in h && k in h && j != k ensures h[j].ptr != h[k].ptr {
      assert held[j].ptr != held[k].ptr;
    }
  }

  // ---------- bytes ----------

  /** The smallest block that holds a request is no larger than any that does. */
  lemma AdjustedLeast(size: int, block: int)
    requires size > 0 && block % 8 == 0 && block >= MIN_BLOCK_SIZE && block - size >= 8
    ensures AdjustedSize(size) <= block
  {
    AdjustedRange(size);
    assert block == 8 * (block / 8);
  }

  /** Both views of one memory. */
  ghost predicate View(w: map<int, Word>, s: seq<Byte>, start: int) {
    Mirrors(w, s, start) && Covers(w, start) && |s| == MAX_HEAP && start % 8 == 0
  }

  /** A payload whose words are kept, where they are or at another place, has its bytes kept. */
  lemma KeptBytes(w: map<int, Word>, w': map<int, Word>, s: seq<Byte>, s': seq<Byte>, start: int,
                  p: int, r: int, n: int, a: int)
    requires View(w, s, start) && View(w', s', start) && Moved(w, w', p, r, n)
    requires p % 8 == 0 && start <= p && p + n <= start + MAX_HEAP
    requires r % 8 == 0 && start <= r && r + n <= start + MAX_HEAP && n % 8 == 0 && 0 <= a < n
    ensures s'[r + a - start] == s[p + a - start]
  {
    var k := a / 4;
    WordMultiple(p, k);
    WordMultiple(r, k);
    assert n == 4 * (2 * (n / 8)) && k < 2 * (n / 8);
    KeptWord(w, w', s, s', start, p + 4 * k, r + 4 * k, a - 4 * k);
  }

  lemma KeptWord(w: map<int, Word>, w': map<int, Word>, s: seq<Byte>, s': seq<Byte>, start: int, x: int, y: int, o: int)
    requires View(w, s, start) && View(w', s', start) && WordAt(w', y) == WordAt(w, x)
    requires x % 4 == 0 && start <= x && x + 4 <= start + MAX_HEAP
    requires y % 4 == 0 && start <= y && y + 4 <= start + MAX_HEAP && 0 <= o < 4
    ensures s'[y + o - start] == s[x + o - start]
  {
    assert x in w && y in w';
    var i, j := x - start, y - start;
    assert w[x] == Loaded(s, start, x) && w'[y] == Loaded(s', start, y);
    ComposeInjective(s[i], s[i + 1], s[i + 2], s[i + 3], s'[j], s'[j + 1], s'[j + 2], s'[j + 3]);
    assert o == 0 || o == 1 || o == 2 || o == 3;
  }

  /** Requests whose payload words are kept stay filled. */
  lemma FilledKept(w: map<int, Word>, w': map<int, Word>, s: seq<Byte>, s': seq<Byte>, start: int, held: map<int, Held>,
                   b: Blocks, first: int, brk: int)
    requires View(w, s, start) && View(w', s', start) && FilledOk(s, start, held) && LiveKept(w, w', b)
    requires start <= first && brk <= start + MAX_HEAP
    requires forall i {:trigger held[i]} | i in held ::
               held[i].ptr in b && b[held[i].ptr].used && held[i].size <= b[held[i].ptr].size - 8
               && BlockOk(b, first, brk, held[i].ptr)
    ensures FilledOk(s', start, held)
  {
    forall i | i in held ensures Filled(s', start, held[i], i % 256) {
      var h := held[i];
      assert Filled(s, start, h, i % 256);
      assert PayloadKept(w, w', h.ptr, b[h.ptr].size - 8);
      forall a | h.ptr - start <= a < h.ptr - start + h.size && 0 <= a < |s'| ensures s'[a] == i % 256 {
        KeptBytes(w, w', s, s', start, h.ptr, h.ptr, b[h.ptr].size - 8, a + start - h.ptr);
      }
    }
  }

  /** A new request, filled; the others are apart from it. */
  lemma FilledNew(s: seq<Byte>, s': seq<Byte>, start: int, held: map<int, Held>, i: int, h: Held)
    requires FilledOk(s, start, held) && |s'| == |s|
    requires forall a {:trigger s'[a]} :: 0 <= a < |s| ==>
               s'[a] == if h.ptr - start <= a < h.ptr - start + h.size then i % 256 else s[a]
    requires forall j {:trigger held[j]} | j in held && j != i ::
               held[j].ptr + held[j].size <= h.ptr || h.ptr + h.size <= held[j].ptr
    ensures FilledOk(s', start, held[i := h])
  {
    var hs := held[i := h];
    forall j | j in hs ensures Filled(s', start, hs[j], j % 256) {
      assert j != i ==> Filled(s, start, held[j], j % 256);
    }
  }

  /** Where the requests in `held` lie in the tiling. */
  ghost predicate InBlocks(held: map<int, Held>, b: Blocks, first: int, brk: int) {
    forall i {:trigger held[i]} | i in held ::
      held[i].ptr in b && b[held[i].ptr].used && 0 < held[i].size <= b[held[i].ptr].size - 8
      && BlockOk(b, first, brk, held[i].ptr)
  }

  lemma HeldBlocks(held: map<int, Held>, b: Blocks, first: int, brk: int)
    requires HeldOk(held, LiveOf(b)) && Tiled(b, first, brk)
    ensures InBlocks(held, b, first, brk)
  {
    forall i | i in held
      ensures held[i].ptr in b && b[held[i].ptr].used && 0 < held[i].size <= b[held[i].ptr].size - 8
      ensures BlockOk(b, first, brk, held[i].ptr)
    {
      assert HeldIn(held, LiveOf(b), i);
    }
  }

  lemma HeldApart(held: map<int, Held>, b: Blocks, first: int, brk: int, p: int, size: int)
    requires InBlocks(held, b, first, brk) && Tiled(b, first, brk) && p in b && size <= b[p].size - 8
    ensures forall j {:trigger held[j]} | j in held && held[j].ptr != p ::
              held[j].ptr + held[j].size <= p || p + size <= held[j].ptr
  {
    forall j | j in held && held[j].ptr != p ensures held[j].ptr + held[j].size <= p || p + size <= held[j].ptr {
      assert Apart(b, p, held[j].ptr) && Apart(b, held[j].ptr, p);
    }
  }

  /** An operation on the payload of one request leaves the others filled. */
  lemma OthersFilled(held: map<int, Held>, index: int, w: map<int, Word>, w': map<int, Word>, s: seq<Byte>,
                     s': seq<Byte>,
                     start: int, b: Blocks, first: int, brk: int)
    requires View(w, s, start) && View(w', s', start) && FilledOk(s, start, held)
    requires start <= first && brk <= start + MAX_HEAP && InBlocks(held, b, first, brk) && index in held
    requires forall i, j {:trigger held[i], held[j]} | i in held && j in held && i != j :: held[i].ptr != held[j].ptr
    requires LiveKept(w, w', b - {held[index].ptr})
    ensures FilledOk(s', start, held - {index})
  {
    var rest, c := held - {index}, b - {held[index].ptr};
    forall i | i in rest ensures Filled(s, start, rest[i], i % 256) {
      assert Filled(s, start, held[i], i % 256);
    }
    forall i | i in rest
      ensures rest[i].ptr in c && c[rest[i].ptr].used && 0 < rest[i].size <= c[rest[i].ptr].size - 8
      ensures BlockOk(c, first, brk, rest[i].ptr)
    {
      assert rest[i] == held[i] && held[i].ptr != held[index].ptr && BlockOk(b, first, brk, held[i].ptr);
    }
    FilledKept(w, w', s, s', start, rest, c, first, brk);
  }

  /** After a reallocation the bytes that still fit are those that were there. */
  lemma ResizedFilled(held: map<int, Held>, index: int, w: map<int, Word>, w': map<int, Word>, s: seq<Byte>,
                      s': seq<Byte>,
                      start: int, b: Blocks, c: Blocks, first: int, brk: int, brk': int, r: int, size: int)
    requires View(w, s, start) && View(w', s', start) && FilledOk(s, start, held)
    requires start <= first && brk <= start + MAX_HEAP && InBlocks(held, b, first, brk) && index in held
    requires forall i, j {:trigger held[i], held[j]} | i in held && j in held && i != j :: held[i].ptr != held[j].ptr
    requires size > 0 && Reallocated(w, w', b, c, held[index].ptr, r, size)
    requires Tiled(c, first, brk') && brk' <= start + MAX_HEAP
    ensures FilledOk(s', start, held - {index})
    ensures Filled(s', start, Held(r, Min(held[index].size, size)), index % 256)
  {
    var p := held[index].ptr;
    OthersFilled(held, index, w, w', s, s', start, b, first, brk);
    assert r in LiveOf(c) && BlockOk(b, first, brk, p) && BlockOk(c, first, brk', r);
    assert Filled(s, start, held[index], index % 256);
    var n := Min(b[p].size, c[r].size) - 8;
    forall a | r - start <= a < r - start + Min(held[index].size, size) && 0 <= a < |s'| ensures s'[a] == index % 256 {
      KeptBytes(w, w', s, s', start, p, r, n, a + start - r);
      assert s[p + (a + start - r) - start] == index % 256;
    }
  }

  /** A reallocation moves or resizes one request, and leaves the others. */
  lemma HeldMoved(held: map<int, Held>, live: map<int, int>, live': map<int, int>, index: int, r: int, size: int)
    requires HeldOk(held, live) && index in held && size > 0 && Regranted(live, live', held[index].ptr, r, size)
    ensures HeldOk((held - {index})[index := Held(r, size)], live')
  {
    HeldFree(held, live, index);
    HeldAlloc(held - {index}, live - {held[index].ptr}, live', index, r, size);
  }

  /** Where a live request lies, for a call that is about to name it. */
  lemma HeldRequest(a: Allocator, held: map<int, Held>, index: int)
    requires a.Valid() && HeldOk(held, LiveOf(a.blocks)) && index in held
    ensures var h := held[index];
            && h.ptr in LiveOf(a.blocks) && h.ptr != 0 && h.size > 0
            && a.InHeap(h.ptr - 4) && AdjustedSize(h.size) <= a.blocks[h.ptr].size
  {
    assert HeldIn(held, LiveOf(a.blocks), index);
    a.BlockWords(held[index].ptr);
    AdjustedLeast(held[index].size, a.blocks[held[index].ptr].size);
  }

  /** What becomes of an operation: its checks pass, one fails and eval_mm_valid returns 0, or it is a call of
      mm_realloc in which a comparison wraps, which is where the model stops. */
  datatype Outcome = Passed | Failed | Stuck

  /** Neither a free block nor more heap can take a request of `size` bytes. */
  ghost predicate NoRoom(a: Allocator, size: int)
    reads a, a.mem
  {
    NoFit(a.blocks, AdjustedSize(size)) && a.mem.brk + Growth(size) > a.mem.start + MAX_HEAP
  }

  /** The reallocation of `p` cannot be met: the block has to move, and there is no room for it. */
  ghost predicate Refused(a: Allocator, p: int, size: int)
    reads a, a.mem
  {
    p in a.blocks && Moves(a.blocks, p, size) && NoRoom(a, size)
  }

  /** The reallocation of `p` is of the kind that leaves two adjacent free blocks in a heap that has none. */
  ghost predicate Gap(a: Allocator, p: int, size: int)
    reads a
  {
    p in a.blocks && LeavesGap(a.blocks, p, size)
  }

  /** A comparison wraps in the reallocation of `p`. */
  ghost predicate Unguarded(a: Allocator, p: int, size: int)
    reads a
  {
    p in a.blocks && !ReallocSafe(a.blocks, p, size)
  }

  /** What the allocator makes of an operation on the block at `p`. */
  ghost function Fate(a: Allocator, p: int, op: Op): Outcome
    reads a, a.mem
  {
    match op
    case Alloc(_, size) => if NoRoom(a, size) then Failed else Passed
    case Realloc(_, size) => if Unguarded(a, p, size) then Stuck else if Refused(a, p, size) then Failed else Passed
    case Free(_) => Passed
  }

  /** An operation that asks for no larger a block stays inside the model, and one for which there is room is met. */
  lemma Decided(a: Allocator, held: map<int, Held>, p: int, live: map<int, int>, op: Op)
    requires a.Valid() && HeldOk(held, LiveOf(a.blocks))
    requires op.Realloc? ==> op.index in held && held[op.index].ptr == p
    requires op.Realloc? ==> op.index in live && held[op.index].size == live[op.index]
    ensures Shrinks(live, op) || !op.Realloc? ==> Fate(a, p, op) != Stuck
    ensures Fate(a, p, op) == Failed ==> !op.Free? && a.mem.brk + Growth(op.size) > a.mem.start + MAX_HEAP
  {
    if op.Realloc? {
      HeldRequest(a, held, op.index);
    }
  }

  class Driver {
    const alloc: Allocator
    const list: RangeList
    const ptrs: array<int>
    const sizes: array<int>
    ghost var held: map<int, Held>

    /** How many calls were of the kind that leaves two adjacent free blocks in a heap that has none. */
    ghost var gaps: nat

    /** The parts of the driver are separate objects. */
    ghost predicate Separate()
      reads this
    {
      && ptrs.Length == sizes.Length && ptrs != sizes
      && ptrs as object != alloc.mem.data && sizes as object != alloc.mem.data
    }

    constructor (a: Allocator, numIds: nat)
      ensures alloc == a && Separate() && ptrs.Length == numIds && fresh(list) && fresh(ptrs) && fresh(sizes)
    {
      alloc := a;
      list := new RangeList();
      ptrs := new int[numIds];
      sizes := new int[numIds];
      held, gaps := map[], 0;
    }

    /** The trace's arrays name the requests in `held`, and no other is live. */
    ghost predicate ArraysOk(live: map<int, int>)
      reads this, ptrs, sizes
    {
      && ptrs.Length == sizes.Length && held.Keys == live.Keys
      && (forall i {:trigger held[i]} | i in held ::
            0 <= i < ptrs.Length && ptrs[i] == held[i].ptr && sizes[i] == held[i].size == live[i])
    }

    /** The allocator, the range list, the bytes and the trace's arrays agree on the requests in `live`. */
    ghost predicate Inv(live: map<int, int>)
      reads this, alloc, alloc.mem, alloc.mem.data, list, ptrs, sizes
    {
      && Separate() && alloc.Valid() && (gaps == 0 ==> Compact(alloc.blocks))
      && HeldOk(held, LiveOf(alloc.blocks))
      && RangesOk(list.ranges, held)
      && FilledOk(alloc.mem.data[..], alloc.mem.start, held)
      && ArraysOk(live)
    }

    /** What decides the outcome of an operation, in the state before it. */
    ghost function Verdict(op: Op): Outcome
      requires 0 <= op.index < ptrs.Length
      reads alloc, alloc.mem, ptrs
    {
      var fate := Fate(alloc, ptrs[op.index], op);
      if fate == Passed && Misread(op) then Failed else fate
    }

    /** Where the live requests lie, in words and in bytes. */
    lemma Views(live: map<int, int>)
      requires Inv(live)
      ensures View(alloc.mem.words, alloc.mem.data[..], alloc.mem.start)
      ensures InBlocks(held, alloc.blocks, First(alloc.heapListp), alloc.mem.brk)
      ensures alloc.mem.start <= First(alloc.heapListp) && alloc.mem.brk <= alloc.mem.start + MAX_HEAP
    {
      alloc.mem.WordView();
      HeldBlocks(held, alloc.blocks, First(alloc.heapListp), alloc.mem.brk);
    }

    /** add_range on a new payload never fails. */
    method NewRange(ghost rest: map<int, Held>, ghost index: int, p: int, size: int) returns (ok: int)
      requires alloc.Valid() && index !in rest && RangesOk(list.ranges, rest)
      requires HeldOk(rest[index := Held(p, size)], LiveOf(alloc.blocks))
      modifies list
      ensures ok == 1 && list.ranges == [RangeOf(Held(p, size))] + old(list.ranges)
      ensures RangesOk(list.ranges, rest[index := Held(p, size)])
    {
      ghost var h, first := Held(p, size), First(alloc.heapListp);
      ghost var hs := rest[index := h];
      HeldBlocks(hs, alloc.blocks, first, alloc.mem.brk);
      assert hs[index] == h && BlockOk(alloc.blocks, first, alloc.mem.brk, p);
      forall j | j in rest
        ensures rest[j].ptr in alloc.blocks && rest[j].ptr != p
        ensures 0 < rest[j].size <= alloc.blocks[rest[j].ptr].size - 8
      {
        assert hs[j] == rest[j];
      }
      NewRangeClear(list.ranges, rest, alloc.blocks, first, alloc.mem.brk, p, size);
      RangesAlloc(list.ranges, rest, index, h);
      ok := list.AddRange(p, size, alloc.mem.HeapLo(), alloc.mem.HeapHi());
    }

    /** The memset of a payload with the low byte of its index. */
    method Fill(ghost rest: map<int, Held>, index: int, p: int, size: int)
      requires alloc.Valid() && index !in rest
      requires HeldOk(rest[index := Held(p, size)], LiveOf(alloc.blocks))
      requires FilledOk(alloc.mem.data[..], alloc.mem.start, rest)
      modifies alloc.mem`words, alloc.mem.data
      ensures alloc.Valid() && FilledOk(alloc.mem.data[..], alloc.mem.start, rest[index := Held(p, size)])
    {
      ghost var h, first, start := Held(p, size), First(alloc.heapListp), alloc.mem.start;
      ghost var hs, w0, s0 := rest[index := h], alloc.mem.words, alloc.mem.data[..];
      HeldBlocks(hs, alloc.blocks, first, alloc.mem.brk);
      assert hs[index] == h && BlockOk(alloc.blocks, first, alloc.mem.brk, p);
      assert InBlocks(rest, alloc.blocks, first, alloc.mem.brk) by {
        assert forall j :: j in rest ==> hs[j] == rest[j];
      }
      HeldApart(rest, alloc.blocks, first, alloc.mem.brk, p, size);
      assert forall j :: j in rest ==> hs[j] == rest[j] && rest[j].ptr != hs[index].ptr;
      alloc.mem.Memset(p, index % 256, size);
      alloc.PayloadWritten(w0, p, p - 3, p + size);
      FilledNew(s0, alloc.mem.data[..], start, rest, index, h);
    }

    /** Fills a payload, and remembers where it is. */
    method Remember(ghost rest: map<int, Held>, index: int, p: int, size: int, ghost live: map<int, int>)
      requires Separate() && alloc.Valid() && (gaps == 0 ==> Compact(alloc.blocks))
      requires index !in rest && 0 <= index < ptrs.Length
      requires HeldOk(rest[index := Held(p, size)], LiveOf(alloc.blocks))
      requires RangesOk(list.ranges, rest[index := Held(p, size)])
      requires FilledOk(alloc.mem.data[..], alloc.mem.start, rest)
      requires rest.Keys == live.Keys - {index}
      requires forall i {:trigger rest[i]} | i in rest ::
                 0 <= i < ptrs.Length && ptrs[i] == rest[i].ptr && sizes[i] == rest[i].size == live[i]
      modifies `held, alloc.mem`words, alloc.mem.data, ptrs, sizes
      ensures Inv(live[index := size])
    {
      Fill(rest, index, p, size);
      ptrs[index] := p;
      sizes[index] := size;
      held := rest[index := Held(p, size)];
    }

    /** The call of mm_malloc, and what it leaves of the requests. */
    method Obtain(ghost index: int, size: int, ghost live: map<int, int>) returns (p: int)
      requires Inv(live) && OpOk(live, ptrs.Length, Alloc(index, size)) && Reachable(alloc.mem.start, size)
      modifies alloc`blocks, alloc`lists, alloc`listed, alloc.mem`words, alloc.mem`brk, alloc.mem.data
      ensures p == 0 <==> old(NoRoom(alloc, size))
      ensures p == 0 ==> Inv(live) && alloc.blocks == old(alloc.blocks) && alloc.mem.brk == old(alloc.mem.brk)
      ensures old(alloc.mem.brk) <= alloc.mem.brk <= old(alloc.mem.brk) + Growth(size)
      ensures p != 0 ==>
                && alloc.Valid() && (gaps == 0 ==> Compact(alloc.blocks))
                && HeldOk(held[index := Held(p, size)], LiveOf(alloc.blocks))
                && FilledOk(alloc.mem.data[..], alloc.mem.start, held)
    {
      ghost var b0, w0, s0, brk0 := alloc.blocks, alloc.mem.words, alloc.mem.data[..], alloc.mem.brk;
      Views(live);
      p := alloc.MmMalloc(size);
      if p != 0 {
        alloc.mem.WordView();
        FilledKept(w0, alloc.mem.words, s0, alloc.mem.data[..], alloc.mem.start, held, b0,
                   First(alloc.heapListp), brk0);
        HeldAlloc(held, LiveOf(b0), LiveOf(alloc.blocks), index, p, size);
      }
    }

    /** The ALLOC case of eval_mm_valid; the result is false when it returns 0, and then nothing has changed. */
    method DoAlloc(index: int, size: int, ghost live: map<int, int>) returns (ok: bool)
      requires Inv(live) && OpOk(live, ptrs.Length, Alloc(index, size)) && Reachable(alloc.mem.start, size)
      modifies this, alloc`blocks, alloc`lists, alloc`listed, alloc.mem`words, alloc.mem`brk, alloc.mem.data
      modifies list, ptrs, sizes
      ensures ok <==> !old(NoRoom(alloc, size))
      ensures ok ==> Inv(live[index := size]) && gaps == old(gaps)
      ensures ok ==> old(alloc.mem.brk) <= alloc.mem.brk <= old(alloc.mem.brk) + Growth(size)
      ensures !ok ==> Inv(live) && NoRoom(alloc, size) && gaps == old(gaps)
      ensures !ok ==> alloc.mem.brk == old(alloc.mem.brk) && alloc.blocks == old(alloc.blocks)
    {
      var p := Obtain(index, size, live);
      if p == 0 {
        return false;
      }
      var added := NewRange(held, index, p, size);
      if added == 0 {
        return false;
      }
      Remember(held, index, p, size, live);
      ok := true;
    }

    /** The FREE case of eval_mm_valid. */
    method DoFree(index: int, ghost live: map<int, int>)
      requires Inv(live) && OpOk(live, ptrs.Length, Free(index))
      modifies this, alloc`blocks, alloc`lists, alloc`listed, alloc.mem`words, alloc.mem.data, list
      ensures Inv(live - {index}) && gaps == old(gaps)
    {
      ghost var first, b0, w0, s0 := First(alloc.heapListp), alloc.blocks, alloc.mem.words, alloc.mem.data[..];
      ghost var rest := held - {index};
      HeldRequest(alloc, held, index);
      alloc.mem.WordView();
      HeldBlocks(held, b0, first, alloc.mem.brk);
      HeldFree(held, LiveOf(b0), index);
      RangesFree(list.ranges, held, index);
      var p := ptrs[index];
      list.RemoveRange(p);
      alloc.MmFree(p);
      alloc.mem.WordView();
      OthersFilled(held, index, w0, alloc.mem.words, s0, alloc.mem.data[..], alloc.mem.start, b0, first, alloc.mem.brk);
      held := rest;
    }

    /** The test of eval_mm_valid that the bytes of a payload survived, on signed chars. */
    method CheckBytes(p: int, n: int, v: int) returns (same: bool)
      requires alloc.mem.Valid() && alloc.mem.start <= p && 0 <= n && p + n <= alloc.mem.brk
      ensures same <==> forall a {:trigger alloc.mem.data[a]} ::
                          p - alloc.mem.start <= a < p - alloc.mem.start + n ==> SignedChar(alloc.mem.data[a]) == v
    {
      for j := 0 to n
        invariant forall a {:trigger alloc.mem.data[a]} ::
                    p - alloc.mem.start <= a < p - alloc.mem.start + j ==> SignedChar(alloc.mem.data[a]) == v
      {
        if SignedChar(alloc.mem.ByteAt(p + j)) != v {
          return false;
        }
      }
      return true;
    }

    /** The call of mm_realloc, as the driver sees it. */
    method Reallocate(oldp: int, size: int) returns (newp: int)
      requires alloc.Valid() && oldp in LiveOf(alloc.blocks) && 0 < size <= MAX_REQUEST
      requires Reachable(alloc.mem.start, size) && !Unguarded(alloc, oldp, size)
      modifies alloc`blocks, alloc`lists, alloc`listed, alloc.mem`words, alloc.mem`brk, alloc.mem.data
      ensures alloc.Valid() && (newp == 0 <==> old(Refused(alloc, oldp, size)))
      ensures newp == 0 ==>
                && alloc.mem.brk == old(alloc.mem.brk) && alloc.mem.words == old(alloc.mem.words)
                && alloc.mem.data[..] == old(alloc.mem.data[..]) && alloc.blocks == old(alloc.blocks)
      ensures newp != 0 ==> Reallocated(old(alloc.mem.words), alloc.mem.words, old(alloc.blocks), alloc.blocks,
                                        oldp, newp, size)
      ensures old(alloc.mem.brk) <= alloc.mem.brk <= old(alloc.mem.brk) + Growth(size)
      ensures Compact(old(alloc.blocks)) ==> (Compact(alloc.blocks) <==> !old(Gap(alloc, oldp, size)))
    {
      alloc.NullNotLive();
      newp := alloc.MmRealloc(oldp, size);
    }

    /** The call of mm_realloc, and what it leaves of the requests. */
    method Resize(index: int, size: int, ghost live: map<int, int>) returns (newp: int)
      requires Inv(live) && OpOk(live, ptrs.Length, Realloc(index, size)) && Reachable(alloc.mem.start, size)
      requires !Unguarded(alloc, ptrs[index], size)
      modifies `gaps, alloc`blocks, alloc`lists, alloc`listed, alloc.mem`words, alloc.mem`brk, alloc.mem.data
      ensures newp == 0 <==> old(Refused(alloc, ptrs[index], size))
      ensures newp == 0 ==> Inv(live) && alloc.blocks == old(alloc.blocks) && alloc.mem.brk == old(alloc.mem.brk)
      ensures old(alloc.mem.brk) <= alloc.mem.brk <= old(alloc.mem.brk) + Growth(size)
      ensures newp != 0 ==>
                && alloc.Valid() && (gaps == 0 ==> Compact(alloc.blocks))
                && HeldOk((held - {index})[index := Held(newp, size)], LiveOf(alloc.blocks))
                && FilledOk(alloc.mem.data[..], alloc.mem.start, held - {index})
                && Filled(alloc.mem.data[..], alloc.mem.start, Held(newp, Min(held[index].size, size)), index % 256)
      ensures gaps == old(gaps) + if old(Gap(alloc, ptrs[index], size)) then 1 else 0
    {
      ghost var b0, w0, s0, brk0 := alloc.blocks, alloc.mem.words, alloc.mem.data[..], alloc.mem.brk;
      HeldRequest(alloc, held, index);
      Views(live);
      gaps := gaps + if Gap(alloc, ptrs[index], size) then 1 else 0;
      var oldp := ptrs[index];
      newp := Reallocate(oldp, size);
      if newp != 0 {
        alloc.mem.WordView();
        ResizedFilled(held, index, w0, alloc.mem.words, s0, alloc.mem.data[..], alloc.mem.start, b0, alloc.blocks,
                      First(alloc.heapListp), brk0, alloc.mem.brk, newp, size);
        HeldMoved(held, LiveOf(b0), LiveOf(alloc.blocks), index, newp, size);
      }
    }

    /** The REALLOC case of eval_mm_valid, for a call in which no comparison wraps; the result is false when it
        returns 0: when the request cannot be met, or when the fill byte is negative as a char. */
    method DoRealloc(index: int, size: int, ghost live: map<int, int>) returns (ok: bool)
      requires Inv(live) && OpOk(live, ptrs.Length, Realloc(index, size)) && Reachable(alloc.mem.start, size)
      requires !Unguarded(alloc, ptrs[index], size)
      modifies this, alloc`blocks, alloc`lists, alloc`listed, alloc.mem`words, alloc.mem`brk, alloc.mem.data
      modifies list, ptrs, sizes
      ensures ok <==> !Misread(Realloc(index, size)) && !old(Refused(alloc, ptrs[index], size))
      ensures ok ==> Inv(live[index := size])
      ensures old(alloc.mem.brk) <= alloc.mem.brk <= old(alloc.mem.brk) + Growth(size)
      ensures !ok && !Misread(Realloc(index, size)) ==>
                Inv(live) && alloc.blocks == old(alloc.blocks) && ptrs[index] == old(ptrs[index])
      ensures gaps == old(gaps) + if old(Gap(alloc, ptrs[index], size)) then 1 else 0
    {
      HeldRequest(alloc, held, index);
      var oldp := ptrs[index];
      var newp := Resize(index, size, live);
      if newp == 0 {
        return false;
      }
      ok := Accept(index, oldp, newp, size, live);
    }

    /** The checks of a reallocated request, and the bookkeeping when they pass. */
    method Accept(index: int, oldp: int, newp: int, size: int, ghost live: map<int, int>) returns (ok: bool)
      requires Separate() && alloc.Valid() && (gaps == 0 ==> Compact(alloc.blocks)) && ArraysOk(live)
      requires index in held && oldp == held[index].ptr && 0 < held[index].size && size > 0
      requires forall j, k {:trigger held[j], held[k]} | j in held && k in held && j != k :: held[j].ptr != held[k].ptr
      requires RangesOk(list.ranges, held)
      requires HeldOk((held - {index})[index := Held(newp, size)], LiveOf(alloc.blocks))
      requires FilledOk(alloc.mem.data[..], alloc.mem.start, held - {index})
      requires Filled(alloc.mem.data[..], alloc.mem.start, Held(newp, Min(held[index].size, size)), index % 256)
      modifies `held, list, alloc.mem`words, alloc.mem.data, ptrs, sizes
      ensures ok <==> !Misread(Realloc(index, size))
      ensures ok ==> Inv(live[index := size])
    {
      ghost var rest := held - {index};
      RangesFree(list.ranges, held, index);
      list.RemoveRange(oldp);
      var added := NewRange(rest, index, newp, size);
      if added == 0 {
        return false;
      }
      var oldsize := sizes[index];
      if size < oldsize {
        oldsize := size;
      }
      ok := BytesSurvived(index, newp, oldsize, size);
      if ok {
        Remember(rest, index, newp, size, live);
      }
    }

    /** The comparison of the old bytes succeeds unless the fill byte is negative as a char. */
    method BytesSurvived(index: int, p: int, n: int, ghost size: int) returns (same: bool)
      requires alloc.Valid() && index in held && 0 < n <= size
      requires HeldOk((held - {index})[index := Held(p, size)], LiveOf(alloc.blocks))
      requires Filled(alloc.mem.data[..], alloc.mem.start, Held(p, n), index % 256)
      ensures same <==> !Misread(Realloc(index, size))
    {
      ghost var hs, start := (held - {index})[index := Held(p, size)], alloc.mem.start;
      HeldBlocks(hs, alloc.blocks, First(alloc.heapListp), alloc.mem.brk);
      assert hs[index] == Held(p, size) && BlockOk(alloc.blocks, First(alloc.heapListp), alloc.mem.brk, p);
      same := CheckBytes(p, n, index % 256);
      assert forall a :: p - start <= a < p - start + n ==> alloc.mem.data[..][a] == alloc.mem.data[a] == index % 256;
      assert alloc.mem.data[p - start] == index % 256;
    }

    /** The preparations of eval_mm_valid; the result is that of mm_init. */
    method Prepare() returns (inited: int)
      requires Separate() && alloc.mem.Valid()
      modifies this, alloc, alloc.mem, alloc.mem.data, list
      ensures inited == 0 && Inv(map[]) && alloc.mem.brk == alloc.mem.start + 112 + CHUNKSIZE && gaps == 0
    {
      alloc.mem.ResetBrk();
      list.ClearRanges();
      inited := alloc.MmInit();
      held, gaps := map[], 0;
      assert LiveOf(alloc.blocks) == map[];
    }

    /** One operation of a trace. Its outcome is the one the state before it decides; an operation that fails for
        want of room, or at which the model stops, leaves that state as it was. */
    method Step(op: Op, ghost live: map<int, int>) returns (outcome: Outcome)
      requires Inv(live) && OpOk(live, ptrs.Length, op) && (!op.Free? ==> Reachable(alloc.mem.start, op.size))
      modifies this, alloc`blocks, alloc`lists, alloc`listed, alloc.mem`words, alloc.mem`brk, alloc.mem.data
      modifies list, ptrs, sizes
      ensures outcome == old(Verdict(op))
      ensures outcome == Passed ==> Inv(Apply(live, op)) && old(alloc.mem.brk) <= alloc.mem.brk
      ensures outcome == Passed ==> alloc.mem.brk <= old(alloc.mem.brk) + if op.Free? then 0 else Growth(op.size)
      ensures outcome != Passed && !Misread(op) ==> Inv(live) && Verdict(op) == outcome
      ensures outcome == Stuck ==> Inv(live) && Verdict(op) == Stuck
      ensures outcome == Passed && (op.Realloc? ==> Shrinks(live, op)) ==> gaps == old(gaps)
    {
      var ok;
      match op
      case Alloc(index, size) =>
        ok := DoAlloc(index, size, live);
        outcome := if ok then Passed else Failed;
      case Realloc(index, size) =>
        HeldRequest(alloc, held, index);
        var safe := alloc.InGuards(ptrs[index], size);
        if safe {
          ok := DoRealloc(index, size, live);
          outcome := if ok then Passed else Failed;
        } else {
          outcome := Stuck;
        }
      case Free(index) =>
        DoFree(index, live);
        outcome := Passed;
    }

    /** The first `n` operations have passed. */
    ghost predicate Reached(ops: seq<Op>, n: nat)
      reads this, alloc, alloc.mem, alloc.mem.data, list, ptrs, sizes
    {
      && n <= |ops| && Inv(LiveAfter(ops, n))
      && 112 + CHUNKSIZE <= alloc.mem.HeapSize() <= Budget(ops, n)
      && (forall k {:trigger ops[k]} :: 0 <= k < n ==> !Misread(ops[k]))
      && (NoGrowth(ops) ==> gaps == 0)
    }

    /** Operation `n` is the first that does not pass, and why: it is a reallocation whose fill byte is negative as
        a char, or the state before it, which is still there, decides so. */
    ghost predicate StoppedAt(ops: seq<Op>, n: nat, outcome: Outcome)
      reads this, alloc, alloc.mem, alloc.mem.data, list, ptrs, sizes
    {
      && n < |ops| && OpOk(LiveAfter(ops, n), ptrs.Length, ops[n])
      && (forall k {:trigger ops[k]} :: 0 <= k < n ==> !Misread(ops[k]))
      && ((outcome == Failed && Misread(ops[n]))
          || (Inv(LiveAfter(ops, n)) && Verdict(ops[n]) == outcome))
      && (outcome == Stuck ==> !NoGrowth(ops))
      && (outcome == Failed && !Misread(ops[n]) ==> Budget(ops, |ops|) > MAX_HEAP)
    }

    /** eval_mm_valid, with the number of the operation it stops at. It accepts a trace unless an operation fails
        for want of room, or is a reallocation whose fill byte is negative as a char; the model stops at a call of
        mm_realloc in which a comparison wraps. */
    method EvalMmValid(ops: seq<Op>) returns (outcome: Outcome, n: nat)
      requires Separate() && alloc.mem.Valid() && WellFormed(ops, ptrs.Length) && InReach(ops, alloc.mem.start)
      modifies this, alloc, alloc.mem, alloc.mem.data, list, ptrs, sizes
      ensures outcome == Passed ==> n == |ops| && Reached(ops, n)
      ensures outcome != Passed ==> StoppedAt(ops, n, outcome)
      ensures outcome == Passed && LiveAfter(ops, |ops|) == map[] && gaps == 0 ==> OneFreeBlock()
    {
      n := 0;
      var inited := Prepare();
      if inited < 0 {
        outcome := Failed;
        return;
      }
      while n < |ops|
        invariant Reached(ops, n)
      {
        outcome := Interpret(ops, n);
        if outcome != Passed {
          return;
        }
        n := n + 1;
      }
      NothingHeld(LiveAfter(ops, |ops|));
      return Passed, n;
    }

    /** One turn of the loop of eval_mm_valid. */
    method Interpret(ops: seq<Op>, n: nat) returns (outcome: Outcome)
      requires n < |ops| && Reached(ops, n) && WellFormed(ops, ptrs.Length) && InReach(ops, alloc.mem.start)
      modifies this, alloc`blocks, alloc`lists, alloc`listed, alloc.mem`words, alloc.mem`brk, alloc.mem.data
      modifies list, ptrs, sizes
      ensures if outcome == Passed then Reached(ops, n + 1) else StoppedAt(ops, n, outcome)
    {
      ghost var live := LiveAfter(ops, n);
      assert OpOkAt(ops, n, ptrs.Length) && (NoGrowth(ops) ==> ShrinksAt(ops, n));
      Decided(alloc, held, ptrs[ops[n].index], live, ops[n]);
      BudgetGrows(ops, n + 1, |ops|);
      outcome := Step(ops[n], live);
    }

    /** The whole heap is one free block, alone in the lists. */
    ghost predicate OneFreeBlock()
      reads this, alloc, alloc.mem
    {
      var size := alloc.mem.HeapSize() - 112;
      && alloc.blocks == map[First(alloc.mem.start) := Block(size, false)]
      && |alloc.lists| == N_SEGLIST
      && forall i :: 0 <= i < N_SEGLIST ==> alloc.lists[i] == if i == Level(size) then [First(alloc.mem.start)] else []
    }

    /** When every request has been freed, in whatever order, all of the heap is joined again, unless some
        reallocation has left a gap. */
    lemma NothingHeld(live: map<int, int>)
      requires Inv(live) && alloc.mem.HeapSize() > 112
      ensures live == map[] && gaps == 0 ==> OneFreeBlock()
    {
      if live == map[] && gaps == 0 {
        forall p
          ensures p !in LiveOf(alloc.blocks)
        {
          assert p in LiveOf(alloc.blocks) ==> Owned(held, p);
        }
        assert LiveOf(alloc.blocks) == map[];
        EverythingFreed(alloc.mem.words, alloc.blocks, alloc.lists, alloc.mem.start, alloc.mem.brk);
      }
    }
  }

  /** A correct trace that eval_mm_valid rejects: the block of index 128 keeps its byte, and the comparison of that
      byte fails. */
  method MisreadTrace(d: Driver) returns (outcome: Outcome, n: nat)
    requires d.Separate() && d.alloc.mem.Valid() && d.ptrs.Length == 129 && Reachable(d.alloc.mem.start, 1)
    modifies d, d.alloc, d.alloc.mem, d.alloc.mem.data, d.list, d.ptrs, d.sizes
    ensures outcome == Failed && n == 1
  {
    var ops := [Alloc(128, 1), Realloc(128, 1)];
    assert LiveAfter(ops, 0) == map[] && LiveAfter(ops, 1) == map[128 := 1];
    assert OpOkAt(ops, 0, 129) && OpOkAt(ops, 1, 129) && ShrinksAt(ops, 0) && ShrinksAt(ops, 1) && Misread(ops[1]);
    assert Budget(ops, 0) == 112 + CHUNKSIZE && Budget(ops, 1) == Budget(ops, 0) + CHUNKSIZE;
    assert Budget(ops, 2) == Budget(ops, 1) + CHUNKSIZE;
    outcome, n := d.EvalMmValid(ops);
  }
}
