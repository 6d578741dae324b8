/** The space accounting of mdriver.c: the high-water mark of live requests fits in the heap. */
module Mutil {
  import opened MemLib
  import opened BlockMap
  import opened SegList
  import opened Heap
  import opened Layout
  import opened Mm
  import opened Mdriver

  // ---------- sums ----------

  lemma {:induction false} SumPut(m: map<int, int>, m': map<int, int>, lo: int, hi: int, k: int, v: int)
    requires m' == m[k := v]
    ensures SumOver(m', lo, hi) ==
            if lo <= k < hi then SumOver(m, lo, hi) + v - (if k in m then m[k] else 0) else SumOver(m, lo, hi)
    decreases hi - lo
  {
    if lo < hi {
      SumPut(m, m', lo, hi - 1, k, v);
    }
  }

  lemma {:induction false} SumDrop(m: map<int, int>, m': map<int, int>, lo: int, hi: int, k: int)
    requires k in m && m' == m - {k}
    ensures SumOver(m', lo, hi) == if lo <= k < hi then SumOver(m, lo, hi) - m[k] else SumOver(m, lo, hi)
    decreases hi - lo
  {
    if lo < hi {
      SumDrop(m, m', lo, hi - 1, k);
    }
  }

  lemma {:induction false} SumSubmap(m: map<int, int>, n: map<int, int>, lo: int, hi: int)
    requires forall k {:trigger m[k]} {:trigger k in m} :: k in m ==> k in n && m[k] == n[k]
    requires forall k {:trigger n[k]} :: k in n ==> n[k] >= 0
    ensures SumOver(m, lo, hi) <= SumOver(n, lo, hi)
    decreases hi - lo
  {
    if lo < hi {
      SumSubmap(m, n, lo, hi - 1);
    }
  }

  // ---------- requests against blocks ----------

  /** The blocks of the requests with index below `k`. */
  ghost function BlocksBelow(held: map<int, Held>, live: map<int, int>, k: int): map<int, int> {
    map p | p in live && OwnedBelow(held, p, k) :: live[p]
  }

  ghost predicate OwnedBelow(held: map<int, Held>, p: int, k: int) {
    exists i {:trigger held[i]} :: i in held && i < k && held[i].ptr == p
  }

  lemma OneMore(held: map<int, Held>, live: map<int, int>, k: int)
    requires HeldOk(held, live)
    ensures k in held ==> held[k].ptr in live && held[k].ptr !in BlocksBelow(held, live, k)
    ensures BlocksBelow(held, live, k + 1) ==
            var below := BlocksBelow(held, live, k);
            if k in held then below[held[k].ptr := live[held[k].ptr]] else below
  {
    assert k in held ==> HeldIn(held, live, k);
    forall p ensures OwnedBelow(held, p, k + 1) <==> OwnedBelow(held, p, k) || (k in held && held[k].ptr == p) {
    }
  }

  lemma {:induction false} RequestsFitBelow(held: map<int, Held>, sizes: map<int, int>, live: map<int, int>, lo: int,
                                            hi: int, k: nat)
    requires HeldOk(held, live) && held.Keys == sizes.Keys
    requires forall i {:trigger held[i]} :: i in held ==> held[i].size == sizes[i]
    requires forall p {:trigger p in live} :: p in live ==> lo <= p < hi
    ensures SumOver(sizes, 0, k) <= SumOver(BlocksBelow(held, live, k), lo, hi)
  {
    if k == 0 {
      BlocksNonNegative(held, live, 0);
      SumSubmap(map[], BlocksBelow(held, live, 0), lo, hi);
      SumNone(map[], lo, hi);
    } else {
      RequestsFitBelow(held, sizes, live, lo, hi, k - 1);
      OneMore(held, live, k - 1);
      if k - 1 in held {
        assert HeldIn(held, live, k - 1);
        var p := held[k - 1].ptr;
        SumPut(BlocksBelow(held, live, k - 1), BlocksBelow(held, live, k), lo, hi, p, live[p]);
      }
    }
  }

  lemma BlocksNonNegative(held: map<int, Held>, live: map<int, int>, k: int)
    requires HeldOk(held, live)
    ensures forall p {:trigger live[p]} :: p in live ==> live[p] >= 0
  {
    forall p | p in live ensures live[p] >= 0 {
      assert Owned(held, p);
      var i :| i in held && held[i].ptr == p;
      assert HeldIn(held, live, i);
    }
  }

  /** The live requests fit together in the part of the heap that holds blocks. */
  lemma RequestsFit(held: map<int, Held>, sizes: map<int, int>, b: Blocks, lo: int, brk: int, numIds: nat)
    requires Tiled(b, First(lo), brk) && HeldOk(held, LiveOf(b)) && held.Keys == sizes.Keys
    requires forall i {:trigger held[i]} :: i in held ==> held[i].size == sizes[i]
    ensures SumOver(sizes, 0, numIds) + 112 <= brk - lo
  {
    var first := First(lo);
    forall p | p in LiveOf(b) ensures first <= p < brk {
      assert BlockOk(b, first, brk, p);
    }
    RequestsFitBelow(held, sizes, LiveOf(b), first, brk, numIds);
    BlocksNonNegative(held, LiveOf(b), numIds);
    SumSubmap(BlocksBelow(held, LiveOf(b), numIds), LiveOf(b), first, brk);
    forall p | p in b ensures b[p].size >= 0 {
      assert BlockOk(b, first, brk, p);
    }
    SumSubmap(LiveOf(b), Sizes(b), first, brk);
    SizesSum(b, first, brk, brk);
  }

  // ---------- the accounting ----------

  /** The total size of the live requests after `n` operations. */
  ghost function Total(ops: seq<Op>, numIds: int, n: nat): int
    requires n <= |ops|
  {
    SumOver(LiveAfter(ops, n), 0, numIds)
  }

  /** The largest total after any allocation or reallocation among the first `n` operations. */
  ghost function HighWater(ops: seq<Op>, numIds: int, n: nat): int
    requires n <= |ops|
  {
    if n == 0 then 0
    else
      var before := HighWater(ops, numIds, n - 1);
      if ops[n - 1].Free? || Total(ops, numIds, n) <= before then before else Total(ops, numIds, n)
  }

  lemma {:induction false} LivePositive(ops: seq<Op>, numIds: int, n: nat, i: int)
    requires n <= |ops| && WellFormed(ops, numIds) && i in LiveAfter(ops, n)
    ensures LiveAfter(ops, n)[i] > 0
  {
    assert OpOkAt(ops, n - 1, numIds);
    if i != ops[n - 1].index {
      LivePositive(ops, numIds, n - 1, i);
    }
  }

  /** A total that some operation leaves is no larger than the high-water mark, though frees are not looked at. */
  lemma {:induction false} HighWaterBounds(ops: seq<Op>, numIds: int, n: nat, k: nat)
    requires k <= n <= |ops| && WellFormed(ops, numIds)
    ensures Total(ops, numIds, k) <= HighWater(ops, numIds, n)
  {
    if n == 0 {
      SumNone(map[], 0, numIds);
    } else if k < n {
      HighWaterBounds(ops, numIds, n - 1, k);
    } else {
      HighWaterBounds(ops, numIds, n - 1, n - 1);
      assert OpOkAt(ops, n - 1, numIds);
      Accounted(LiveAfter(ops, n - 1), ops[n - 1], numIds);
      if ops[n - 1].Free? {
        LivePositive(ops, numIds, n - 1, ops[n - 1].index);
      }
    }
  }

  /** It is the total that one of them leaves. */
  lemma {:induction false} HighWaterAttained(ops: seq<Op>, numIds: int, n: nat) returns (k: nat)
    requires n <= |ops|
    ensures k <= n && Total(ops, numIds, k) == HighWater(ops, numIds, n)
  {
    if n == 0 {
      k := 0;
      SumNone(map[], 0, numIds);
    } else {
      k := HighWaterAttained(ops, numIds, n - 1);
      if HighWater(ops, numIds, n) != HighWater(ops, numIds, n - 1) {
        k := n;
      }
    }
  }

  /** The largest total of live requests at any point of the first `n` operations. */
  ghost predicate LargestTotal(ops: seq<Op>, numIds: int, n: nat, most: int)
    requires n <= |ops|
  {
    && (forall k {:trigger Total(ops, numIds, k)} | 0 <= k <= n :: Total(ops, numIds, k) <= most)
    && (exists k {:trigger Total(ops, numIds, k)} :: 0 <= k <= n && Total(ops, numIds, k) == most)
  }

  lemma HighWaterLargest(ops: seq<Op>, numIds: int, n: nat)
    requires n <= |ops| && WellFormed(ops, numIds)
    ensures LargestTotal(ops, numIds, n, HighWater(ops, numIds, n))
  {
    var k := HighWaterAttained(ops, numIds, n);
    forall k | 0 <= k <= n ensures Total(ops, numIds, k) <= HighWater(ops, numIds, n) {
      HighWaterBounds(ops, numIds, n, k);
    }
  }

  class Accountant {
    const alloc: Allocator
    const ptrs: array<int>
    const sizes: array<int>
    ghost var held: map<int, Held>

    ghost predicate Separate()
      reads this
    {
      && ptrs.Length == sizes.Length && ptrs != sizes
      && ptrs as object != alloc.mem.data && sizes as object != alloc.mem.data
    }

    constructor (a: Allocator, numIds: nat)
      ensures alloc == a && Separate() && ptrs.Length == numIds && fresh(ptrs) && fresh(sizes)
    {
      alloc := a;
      ptrs := new int[numIds];
      sizes := new int[numIds];
      held := map[];
    }

    ghost predicate Inv(live: map<int, int>)
      reads this, alloc, alloc.mem, alloc.mem.data, ptrs, sizes
    {
      && Separate() && alloc.Valid()
      && HeldOk(held, LiveOf(alloc.blocks))
      && held.Keys == live.Keys
      && (forall i {:trigger held[i]} | i in held ::
            0 <= i < ptrs.Length && ptrs[i] == held[i].ptr && sizes[i] == held[i].size == live[i])
    }

    /** The call of mm_malloc; the result is false when the program gives up, and then nothing has changed. */
    method DoAlloc(index: int, size: int, ghost live: map<int, int>) returns (ok: bool)
      requires Inv(live) && OpOk(live, ptrs.Length, Alloc(index, size)) && Reachable(alloc.mem.start, size)
      modifies this, alloc`blocks, alloc`lists, alloc`listed, alloc.mem`words, alloc.mem`brk, alloc.mem.data
      modifies ptrs, sizes
      ensures ok <==> !old(NoRoom(alloc, size))
      ensures ok ==> Inv(live[index := size])
      ensures !ok ==> Inv(live) && alloc.blocks == old(alloc.blocks)
      ensures old(alloc.mem.brk) <= alloc.mem.brk <= old(alloc.mem.brk) + Growth(size)
    {
      ghost var b0 := alloc.blocks;
      var p := alloc.MmMalloc(size);
      if p == 0 {
        return false;
      }
      HeldAlloc(held, LiveOf(b0), LiveOf(alloc.blocks), index, p, size);
      Note(held, index, p, size, live);
      return true;
    }

    /** The call of mm_realloc, when no comparison in it wraps; false as above. */
    method DoRealloc(index: int, size: int, ghost live: map<int, int>) returns (ok: bool)
      requires Inv(live) && OpOk(live, ptrs.Length, Realloc(index, size)) && Reachable(alloc.mem.start, size)
      requires !Unguarded(alloc, ptrs[index], size)
      modifies this, alloc`blocks, alloc`lists, alloc`listed, alloc.mem`words, alloc.mem`brk, alloc.mem.data
      modifies ptrs, sizes
      ensures ok <==> !old(Refused(alloc, ptrs[index], size))
      ensures ok ==> Inv(live[index := size])
      ensures !ok ==> Inv(live) && alloc.blocks == old(alloc.blocks) && ptrs[index] == old(ptrs[index])
      ensures old(alloc.mem.brk) <= alloc.mem.brk <= old(alloc.mem.brk) + Growth(size)
    {
      ghost var b0 := alloc.blocks;
      HeldRequest(alloc, held, index);
      var oldp := ptrs[index];
      var newp := alloc.MmRealloc(oldp, size);
      if newp == 0 {
        return false;
      }
      HeldMoved(held, LiveOf(b0), LiveOf(alloc.blocks), index, newp, size);
      Note(held - {index}, index, newp, size, live);
      return true;
    }

    /** Remembers where a request is. */
    method Note(ghost rest: map<int, Held>, index: int, p: int, size: int, ghost live: map<int, int>)
      requires Separate() && alloc.Valid() && index !in rest && 0 <= index < ptrs.Length
      requires HeldOk(rest[index := Held(p, size)], LiveOf(alloc.blocks)) && rest.Keys == live.Keys - {index}
      requires forall i {:trigger rest[i]} | i in rest ::
                 0 <= i < ptrs.Length && ptrs[i] == rest[i].ptr && sizes[i] == rest[i].size == live[i]
      modifies `held, ptrs, sizes
      ensures Inv(live[index := size])
    {
      ptrs[index] := p;
      sizes[index] := size;
      held := rest[index := Held(p, size)];
    }

    method DoFree(index: int, ghost live: map<int, int>)
      requires Inv(live) && OpOk(live, ptrs.Length, Free(index))
      modifies this, alloc`blocks, alloc`lists, alloc`listed, alloc.mem`words, alloc.mem.data
      ensures Inv(live - {index})
    {
      HeldRequest(alloc, held, index);
      HeldFree(held, LiveOf(alloc.blocks), index);
      alloc.MmFree(ptrs[index]);
      held := held - {index};
    }

    /** One operation, as the allocator decides it. */
    method Serve(op: Op, ghost live: map<int, int>) returns (outcome: Outcome)
      requires Inv(live) && OpOk(live, ptrs.Length, op) && (!op.Free? ==> Reachable(alloc.mem.start, op.size))
      modifies this, alloc`blocks, alloc`lists, alloc`listed, alloc.mem`words, alloc.mem`brk, alloc.mem.data
      modifies ptrs, sizes
      ensures outcome == old(Fate(alloc, ptrs[op.index], op))
      ensures if outcome == Passed then Inv(Apply(live, op))
              else Inv(live) && Fate(alloc, ptrs[op.index], op) == outcome
      ensures old(alloc.mem.brk) <= alloc.mem.brk <= old(alloc.mem.brk) + if op.Free? then 0 else Growth(op.size)
    {
      var ok := true;
      match op
      case Alloc(index, size) =>
        ok := DoAlloc(index, size, live);
        outcome := if ok then Passed else Failed;
      case Realloc(index, size) =>
        HeldRequest(alloc, held, index);
        var safe := alloc.InGuards(ptrs[index], size);
        if safe {
          ok := DoRealloc(index, size, live);
          outcome := if ok then Passed else Failed;
        } else {
          outcome := Stuck;
        }
      case Free(index) =>
        DoFree(index, live);
        outcome := Passed;
    }

    /** One operation and its accounting: the new totals, if it is served. */
    method Step(op: Op, totalSize: int, maxTotalSize: int, ghost live: map<int, int>)
      returns (outcome: Outcome, total: int, high: int)
      requires Inv(live) && OpOk(live, ptrs.Length, op) && (!op.Free? ==> Reachable(alloc.mem.start, op.size))
      requires totalSize == SumOver(live, 0, ptrs.Length)
      modifies this, alloc`blocks, alloc`lists, alloc`listed, alloc.mem`words, alloc.mem`brk, alloc.mem.data
      modifies ptrs, sizes
      ensures outcome == old(Fate(alloc, ptrs[op.index], op))
      ensures if outcome == Passed then Inv(Apply(live, op))
              else Inv(live) && Fate(alloc, ptrs[op.index], op) == outcome
      ensures old(alloc.mem.brk) <= alloc.mem.brk <= old(alloc.mem.brk) + if op.Free? then 0 else Growth(op.size)
      ensures total == SumOver(Apply(live, op), 0, ptrs.Length)
      ensures high == if op.Free? || total <= maxTotalSize then maxTotalSize else total
    {
      Accounted(live, op, ptrs.Length);
      var oldsize := SizeBefore(op, live);
      outcome := Serve(op, live);
      total := match op
        case Alloc(_, size) => totalSize + size
        case Realloc(_, size) => totalSize + (size - oldsize)
        case Free(_) => totalSize - oldsize;
      high := if !op.Free? && total > maxTotalSize then total else maxTotalSize;
    }

    /** trace->block_sizes[index] */
    method SizeBefore(op: Op, ghost live: map<int, int>) returns (size: int)
      requires Inv(live) && OpOk(live, ptrs.Length, op)
      ensures !op.Alloc? ==> size == live[op.index]
    {
      assert op.index in live ==> held[op.index] == held[op.index];
      size := sizes[op.index];
    }

    /** The heap and the arrays before the first operation. */
    method Prepare() returns (inited: int)
      requires Separate() && alloc.mem.Valid()
      modifies this, alloc, alloc.mem, alloc.mem.data
      ensures inited == 0 && Inv(map[]) && alloc.mem.HeapSize() == 112 + CHUNKSIZE
    {
      alloc.mem.ResetBrk();
      inited := alloc.MmInit();
      held := map[];
      assert LiveOf(alloc.blocks) == map[];
    }

    /** The first `n` operations have been served, and accounted for. */
    ghost predicate Served(ops: seq<Op>, n: nat, totalSize: int, maxTotalSize: int)
      reads this, alloc, alloc.mem, alloc.mem.data, ptrs, sizes
    {
      && n <= |ops| && Inv(LiveAfter(ops, n))
      && totalSize == Total(ops, ptrs.Length, n) && maxTotalSize == HighWater(ops, ptrs.Length, n)
      && maxTotalSize + 112 <= alloc.mem.HeapSize() <= Budget(ops, n)
    }

    /** eval_mm_util: the largest total of live requests at any point of the trace, which is then divided by the size
        of the heap. The program gives up at an operation that cannot be met, and the model stops where a comparison
        wraps; the state before is still there. */
    method EvalMmUtil(ops: seq<Op>) returns (outcome: Outcome, n: nat, maxTotalSize: int)
      requires Separate() && alloc.mem.Valid() && WellFormed(ops, ptrs.Length) && InReach(ops, alloc.mem.start)
      modifies this, alloc, alloc.mem, alloc.mem.data, ptrs, sizes
      ensures outcome == Passed ==> n == |ops| && Inv(LiveAfter(ops, n))
      ensures outcome == Passed ==>
                && (forall k {:trigger Total(ops, ptrs.Length, k)} | 0 <= k <= |ops| ::
                      Total(ops, ptrs.Length, k) <= maxTotalSize)
                && (exists k {:trigger Total(ops, ptrs.Length, k)} ::
                      0 <= k <= |ops| && Total(ops, ptrs.Length, k) == maxTotalSize)
                && maxTotalSize + 112 <= alloc.mem.HeapSize()
      ensures outcome != Passed ==>
                n < |ops| && OpOkAt(ops, n, ptrs.Length) && Inv(LiveAfter(ops, n))
                && Fate(alloc, ptrs[ops[n].index], ops[n]) == outcome
      ensures outcome == Failed ==> Budget(ops, |ops|) > MAX_HEAP
      ensures outcome == Stuck ==> !NoGrowth(ops)
    {
      maxTotalSize, n := 0, 0;
      var totalSize := 0;
      var inited := Prepare();
      if inited < 0 {
        outcome := Failed;
        return;
      }
      SumNone(map[], 0, ptrs.Length);
      while n < |ops|
        invariant Served(ops, n, totalSize, maxTotalSize)
      {
        outcome, totalSize, maxTotalSize := Interpret(ops, n, totalSize, maxTotalSize);
        if outcome != Passed {
          return;
        }
        n := n + 1;
      }
      HighWaterLargest(ops, ptrs.Length, n);
      outcome := Passed;
    }

    /** One turn of the loop of eval_mm_util. */
    method Interpret(ops: seq<Op>, n: nat, totalSize: int, maxTotalSize: int)
      returns (outcome: Outcome, total: int, high: int)
      requires WellFormed(ops, ptrs.Length) && InReach(ops, alloc.mem.start)
      requires n < |ops| && Served(ops, n, totalSize, maxTotalSize)
      modifies this, alloc`blocks, alloc`lists, alloc`listed, alloc.mem`words, alloc.mem`brk, alloc.mem.data
      modifies ptrs, sizes
      ensures outcome == Passed ==> Served(ops, n + 1, total, high)
      ensures outcome != Passed ==>
                && OpOkAt(ops, n, ptrs.Length) && Inv(LiveAfter(ops, n))
                && Fate(alloc, ptrs[ops[n].index], ops[n]) == outcome
      ensures outcome == Failed ==> Budget(ops, |ops|) > MAX_HEAP
      ensures outcome == Stuck ==> !NoGrowth(ops)
    {
      ghost var live := LiveAfter(ops, n);
      assert OpOkAt(ops, n, ptrs.Length) && (NoGrowth(ops) ==> ShrinksAt(ops, n));
      Decided(alloc, held, ptrs[ops[n].index], live, ops[n]);
      BudgetGrows(ops, n + 1, |ops|);
      outcome, total, high := Step(ops[n], totalSize, maxTotalSize, live);
      if outcome == Passed {
        RequestsFit(held, Apply(live, ops[n]), alloc.blocks, alloc.mem.start, alloc.mem.brk, ptrs.Length);
      }
    }
  }

  /** How one operation changes the total. */
  lemma Accounted(live: map<int, int>, op: Op, numIds: int)
    requires OpOk(live, numIds, op)
    ensures SumOver(Apply(live, op), 0, numIds) ==
            match op
            case Alloc(_, size) => SumOver(live, 0, numIds) + size
            case Realloc(i, size) => SumOver(live, 0, numIds) + (size - live[i])
            case Free(i) => SumOver(live, 0, numIds) - live[i]
  {
    match op
    case Alloc(i, size) => SumPut(live, Apply(live, op), 0, numIds, i, size);
    case Realloc(i, size) => SumPut(live, Apply(live, op), 0, numIds, i, size);
    case Free(i) => SumDrop(live, Apply(live, op), 0, numIds, i);
  }
}
