/** The record mdriver.c keeps of the payloads in use: a list of address ranges. */
module Ranges {

  const ALIGNMENT: int := 8

  datatype Range = Range(lo: int, hi: int)

  /** The test add_range makes against one recorded range. */
  predicate Trips(lo: int, hi: int, r: Range) {
    (r.lo <= lo <= r.hi) || (r.lo <= hi <= r.hi)
  }

  /** Two ranges share an address. */
  predicate Overlap(lo: int, hi: int, r: Range) {
    lo <= r.hi && r.lo <= hi
  }

  /** The test misses exactly the overlaps in which the new range reaches past the old one on both sides. */
  lemma TripsExactly(lo: int, hi: int, r: Range)
    requires lo <= hi && r.lo <= r.hi
    ensures Trips(lo, hi, r) <==> Overlap(lo, hi, r) && !(lo < r.lo && r.hi < hi)
  {
  }

  lemma EnclosingRangeMissed()
    ensures Overlap(0, 23, Range(8, 15)) && !Trips(0, 23, Range(8, 15))
  {
  }

  ghost predicate Clear(ranges: seq<Range>, lo: int, hi: int) {
    forall k {:trigger ranges[k]} | 0 <= k < |ranges| :: !Trips(lo, hi, ranges[k])
  }

  /** The list without its first range that starts at `lo`. */
  ghost function Without(ranges: seq<Range>, lo: int): (out: seq<Range>)
    ensures |ranges| - 1 <= |out| <= |ranges|
  {
    if |ranges| == 0 then []
    else if ranges[0].lo == lo then ranges[1..]
    else [ranges[0]] + Without(ranges[1..], lo)
  }

  /** That is: the range at `k` is taken out if it starts at `lo` and none before it does, and nothing if none does. */
  lemma {:induction false} WithoutFirst(ranges: seq<Range>, lo: int, k: int)
    requires 0 <= k <= |ranges| && forall j {:trigger ranges[j]} | 0 <= j < k :: ranges[j].lo != lo
    ensures k < |ranges| && ranges[k].lo == lo ==> Without(ranges, lo) == ranges[..k] + ranges[k + 1..]
    ensures k == |ranges| ==> Without(ranges, lo) == ranges
  {
    if k > 0 {
      var rest := ranges[1..];
      assert forall j :: 0 <= j < k - 1 ==> rest[j] == ranges[j + 1];
      WithoutFirst(rest, lo, k - 1);
      if k < |ranges| && ranges[k].lo == lo {
        assert ranges[..k] == [ranges[0]] + rest[..k - 1] && ranges[k + 1..] == rest[k..];
      }
    }
  }

  class RangeList {
    /** The records in list order, from `*ranges` along the `next` links. */
    var ranges: seq<Range>

    constructor ()
      ensures ranges == []
    {
      ranges := [];
    }

    /** add_range: 1 and the range recorded in front, or 0 and nothing recorded. */
    method AddRange(lo: int, size: int, heapLo: int, heapHi: int) returns (ok: int)
      requires size > 0
      modifies this
      ensures var hi := lo + size - 1;
              (ok == 0 || ok == 1)
              && (ok == 1 <==>
                  && lo % 8 == 0 && heapLo <= lo <= heapHi && heapLo <= hi <= heapHi
                  && forall k {:trigger old(ranges)[k]} | 0 <= k < |old(ranges)| ::
                       var r := old(ranges)[k];
                       !(r.lo <= lo <= r.hi) && !(r.lo <= hi <= r.hi))
      ensures ranges == if ok == 1 then [Range(lo, lo + size - 1)] + old(ranges) else old(ranges)
    {
      var hi := lo + size - 1;
      if lo % ALIGNMENT != 0 {
        return 0;
      }
      if lo < heapLo || lo > heapHi || hi < heapLo || hi > heapHi {
        return 0;
      }
      var p := 0;
      while p < |ranges|
        invariant 0 <= p <= |ranges| && ranges == old(ranges)
        invariant forall k {:trigger ranges[k]} | 0 <= k < p :: !Trips(lo, hi, ranges[k])
      {
        if (lo >= ranges[p].lo && lo <= ranges[p].hi) || (hi >= ranges[p].lo && hi <= ranges[p].hi) {
          return 0;
        }
        p := p + 1;
      }
      ranges := [Range(lo, hi)] + ranges;
      return 1;
    }

    /** remove_range: unlinks the first record that starts at `lo`. */
    method RemoveRange(lo: int)
      modifies this
      ensures ranges == Without(old(ranges), lo)
    {
      var p := 0;
      while p < |ranges|
        invariant 0 <= p <= |ranges| && ranges == old(ranges)
        invariant Without(ranges, lo) == ranges[..p] + Without(ranges[p..], lo)
      {
        if ranges[p].lo == lo {
          assert ranges[p..][1..] == ranges[p + 1..];
          ranges := ranges[..p] + ranges[p + 1..];
          return;
        }
        assert ranges[p..][1..] == ranges[p + 1..];
        p := p + 1;
      }
      assert ranges[..p] == ranges;
    }

    /** clear_ranges */
    method ClearRanges()
      modifies this
      ensures ranges == []
    {
      ranges := [];
    }
  }
}
