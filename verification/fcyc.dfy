/** The K-best timing scheme (fcyc.c): measure until the k smallest samples agree, and keep only those. */
module Fcyc {
  import opened Prelude

  ghost predicate Ascending(s: seq<real>) {
    forall i, j {:trigger s[i], s[j]} :: 0 <= i < j < |s| ==> s[i] <= s[j]
  }

  /** `v` put behind the last element that is not larger. */
  ghost function Inserted(s: seq<real>, v: real): (r: seq<real>)
    ensures |r| == |s| + 1
  {
    var n := |s|;
    if n == 0 || s[n - 1] <= v then s + [v] else Inserted(s[..n - 1], v) + [s[n - 1]]
  }

  ghost function Sorted(samples: seq<real>): (r: seq<real>)
    ensures |r| == |samples|
  {
    var n := |samples|;
    if n == 0 then [] else Inserted(Sorted(samples[..n - 1]), samples[n - 1])
  }

  lemma {:induction false} InsertedSorts(s: seq<real>, v: real)
    requires Ascending(s)
    ensures Ascending(Inserted(s, v)) && multiset(Inserted(s, v)) == multiset(s) + multiset{v}
    ensures forall x :: x in Inserted(s, v) ==> x == v || x in s
  {
    var n := |s|;
    if n > 0 && s[n - 1] > v {
      var front, last := s[..n - 1], s[n - 1];
      assert s == front + [last];
      InsertedSorts(front, v);
      AppendSorts(Inserted(front, v), last);
    } else {
      AppendSorts(s, v);
    }
  }

  lemma AppendSorts(s: seq<real>, v: real)
    requires Ascending(s) && forall x :: x in s ==> x <= v
    ensures Ascending(s + [v])
  {
    forall j | 0 <= j < |s|
      ensures s[j] <= v
    {
      assert s[j] in s;
    }
  }

  lemma {:induction false} SortedSorts(samples: seq<real>)
    ensures Ascending(Sorted(samples)) && multiset(Sorted(samples)) == multiset(samples)
  {
    var n := |samples|;
    if n > 0 {
      SortedSorts(samples[..n - 1]);
      InsertedSorts(Sorted(samples[..n - 1]), samples[n - 1]);
      assert samples == samples[..n - 1] + [samples[n - 1]];
    }
  }

  /** The element that has found its place. */
  lemma {:induction false} InsertedAt(s: seq<real>, v: real, p: nat)
    requires p <= |s| && (p == 0 || s[p - 1] <= v) && forall j :: p <= j < |s| ==> s[j] > v
    ensures Inserted(s, v) == s[..p] + [v] + s[p..]
    decreases |s|
  {
    var n := |s|;
    if p < n {
      InsertedAt(s[..n - 1], v, p);
      assert s[..n - 1][..p] == s[..p];
      assert s[p..] == s[..n - 1][p..] + [s[n - 1]];
    } else {
      assert s[..p] == s && s[p..] == [];
    }
  }

  lemma Sifted(s: seq<real>, v: real, p: nat, t: seq<real>)
    requires p <= |s| && (p == 0 || s[p - 1] <= v) && forall j :: p <= j < |s| ==> s[j] > v
    requires |t| == |s| + 1 && t[p] == v
    requires forall j {:trigger s[j]} :: 0 <= j < |s| ==> t[if j < p then j else j + 1] == s[j]
    ensures t == Inserted(s, v)
  {
    InsertedAt(s, v, p);
    var u := s[..p] + [v] + s[p..];
    forall k | 0 <= k < |t|
      ensures t[k] == u[k]
    {
      var j := if k < p then k else k - 1;
      assert k != p ==> u[k] == s[j];
    }
  }

  /** The k smallest depend on the k smallest so far only. */
  lemma {:induction false} InsertedPrefix(s: seq<real>, v: real, k: nat)
    requires Ascending(s) && 1 <= k <= |s|
    ensures Inserted(s, v)[..k] == if v < s[k - 1] then Inserted(s[..k - 1], v) else s[..k]
  {
    var n := |s|;
    if n > k {
      InsertedPrefix(s[..n - 1], v, k);
      assert s[..n - 1][..k] == s[..k] && s[..n - 1][..k - 1] == s[..k - 1];
      assert s[k - 1] <= s[n - 1];
    }
  }

  /** The k smallest samples, or all of them, in order. */
  ghost function Best(samples: seq<real>, k: nat): (r: seq<real>)
    ensures |r| == Min(k, |samples|)
  {
    Sorted(samples)[..Min(k, |samples|)]
  }

  /** What that means: in order, and nothing left out is smaller than anything kept. */
  lemma BestAreSmallest(samples: seq<real>, k: nat)
    ensures Ascending(Best(samples, k))
    ensures exists rest: seq<real> ::
              && multiset(Best(samples, k)) + multiset(rest) == multiset(samples)
              && forall x, y :: x in Best(samples, k) && y in rest ==> x <= y
  {
    SortedSorts(samples);
    var all, m := Sorted(samples), Min(k, |samples|);
    var rest := all[m..];
    assert all == all[..m] + rest;
  }

  /** How the k smallest change with one more sample: a value that is not below the last is not kept. */
  lemma BestAppend(samples: seq<real>, v: real, k: nat)
    requires k >= 1
    ensures Best(samples + [v], k) ==
            var best := Best(samples, k);
            if |samples| < k then Inserted(best, v)
            else if v < best[k - 1] then Inserted(best[..k - 1], v)
            else best
  {
    var all := Sorted(samples);
    SortedSorts(samples);
    assert (samples + [v])[..|samples|] == samples;
    if |samples| < k {
      assert all[..|samples|] == all && Inserted(all, v)[..|samples| + 1] == Inserted(all, v);
    } else {
      InsertedPrefix(all, v, k);
      assert all[..k][..k - 1] == all[..k - 1];
    }
  }

  ghost predicate Converged(samples: seq<real>, k: nat, epsilon: real)
    requires k >= 1
  {
    |samples| >= k && (1.0 + epsilon) * Sorted(samples)[0] >= Sorted(samples)[k - 1]
  }

  /** How many of the samples are at most `x`. */
  ghost function AtMost(samples: seq<real>, x: real): nat {
    var n := |samples|;
    if n == 0 then 0 else AtMost(samples[..n - 1], x) + if samples[n - 1] <= x then 1 else 0
  }

  lemma {:induction false} AtMostInserted(s: seq<real>, v: real, x: real)
    ensures AtMost(Inserted(s, v), x) == AtMost(s, x) + if v <= x then 1 else 0
  {
    var n := |s|;
    if n == 0 || s[n - 1] <= v {
      assert (s + [v])[..n] == s;
    } else {
      AtMostInserted(s[..n - 1], v, x);
      assert (Inserted(s[..n - 1], v) + [s[n - 1]])[..n] == Inserted(s[..n - 1], v);
    }
  }

  lemma {:induction false} AtMostSorted(samples: seq<real>, x: real)
    ensures AtMost(Sorted(samples), x) == AtMost(samples, x)
  {
    var n := |samples|;
    if n > 0 {
      AtMostSorted(samples[..n - 1], x);
      AtMostInserted(Sorted(samples[..n - 1]), samples[n - 1], x);
    }
  }

  /** In order, at least `k` are at most `x` exactly when the k-th is. */
  lemma {:induction false} AtMostAscending(s: seq<real>, x: real, k: nat)
    requires Ascending(s) && k >= 1
    ensures AtMost(s, x) <= |s| && (AtMost(s, x) >= k <==> k <= |s| && s[k - 1] <= x)
  {
    var n := |s|;
    if n > 0 {
      AtMostAscending(s[..n - 1], x, k);
      AtMostAscending(s[..n - 1], x, n);
      if k < n {
        assert s[k - 1] <= s[n - 1];
      }
      if n > 1 {
        AtMostAscending(s[..n - 1], x, n - 1);
        assert s[n - 2] <= s[n - 1];
      }
    }
  }

  ghost predicate Least(samples: seq<real>, m: real) {
    m in samples && forall x {:trigger x in samples} :: x in samples ==> m <= x
  }

  /** At least `k` samples are within a factor of 1 + epsilon of `m`. */
  ghost predicate Within(samples: seq<real>, k: nat, epsilon: real, m: real) {
    AtMost(samples, (1.0 + epsilon) * m) >= k
  }

  lemma ConvergedWithin(samples: seq<real>, k: nat, epsilon: real)
    requires k >= 1 && |samples| > 0
    ensures Converged(samples, k, epsilon) <==> Within(samples, k, epsilon, Sorted(samples)[0])
  {
    SortedSorts(samples);
    var x := (1.0 + epsilon) * Sorted(samples)[0];
    AtMostSorted(samples, x);
    AtMostAscending(Sorted(samples), x, k);
  }

  /** The samples have converged exactly when at least `k` of them are within a factor of 1 + epsilon of the least. */
  lemma ConvergedExactly(samples: seq<real>, k: nat, epsilon: real)
    requires k >= 1
    ensures Converged(samples, k, epsilon) <==>
            exists m {:trigger Least(samples, m)} :: Least(samples, m) && Within(samples, k, epsilon, m)
  {
    if |samples| > 0 {
      LeastFirst(samples);
      ConvergedWithin(samples, k, epsilon);
    }
    forall m | Least(samples, m) ensures |samples| > 0 && m == Sorted(samples)[0] {
      assert m <= Sorted(samples)[0] && Sorted(samples)[0] <= m;
    }
  }

  /** The least sample is the first in order. */
  lemma LeastFirst(samples: seq<real>)
    requires |samples| > 0
    ensures Least(samples, Sorted(samples)[0])
  {
    SortedSorts(samples);
    assert Sorted(samples)[0] in multiset(samples);
    forall x | x in samples ensures Sorted(samples)[0] <= x {
      assert x in multiset(Sorted(samples));
    }
  }

  function Readings(clock: nat -> real, n: nat): seq<real> {
    seq(n, i requires i >= 0 => clock(i))
  }

  class Sampler {
    var kbest: nat
    var maxsamples: int
    var epsilon: real
    var values: array?<real>
    var samplecount: nat

    ghost var samples: seq<real>

    ghost predicate Valid()
      reads this, values
    {
      && kbest >= 1 && values != null && values.Length == kbest
      && samplecount == |samples| && values[..Min(kbest, samplecount)] == Best(samples, kbest)
    }

    constructor (kbest: nat, maxsamples: int, epsilon: real)
      requires kbest >= 1
      ensures this.kbest == kbest && this.maxsamples == maxsamples && this.epsilon == epsilon
    {
      this.kbest, this.maxsamples, this.epsilon := kbest, maxsamples, epsilon;
      values, samplecount, samples := null, 0, [];
    }

    method InitSampler()
      requires kbest >= 1
      modifies this
      ensures Valid() && samples == [] && fresh(values)
      ensures kbest == old(kbest) && maxsamples == old(maxsamples) && epsilon == old(epsilon)
    {
      values := new real[kbest](_ => 0.0);
      samplecount, samples := 0, [];
    }

    method AddSample(val: real)
      requires Valid()
      modifies `samplecount, `samples, values
      ensures Valid() && samples == old(samples) + [val]
    {
      ghost var best := Best(samples, kbest);
      BestAppend(samples, val, kbest);
      assert samplecount >= kbest ==> best[kbest - 1] == values[kbest - 1];
      if samplecount < kbest {
        var pos := samplecount;
        values[pos] := val;
        assert values[..pos] == best;
        SiftDown(pos);
      } else if val < values[kbest - 1] {
        var pos := kbest - 1;
        values[pos] := val;
        assert values[..pos] == best[..pos];
        SiftDown(pos);
      }
      samplecount, samples := samplecount + 1, samples + [val];
    }

    /** The insertion sort of add_sample, for a value just stored at `last`. */
    method SiftDown(last: nat)
      requires values != null && last < values.Length
      modifies values
      ensures values[..last + 1] == Inserted(old(values[..last]), old(values[last]))
    {
      ghost var s, v := values[..last], values[last];
      var pos := last;
      while pos > 0 && values[pos - 1] > values[pos]
        invariant 0 <= pos <= last
        invariant values[pos] == v
        invariant forall j :: 0 <= j < pos ==> values[j] == s[j]
        invariant forall j :: pos <= j < last ==> values[j + 1] == s[j] > v
      {
        var temp := values[pos - 1];
        values[pos - 1] := values[pos];
        values[pos] := temp;
        pos := pos - 1;
      }
      Sifted(s, v, pos, values[..last + 1]);
    }

    method HasConverged() returns (r: bool)
      requires Valid()
      ensures r <==> Converged(samples, kbest, epsilon)
    {
      if samplecount >= kbest {
        assert values[0] == values[..kbest][0] && values[kbest - 1] == values[..kbest][kbest - 1];
        r := (1.0 + epsilon) * values[0] >= values[kbest - 1];
      } else {
        r := false;
      }
    }

    /** fcyc, where `clock(i)` is what the i-th measurement reads: the result is the smallest of the
        samples taken; at most max(1, maxsamples) are taken, and fewer only if they have converged,
        which they had not before. */
    method FCyc(clock: nat -> real) returns (result: real)
      requires kbest >= 1
      modifies this
      ensures kbest == old(kbest) && maxsamples == old(maxsamples) && epsilon == old(epsilon)
      ensures 1 <= samplecount && (samplecount <= maxsamples || samplecount == 1)
      ensures samplecount < maxsamples ==> Converged(Readings(clock, samplecount), kbest, epsilon)
      ensures forall m :: 1 <= m < samplecount ==> !Converged(Readings(clock, m), kbest, epsilon)
      ensures forall i :: 0 <= i < samplecount ==> result <= clock(i)
      ensures exists i :: 0 <= i < samplecount && result == clock(i)
    {
      InitSampler();
      Sample(clock);
      result := Smallest(clock);
      values := null;
    }

    /** The loop of fcyc. */
    method Sample(clock: nat -> real)
      requires Valid() && samples == []
      modifies `samplecount, `samples, values
      ensures Valid() && samples == Readings(clock, samplecount)
      ensures 1 <= samplecount && (samplecount <= maxsamples || samplecount == 1)
      ensures samplecount < maxsamples ==> Converged(Readings(clock, samplecount), kbest, epsilon)
      ensures forall m :: 1 <= m < samplecount ==> !Converged(Readings(clock, m), kbest, epsilon)
    {
      Measure(clock);
      var done := HasConverged();
      while !done && samplecount < maxsamples
        invariant Valid() && samples == Readings(clock, samplecount)
        invariant 1 <= samplecount && (samplecount <= maxsamples || samplecount == 1)
        invariant done <==> Converged(samples, kbest, epsilon)
        invariant forall m :: 1 <= m < samplecount ==> !Converged(Readings(clock, m), kbest, epsilon)
        decreases maxsamples - samplecount
      {
        Measure(clock);
        done := HasConverged();
      }
    }

    method Measure(clock: nat -> real)
      requires Valid() && samples == Readings(clock, samplecount)
      modifies `samplecount, `samples, values
      ensures Valid() && samplecount == old(samplecount) + 1 && samples == Readings(clock, samplecount)
    {
      var cyc := clock(samplecount);
      AddSample(cyc);
      assert Readings(clock, samplecount) == Readings(clock, samplecount - 1) + [cyc];
    }

    /** The first kept value is the minimum of everything measured. */
    method Smallest(clock: nat -> real) returns (result: real)
      requires Valid() && samplecount >= 1 && samples == Readings(clock, samplecount)
      ensures forall i :: 0 <= i < samplecount ==> result <= clock(i)
      ensures exists i :: 0 <= i < samplecount && result == clock(i)
    {
      result := values[0];
      SortedSorts(samples);
      assert result == values[..Min(kbest, samplecount)][0] == Sorted(samples)[0];
      forall i | 0 <= i < samplecount
        ensures result <= clock(i)
      {
        assert samples[i] in multiset(Sorted(samples));
      }
      assert result in multiset(samples);
      ghost var i :| 0 <= i < |samples| && samples[i] == result;
      assert result == clock(i);
    }
  }
}
