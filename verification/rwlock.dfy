/** The readers/writers protocol around the proxy's cache, for any number of threads: every
    interleaving of the steps between P and V in get_from_cache and get_from_server (proxy.c),
    over counting semaphores as P and V of csapp.c use them. */
module RwLock {

  /** Where one thread handling a client stands. */
  datatype Pc =
    | Arriving                // before P(&mutex) on entry
    | Entering                // holds mutex, before readcnt++
    | Incrementing(seen: int) // has read readcnt, not yet stored seen + 1
    | CheckingFirst           // before the test readcnt == 1
    | ClosingOut              // before P(&w)
    | Admitted                // before V(&mutex) on entry
    | Reading                 // searching the cache, before P(&mutex) on exit
    | Leaving(found: bool)    // holds mutex, before readcnt--
    | Decrementing(seen: int, found: bool) // has read readcnt, not yet stored seen - 1
    | CheckingLast(found: bool) // before the test readcnt == 0
    | LettingIn(found: bool)  // before V(&w) of the last reader
    | Left(found: bool)       // before V(&mutex) on exit
    | Missed                  // in get_from_server, before P(&w)
    | Writing                 // inserting into the cache, before V(&w)
    | Done

  datatype State = State(mutex: int, w: int, readcnt: int, pcs: seq<Pc>)

  /** After cache_init, with every thread about to serve its client. */
  ghost predicate Init(s: State) {
    s.mutex == 1 && s.w == 1 && s.readcnt == 0 && forall i :: 0 <= i < |s.pcs| ==> s.pcs[i] == Arriving
  }

  /** P(&mutex) after the search, which did or did not find the page. */
  ghost function AfterSearch(s: State, i: int, found: bool): State
    requires 0 <= i < |s.pcs|
  {
    s.(mutex := s.mutex - 1, pcs := s.pcs[i := Leaving(found)])
  }

  /** What thread `i` can do next. P blocks at zero; the outcome of the search is not determined. */
  ghost predicate Step(s: State, t: State, i: int)
    requires 0 <= i < |s.pcs|
  {
    match s.pcs[i]
    case Arriving => s.mutex > 0 && t == s.(mutex := s.mutex - 1, pcs := s.pcs[i := Entering])
    case Entering => t == s.(pcs := s.pcs[i := Incrementing(s.readcnt)])
    case Incrementing(n) => t == s.(readcnt := n + 1, pcs := s.pcs[i := CheckingFirst])
    case CheckingFirst => t == s.(pcs := s.pcs[i := if s.readcnt == 1 then ClosingOut else Admitted])
    case ClosingOut => s.w > 0 && t == s.(w := s.w - 1, pcs := s.pcs[i := Admitted])
    case Admitted => t == s.(mutex := s.mutex + 1, pcs := s.pcs[i := Reading])
    case Reading => s.mutex > 0 && (t == AfterSearch(s, i, true) || t == AfterSearch(s, i, false))
    case Leaving(found) => t == s.(pcs := s.pcs[i := Decrementing(s.readcnt, found)])
    case Decrementing(n, found) => t == s.(readcnt := n - 1, pcs := s.pcs[i := CheckingLast(found)])
    case CheckingLast(found) => t == s.(pcs := s.pcs[i := if s.readcnt == 0 then LettingIn(found) else Left(found)])
    case LettingIn(found) => t == s.(w := s.w + 1, pcs := s.pcs[i := Left(found)])
    case Left(found) =>
      // get_from_server gives up without taking w when it cannot connect
      t == s.(mutex := s.mutex + 1, pcs := s.pcs[i := if found then Done else Missed])
      || t == s.(mutex := s.mutex + 1, pcs := s.pcs[i := Done])
    case Missed => s.w > 0 && t == s.(w := s.w - 1, pcs := s.pcs[i := Writing])
    case Writing => t == s.(w := s.w + 1, pcs := s.pcs[i := Done])
    case Done => false
  }

  ghost predicate Next(s: State, t: State) {
    exists i :: 0 <= i < |s.pcs| && Step(s, t, i)
  }

  /** A run from the initial state. */
  ghost predicate Run(r: seq<State>) {
    |r| > 0 && Init(r[0]) && forall k {:trigger NextAt(r, k)} :: NextAt(r, k)
  }

  ghost predicate NextAt(r: seq<State>, k: int) {
    0 < k < |r| ==> Next(r[k - 1], r[k])
  }

  // ---------- counting threads ----------

  ghost function Count(pcs: seq<Pc>, f: Pc -> bool): nat {
    if |pcs| == 0 then 0 else Count(pcs[..|pcs| - 1], f) + if f(pcs[|pcs| - 1]) then 1 else 0
  }

  lemma {:induction false} CountSet(pcs: seq<Pc>, i: int, p: Pc, f: Pc -> bool)
    requires 0 <= i < |pcs|
    ensures Count(pcs[i := p], f) == Count(pcs, f) - (if f(pcs[i]) then 1 else 0) + if f(p) then 1 else 0
  {
    var n := |pcs| - 1;
    var pre := pcs[..n];
    if i == n {
      assert pcs[i := p][..n] == pre;
    } else {
      assert pcs[i := p][..n] == pre[i := p];
      CountSet(pre, i, p, f);
    }
  }

  lemma {:induction false} CountSome(pcs: seq<Pc>, f: Pc -> bool) returns (i: int)
    requires Count(pcs, f) > 0
    ensures 0 <= i < |pcs| && f(pcs[i])
  {
    var n := |pcs| - 1;
    if f(pcs[n]) {
      i := n;
    } else {
      i := CountSome(pcs[..n], f);
    }
  }

  lemma {:induction false} CountAtLeast(pcs: seq<Pc>, i: int, f: Pc -> bool)
    requires 0 <= i < |pcs| && f(pcs[i])
    ensures Count(pcs, f) >= 1
  {
    var n := |pcs| - 1;
    if i != n {
      CountAtLeast(pcs[..n], i, f);
    }
  }

  lemma {:induction false} CountTwo(pcs: seq<Pc>, i: int, j: int, f: Pc -> bool)
    requires 0 <= i < j < |pcs| && f(pcs[i]) && f(pcs[j])
    ensures Count(pcs, f) >= 2
  {
    var n := |pcs| - 1;
    if j == n {
      CountAtLeast(pcs[..n], i, f);
    } else {
      CountTwo(pcs[..n], i, j, f);
    }
  }

  lemma {:induction false} CountNone(pcs: seq<Pc>, f: Pc -> bool)
    requires forall i :: 0 <= i < |pcs| ==> !f(pcs[i])
    ensures Count(pcs, f) == 0
  {
    if |pcs| > 0 {
      CountNone(pcs[..|pcs| - 1], f);
    }
  }

  // ---------- the invariant ----------

  /** Between P(&mutex) and V(&mutex). */
  predicate HoldsMutex(p: Pc) {
    p.Entering? || p.Incrementing? || p.CheckingFirst? || p.ClosingOut? || p.Admitted?
    || p.Leaving? || p.Decrementing? || p.CheckingLast? || p.LettingIn? || p.Left?
  }

  /** Counted by readcnt. */
  predicate Registered(p: Pc) {
    p.CheckingFirst? || p.ClosingOut? || p.Admitted? || p.Reading? || p.Leaving? || p.Decrementing?
  }

  /** A reader that relies on the readers holding w. */
  predicate Covered(p: Pc) {
    p.Admitted? || p.Reading? || p.Leaving? || p.Decrementing? || p.CheckingLast? || p.LettingIn?
  }

  /** Between get_from_server's P(&w) and V(&w). */
  predicate InWriter(p: Pc) {
    p.Writing?
  }

  ghost function Readers(s: State): int { Count(s.pcs, Registered) }
  ghost function Cover(s: State): int { Count(s.pcs, Covered) }
  ghost function Writers(s: State): int { Count(s.pcs, InWriter) }

  /** What the thread at `p` knows of the shared counter. */
  ghost predicate Local(s: State, p: Pc) {
    match p
    case Incrementing(n) => n == s.readcnt
    case Decrementing(n, _) => n == s.readcnt
    case ClosingOut => s.readcnt == 1
    case LettingIn(_) => s.readcnt == 0
    case _ => true
  }

  /** The readers the counter and the cover disagree about: those inside the two tests. */
  ghost function Ahead(p: Pc): int {
    if p.CheckingFirst? || p.ClosingOut? then -1 else if p.CheckingLast? || p.LettingIn? then 1 else 0
  }

  ghost predicate Inv(s: State) {
    && s.mutex >= 0 && s.w >= 0
    && s.mutex + Count(s.pcs, HoldsMutex) == 1
    && s.readcnt == Readers(s)
    && s.w + Writers(s) + (if Cover(s) > 0 then 1 else 0) == 1
    && (forall i {:trigger s.pcs[i]} :: 0 <= i < |s.pcs| ==> Local(s, s.pcs[i]))
    && (forall i {:trigger s.pcs[i]} :: 0 <= i < |s.pcs| && HoldsMutex(s.pcs[i]) ==>
          Cover(s) == s.readcnt + Ahead(s.pcs[i]))
    && (s.mutex == 1 ==> Cover(s) == s.readcnt)
  }

  lemma InitInv(s: State)
    requires Init(s)
    ensures Inv(s)
  {
    CountNone(s.pcs, HoldsMutex);
    CountNone(s.pcs, Registered);
    CountNone(s.pcs, Covered);
    CountNone(s.pcs, InWriter);
  }

  /** Only one thread is between P and V of the mutex. */
  lemma OneHolder(s: State, i: int, j: int)
    requires Inv(s) && 0 <= i < |s.pcs| && 0 <= j < |s.pcs| && HoldsMutex(s.pcs[i]) && HoldsMutex(s.pcs[j])
    ensures i == j && s.mutex == 0
  {
    CountAtLeast(s.pcs, i, HoldsMutex);
    if i < j {
      CountTwo(s.pcs, i, j, HoldsMutex);
    } else if j < i {
      CountTwo(s.pcs, j, i, HoldsMutex);
    }
  }

  /** How one step changes the four counts. */
  lemma StepCounts(s: State, t: State, i: int)
    requires 0 <= i < |s.pcs| && Step(s, t, i)
    ensures t.pcs == s.pcs[i := t.pcs[i]]
    ensures forall f: Pc -> bool {:trigger Count(t.pcs, f)} ::
              Count(t.pcs, f) == Count(s.pcs, f) - (if f(s.pcs[i]) then 1 else 0) + if f(t.pcs[i]) then 1 else 0
  {
    assert t.pcs == s.pcs[i := t.pcs[i]];
    forall f: Pc -> bool
      ensures Count(t.pcs, f) == Count(s.pcs, f) - (if f(s.pcs[i]) then 1 else 0) + if f(t.pcs[i]) then 1 else 0
    {
      CountSet(s.pcs, i, t.pcs[i], f);
    }
  }

  /** The counts a thread in a given place implies. */
  lemma Implied(s: State, i: int)
    requires 0 <= i < |s.pcs|
    ensures HoldsMutex(s.pcs[i]) ==> Count(s.pcs, HoldsMutex) >= 1
    ensures Covered(s.pcs[i]) ==> Cover(s) >= 1
  {
    if HoldsMutex(s.pcs[i]) {
      CountAtLeast(s.pcs, i, HoldsMutex);
    }
    if Covered(s.pcs[i]) {
      CountAtLeast(s.pcs, i, Covered);
    }
  }

  lemma StepTotals(s: State, t: State, i: int)
    requires Inv(s) && 0 <= i < |s.pcs| && Step(s, t, i)
    ensures t.mutex >= 0 && t.w >= 0 && t.mutex + Count(t.pcs, HoldsMutex) == 1
    ensures t.readcnt == Readers(t) && t.w + Writers(t) + (if Cover(t) > 0 then 1 else 0) == 1
    ensures t.mutex == 1 ==> Cover(t) == t.readcnt
  {
    StepCounts(s, t, i);
    Implied(s, i);
    Implied(t, i);
    assert Local(s, s.pcs[i]) && (HoldsMutex(s.pcs[i]) ==> Cover(s) == s.readcnt + Ahead(s.pcs[i]));
  }

  lemma StepMover(s: State, t: State, i: int)
    requires Inv(s) && 0 <= i < |s.pcs| && Step(s, t, i)
    ensures Local(t, t.pcs[i]) && (HoldsMutex(t.pcs[i]) ==> Cover(t) == t.readcnt + Ahead(t.pcs[i]))
  {
    StepCounts(s, t, i);
    Implied(s, i);
    assert Local(s, s.pcs[i]) && (HoldsMutex(s.pcs[i]) ==> Cover(s) == s.readcnt + Ahead(s.pcs[i]));
  }

  lemma StepOther(s: State, t: State, i: int, j: int)
    requires Inv(s) && 0 <= i < |s.pcs| && Step(s, t, i) && 0 <= j < |s.pcs| && j != i
    ensures Local(t, t.pcs[j]) && (HoldsMutex(t.pcs[j]) ==> Cover(t) == t.readcnt + Ahead(t.pcs[j]))
  {
    StepCounts(s, t, i);
    Implied(s, j);
    assert t.pcs[j] == s.pcs[j] && Local(s, s.pcs[j]);
    if HoldsMutex(s.pcs[j]) && HoldsMutex(s.pcs[i]) {
      OneHolder(s, i, j);
    }
  }

  lemma StepInv(s: State, t: State, i: int)
    requires Inv(s) && 0 <= i < |s.pcs| && Step(s, t, i)
    ensures Inv(t)
  {
    StepTotals(s, t, i);
    StepCounts(s, t, i);
    forall j | 0 <= j < |t.pcs|
      ensures Local(t, t.pcs[j]) && (HoldsMutex(t.pcs[j]) ==> Cover(t) == t.readcnt + Ahead(t.pcs[j]))
    {
      if j == i {
        StepMover(s, t, i);
      } else {
        StepOther(s, t, i, j);
      }
    }
  }

  lemma {:induction false} RunInv(r: seq<State>, k: nat)
    requires Run(r) && k < |r|
    ensures Inv(r[k])
  {
    if k == 0 {
      InitInv(r[0]);
    } else {
      RunInv(r, k - 1);
      assert NextAt(r, k);
      var i :| 0 <= i < |r[k - 1].pcs| && Step(r[k - 1], r[k], i);
      StepInv(r[k - 1], r[k], i);
    }
  }

  // ---------- safety and progress ----------

  /** In every state of every run readcnt is the number of registered readers, and both semaphores
      stay binary. */
  lemma Counters(r: seq<State>, k: nat)
    requires Run(r) && k < |r|
    ensures r[k].readcnt == Count(r[k].pcs, Registered)
    ensures 0 <= r[k].mutex <= 1 && 0 <= r[k].w <= 1
  {
    RunInv(r, k);
  }

  /** In every state of every run a writer excludes every other writer and every reader. */
  lemma Exclusion(r: seq<State>, k: nat)
    requires Run(r) && k < |r|
    ensures Exclusive(r[k])
  {
    var s := r[k];
    RunInv(r, k);
    forall i, j | 0 <= i < |s.pcs| && 0 <= j < |s.pcs| && i != j && s.pcs[i].Writing?
      ensures !s.pcs[j].Writing? && !s.pcs[j].Reading?
    {
      ExclusionAt(s, i, j);
    }
  }

  ghost predicate Exclusive(s: State) {
    forall i, j {:trigger s.pcs[i], s.pcs[j]} :: 0 <= i < |s.pcs| && 0 <= j < |s.pcs| && i != j && s.pcs[i].Writing? ==>
      !s.pcs[j].Writing? && !s.pcs[j].Reading?
  }

  lemma ExclusionAt(s: State, i: int, j: int)
    requires Inv(s) && 0 <= i < |s.pcs| && 0 <= j < |s.pcs| && i != j && s.pcs[i].Writing?
    ensures !s.pcs[j].Writing? && !s.pcs[j].Reading?
  {
    CountAtLeast(s.pcs, i, InWriter);
    if s.pcs[j].Writing? {
      CountTwo(s.pcs, if i < j then i else j, if i < j then j else i, InWriter);
    }
    if s.pcs[j].Reading? {
      CountAtLeast(s.pcs, j, Covered);
    }
  }

  /** Thread `i` is not blocked. */
  ghost predicate CanStep(s: State, i: int) {
    0 <= i < |s.pcs| && exists t :: Step(s, t, i)
  }

  /** A thread that holds the mutex can go on, or waits for a writer that can. */
  lemma HolderProgress(s: State, i: int) returns (j: int)
    requires Inv(s) && 0 <= i < |s.pcs| && HoldsMutex(s.pcs[i])
    ensures CanStep(s, j)
  {
    j := i;
    var p := s.pcs[i];
    if p.ClosingOut? && s.w == 0 {
      j := CountSome(s.pcs, InWriter);
      WriterSteps(s, j);
    } else if p.ClosingOut? {
      assert Step(s, s.(w := s.w - 1, pcs := s.pcs[i := Admitted]), i);
    } else {
      FreeSteps(s, i);
    }
  }

  lemma WriterSteps(s: State, i: int)
    requires 0 <= i < |s.pcs| && s.pcs[i].Writing?
    ensures CanStep(s, i)
  {
    assert Step(s, s.(w := s.w + 1, pcs := s.pcs[i := Done]), i);
  }

  /** The steps that never block. */
  lemma FreeSteps(s: State, i: int)
    requires 0 <= i < |s.pcs| && HoldsMutex(s.pcs[i]) && !s.pcs[i].ClosingOut?
    ensures CanStep(s, i)
  {
    match s.pcs[i]
    case Entering => assert Step(s, s.(pcs := s.pcs[i := Incrementing(s.readcnt)]), i);
    case Incrementing(n) => assert Step(s, s.(readcnt := n + 1, pcs := s.pcs[i := CheckingFirst]), i);
    case CheckingFirst => assert Step(s, s.(pcs := s.pcs[i := if s.readcnt == 1 then ClosingOut else Admitted]), i);
    case Admitted => assert Step(s, s.(mutex := s.mutex + 1, pcs := s.pcs[i := Reading]), i);
    case Leaving(found) => assert Step(s, s.(pcs := s.pcs[i := Decrementing(s.readcnt, found)]), i);
    case Decrementing(n, found) => assert Step(s, s.(readcnt := n - 1, pcs := s.pcs[i := CheckingLast(found)]), i);
    case CheckingLast(found) =>
      assert Step(s, s.(pcs := s.pcs[i := if s.readcnt == 0 then LettingIn(found) else Left(found)]), i);
    case LettingIn(found) => assert Step(s, s.(w := s.w + 1, pcs := s.pcs[i := Left(found)]), i);
    case Left(found) => assert Step(s, s.(mutex := s.mutex + 1, pcs := s.pcs[i := if found then Done else Missed]), i);
  }

  /** As long as some thread is unfinished, some thread can go on. */
  lemma Progress(r: seq<State>, k: nat, i: int) returns (j: int)
    requires Run(r) && k < |r| && 0 <= i < |r[k].pcs| && !r[k].pcs[i].Done?
    ensures CanStep(r[k], j)
  {
    var s := r[k];
    RunInv(r, k);
    if s.mutex == 0 {
      var h := CountSome(s.pcs, HoldsMutex);
      j := HolderProgress(s, h);
    } else {
      j := i;
      if HoldsMutex(s.pcs[i]) {
        j := HolderProgress(s, i);
      } else if s.pcs[i].Missed? && s.w == 0 {
        if Writers(s) > 0 {
          j := CountSome(s.pcs, InWriter);
          WriterSteps(s, j);
        } else {
          j := CountSome(s.pcs, Covered);
          EnterSteps(s, j);
        }
      } else {
        EnterSteps(s, i);
      }
    }
  }

  lemma EnterSteps(s: State, i: int)
    requires 0 <= i < |s.pcs| && Inv(s) && s.mutex == 1 && !s.pcs[i].Done? && (s.pcs[i].Missed? ==> s.w > 0)
    ensures CanStep(s, i)
  {
    if HoldsMutex(s.pcs[i]) {
      CountAtLeast(s.pcs, i, HoldsMutex);
      assert false;
    }
    match s.pcs[i]
    case Arriving => assert Step(s, s.(mutex := s.mutex - 1, pcs := s.pcs[i := Entering]), i);
    case Reading => assert Step(s, AfterSearch(s, i, true), i);
    case Missed => assert Step(s, s.(w := s.w - 1, pcs := s.pcs[i := Writing]), i);
    case Writing => assert Step(s, s.(w := s.w + 1, pcs := s.pcs[i := Done]), i);
    case _ =>
  }

  // ---------- termination ----------

  /** An upper bound on the steps a thread has left. */
  ghost function Remaining(p: Pc): nat {
    match p
    case Arriving => 14
    case Entering => 13
    case Incrementing(_) => 12
    case CheckingFirst => 11
    case ClosingOut => 10
    case Admitted => 9
    case Reading => 8
    case Leaving(_) => 7
    case Decrementing(_, _) => 6
    case CheckingLast(_) => 5
    case LettingIn(_) => 4
    case Left(_) => 3
    case Missed => 2
    case Writing => 1
    case Done => 0
  }

  ghost function StepsLeft(pcs: seq<Pc>): nat {
    if |pcs| == 0 then 0 else StepsLeft(pcs[..|pcs| - 1]) + Remaining(pcs[|pcs| - 1])
  }

  lemma {:induction false} StepsLeftSet(pcs: seq<Pc>, i: int, p: Pc)
    requires 0 <= i < |pcs|
    ensures StepsLeft(pcs[i := p]) == StepsLeft(pcs) - Remaining(pcs[i]) + Remaining(p)
  {
    var n := |pcs| - 1;
    var pre := pcs[..n];
    if i == n {
      assert pcs[i := p][..n] == pre;
    } else {
      assert pcs[i := p][..n] == pre[i := p];
      StepsLeftSet(pre, i, p);
    }
  }

  /** No run of n threads is longer than 14 n steps; with Progress, every thread finishes. */
  lemma {:induction false} RunBounded(r: seq<State>, k: nat)
    requires Run(r) && k < |r|
    ensures k + StepsLeft(r[k].pcs) <= 14 * |r[0].pcs| && |r[k].pcs| == |r[0].pcs|
  {
    if k == 0 {
      AllArriving(r[0].pcs);
    } else {
      RunBounded(r, k - 1);
      var s, t := r[k - 1], r[k];
      assert NextAt(r, k);
      var i :| 0 <= i < |s.pcs| && Step(s, t, i);
      StepShortens(s, t, i);
    }
  }

  lemma StepShortens(s: State, t: State, i: int)
    requires 0 <= i < |s.pcs| && Step(s, t, i)
    ensures StepsLeft(t.pcs) < StepsLeft(s.pcs) && |t.pcs| == |s.pcs|
  {
    assert t.pcs == s.pcs[i := t.pcs[i]];
    StepsLeftSet(s.pcs, i, t.pcs[i]);
  }

  lemma {:induction false} AllArriving(pcs: seq<Pc>)
    requires forall i :: 0 <= i < |pcs| ==> pcs[i] == Arriving
    ensures StepsLeft(pcs) == 14 * |pcs|
  {
    if |pcs| > 0 {
      AllArriving(pcs[..|pcs| - 1]);
    }
  }

  /** A run that cannot be continued has served every client. */
  lemma MaximalRunFinishes(r: seq<State>, s: State)
    requires Run(r) && s == r[|r| - 1] && forall t :: !Next(s, t)
    ensures forall i :: 0 <= i < |s.pcs| ==> s.pcs[i] == Done
    ensures |r| <= 14 * |r[0].pcs| + 1
  {
    RunBounded(r, |r| - 1);
    forall i | 0 <= i < |s.pcs| ensures s.pcs[i] == Done {
      if s.pcs[i] != Done {
        NotStuck(r, s, i);
      }
    }
  }

  lemma NotStuck(r: seq<State>, s: State, i: int)
    requires Run(r) && s == r[|r| - 1] && 0 <= i < |s.pcs| && !s.pcs[i].Done?
    ensures exists t :: Next(s, t)
  {
    var j := Progress(r, |r| - 1, i);
    var t :| Step(s, t, j);
    assert Next(s, t);
  }

  // ---------- what the search found ----------

  /** The thread did not find its page: it is on its way to the writers' section, or in it. */
  predicate Missing(p: Pc) {
    match p
    case Leaving(found) => !found
    case Decrementing(_, found) => !found
    case CheckingLast(found) => !found
    case LettingIn(found) => !found
    case Left(found) => !found
    case Missed => true
    case Writing => true
    case _ => false
  }

  /** The thread found its page, or is done. */
  predicate Answered(p: Pc) {
    match p
    case Leaving(found) => found
    case Decrementing(_, found) => found
    case CheckingLast(found) => found
    case LettingIn(found) => found
    case Left(found) => found
    case Done => true
    case _ => false
  }

  lemma StepFound(s: State, t: State, i: int, j: int)
    requires 0 <= i < |s.pcs| && 0 <= j < |s.pcs| && Step(s, t, j)
    ensures |t.pcs| == |s.pcs|
    ensures Missing(t.pcs[i]) ==> Missing(s.pcs[i]) || t.pcs[i] == Leaving(false)
    ensures Answered(s.pcs[i]) ==> Answered(t.pcs[i])
  {
  }

  /** No thread gets on the way to the writers' section but by a search without success, and none off the way to its
      end. */
  ghost predicate WaysKept(s: State, t: State) {
    && |t.pcs| == |s.pcs|
    && (forall i {:trigger t.pcs[i]} :: 0 <= i < |t.pcs| && Missing(t.pcs[i]) ==>
          Missing(s.pcs[i]) || t.pcs[i] == Leaving(false))
    && (forall i {:trigger t.pcs[i]} :: 0 <= i < |t.pcs| && Answered(s.pcs[i]) ==> Answered(t.pcs[i]))
  }

  lemma NextFound(s: State, t: State)
    requires Next(s, t)
    ensures WaysKept(s, t)
  {
    var j :| 0 <= j < |s.pcs| && Step(s, t, j);
    assert |t.pcs| == |s.pcs|;
    forall i | 0 <= i < |t.pcs|
      ensures Missing(t.pcs[i]) ==> Missing(s.pcs[i]) || t.pcs[i] == Leaving(false)
      ensures Answered(s.pcs[i]) ==> Answered(t.pcs[i])
    {
      StepFound(s, t, i, j);
    }
  }

  /** Thread `i` has searched without success before the run reached its `k`-th state. */
  ghost predicate MissedBefore(r: seq<State>, k: int, i: int) {
    exists m {:trigger r[m]} :: 0 <= m <= k < |r| && 0 <= i < |r[m].pcs| && r[m].pcs[i] == Leaving(false)
  }

  ghost predicate WritersMissed(r: seq<State>, k: int) {
    0 <= k < |r|
    && forall i {:trigger r[k].pcs[i]} :: 0 <= i < |r[k].pcs| && Missing(r[k].pcs[i]) ==> MissedBefore(r, k, i)
  }

  lemma StillMissed(r: seq<State>, k: int)
    requires 0 < k < |r| && WritersMissed(r, k - 1) && WaysKept(r[k - 1], r[k])
    ensures WritersMissed(r, k)
  {
    forall i | 0 <= i < |r[k].pcs| && Missing(r[k].pcs[i]) ensures MissedBefore(r, k, i) {
      assert Missing(r[k - 1].pcs[i]) ==> MissedBefore(r, k - 1, i);
    }
  }

  /** In every run a thread that waits to insert its page, or inserts it, has searched for it before without success. */
  lemma {:induction false} WriterMissed(r: seq<State>, k: int)
    requires Run(r) && 0 <= k < |r|
    ensures WritersMissed(r, k)
  {
    if k > 0 {
      WriterMissed(r, k - 1);
      assert NextAt(r, k);
      NextFound(r[k - 1], r[k]);
      StillMissed(r, k);
    }
  }

  /** Every thread whose search had succeeded in the `m`-th state is on its way out in the `k`-th, or done. */
  ghost predicate HitsAnswered(r: seq<State>, m: int, k: int) {
    0 <= m <= k < |r| && |r[m].pcs| == |r[k].pcs|
    && forall i {:trigger r[m].pcs[i]} :: 0 <= i < |r[m].pcs| && r[m].pcs[i] == Leaving(true) ==>
         r[k].pcs[i] != Missed && r[k].pcs[i] != Writing && Answered(r[k].pcs[i])
  }

  lemma StillAnswered(r: seq<State>, m: int, k: int)
    requires 0 < k < |r| && HitsAnswered(r, m, k - 1) && WaysKept(r[k - 1], r[k])
    ensures HitsAnswered(r, m, k)
  {
    forall i | 0 <= i < |r[m].pcs| && r[m].pcs[i] == Leaving(true) ensures Answered(r[k].pcs[i]) {
      assert Answered(r[k - 1].pcs[i]);
    }
  }

  /** In every run a thread whose search succeeded never takes w as a writer. */
  lemma {:induction false} HitNeverWrites(r: seq<State>, m: int, k: int)
    requires Run(r) && 0 <= m <= k < |r|
    ensures HitsAnswered(r, m, k)
    decreases k
  {
    if k > m {
      HitNeverWrites(r, m, k - 1);
      assert NextAt(r, k);
      NextFound(r[k - 1], r[k]);
      StillAnswered(r, m, k);
    }
  }

  /** A thread whose search failed can go on to the writers' section, and one whose search succeeded cannot. */
  lemma AfterLeft(s: State, i: int, found: bool)
    requires 0 <= i < |s.pcs| && s.pcs[i] == Left(found)
    ensures (exists t :: Step(s, t, i) && t.pcs == s.pcs[i := Missed]) <==> !found
  {
    var t := s.(mutex := s.mutex + 1, pcs := s.pcs[i := Missed]);
    assert s.pcs[i := Done][i] != s.pcs[i := Missed][i];
    if !found {
      assert Step(s, t, i);
    }
  }
}
