/** The allocation tracer (memtrace.c): every call of the traced program is counted, recorded and
    logged; the report at the end lists what was never freed. */
module MemTrace {
  import opened MemList

  /** What the underlying allocator answered is part of the call. */
  datatype Call =
    | Malloc(size: nat, ptr: nat)
    | Calloc(nmemb: nat, size: nat, ptr: nat)
    | Realloc(ptr: nat, size: nat, res: nat)
    | Free(ptr: nat)

  /** What the tracer does that can be seen: log lines, and calls of the underlying allocator. */
  datatype Event =
    | LogMalloc(size: nat, ptr: nat)
    | LogCalloc(nmemb: nat, size: nat, ptr: nat)
    | LogRealloc(ptr: nat, size: nat, res: nat)
    | LogFree(ptr: nat)
    | LogIllFree
    | LogDoubleFree
    | LogStatistics(total: nat, average: nat, freed: nat)
    | LogNonfreedStart
    | LogBlock(ptr: nat, size: nat, cnt: int)
    | AskMalloc(size: nat)
    | AskCalloc(nmemb: nat, size: nat)
    | AskRealloc(ptr: nat, size: nat)
    | AskFree(ptr: nat)

  const NULL: nat := 0

  datatype Book = Book(entries: seq<Entry>, allocb: nat, freeb: nat, requests: nat)

  // What a reader of the program would keep by hand: the live blocks, and the addresses ever handed out. NULL is
  // no block, and a reallocation that fails leaves its block; one to 0 bytes may free the block and answer NULL.

  ghost function LiveAfter(live: map<nat, nat>, c: Call): map<nat, nat> {
    match c
    case Malloc(size, ptr) => if ptr == NULL then live else live[ptr := size]
    case Calloc(nmemb, size, ptr) => if ptr == NULL then live else live[ptr := nmemb * size]
    case Realloc(ptr, size, res) =>
      if res != NULL then (live - {ptr})[res := size] else if size > 0 then live else live - {ptr}
    case Free(ptr) => live - {ptr}
  }

  ghost function SeenAfter(seen: set<nat>, c: Call): set<nat> {
    match c
    case Malloc(_, ptr) => if ptr == NULL then seen else seen + {ptr}
    case Calloc(_, _, ptr) => if ptr == NULL then seen else seen + {ptr}
    case Realloc(_, _, res) => if res == NULL then seen else seen + {res}
    case Free(_) => seen
  }

  ghost function Live(calls: seq<Call>): map<nat, nat> {
    if |calls| == 0 then map[] else LiveAfter(Live(calls[..|calls| - 1]), calls[|calls| - 1])
  }

  ghost function Seen(calls: seq<Call>): set<nat> {
    if |calls| == 0 then {} else SeenAfter(Seen(calls[..|calls| - 1]), calls[|calls| - 1])
  }

  /** The allocator does not hand out a block that is still live; realloc may return the old one. */
  ghost predicate Fresh(live: map<nat, nat>, c: Call) {
    match c
    case Malloc(_, ptr) => ptr !in live
    case Calloc(_, _, ptr) => ptr !in live
    case Realloc(ptr, _, res) => res !in live - {ptr}
    case Free(_) => true
  }

  /** Every answer of the allocator in the run was fresh. */
  ghost predicate AllFresh(calls: seq<Call>) {
    |calls| > 0 ==>
      var earlier := calls[..|calls| - 1];
      AllFresh(earlier) && Fresh(Live(earlier), calls[|calls| - 1])
  }

  /** The allocator has answered with a block, if it was asked for one. */
  ghost predicate Answered(c: Call) {
    match c
    case Malloc(_, ptr) => ptr != NULL
    case Calloc(_, _, ptr) => ptr != NULL
    case Realloc(_, _, res) => res != NULL
    case Free(_) => true
  }

  ghost predicate AllAnswered(calls: seq<Call>) {
    forall k {:trigger calls[k]} :: 0 <= k < |calls| ==> Answered(calls[k])
  }

  lemma PrefixAnswered(calls: seq<Call>)
    requires |calls| > 0 && AllAnswered(calls)
    ensures AllAnswered(calls[..|calls| - 1]) && Answered(calls[|calls| - 1])
  {
  }

  lemma {:induction false} NullUnseen(calls: seq<Call>)
    ensures NULL !in Seen(calls)
  {
    if |calls| > 0 {
      NullUnseen(calls[..|calls| - 1]);
    }
  }

  // What the tracer computes.

  ghost function After(b: Book, c: Call): Book {
    match c
    case Malloc(size, ptr) => Took(b, ptr, size)
    case Calloc(nmemb, size, ptr) => Took(b, ptr, nmemb * size)
    case Realloc(ptr, size, res) => Took(Gave(b, ptr), res, size)
    case Free(ptr) => Gave(b, ptr)
  }

  ghost function Took(b: Book, ptr: nat, size: nat): Book {
    Book(Allocated(b.entries, ptr, size), b.allocb + size, b.freeb, b.requests + 1)
  }

  ghost predicate Referenced(b: Book, ptr: nat) {
    Recorded(b.entries, ptr) && EntryOf(b.entries, ptr).cnt > 0
  }

  /** Only a block with a reference can be given back. */
  ghost function Gave(b: Book, ptr: nat): Book {
    if Referenced(b, ptr)
    then b.(entries := Deallocated(b.entries, ptr), freeb := b.freeb + EntryOf(b.entries, ptr).size)
    else b
  }

  ghost function Run(calls: seq<Call>): Book {
    if |calls| == 0 then Book([], 0, 0, 0) else After(Run(calls[..|calls| - 1]), calls[|calls| - 1])
  }

  /** The book says of every address what the hand-kept record says. */
  ghost predicate Agrees(es: seq<Entry>, live: map<nat, nat>, seen: set<nat>) {
    Ascending(es) && forall p: nat :: AgreesAt(es, live, seen, p)
  }

  ghost predicate AgreesAt(es: seq<Entry>, live: map<nat, nat>, seen: set<nat>, p: nat) {
    && (Recorded(es, p) <==> p in seen)
    && (Recorded(es, p) ==> EntryOf(es, p).cnt == if p in live then 1 else 0)
    && (p in live ==> Recorded(es, p) && EntryOf(es, p).size == live[p])
  }

  ghost function Bytes(e: Entry): int {
    if e.cnt == 1 then e.size else 0
  }

  ghost function LiveBytes(es: seq<Entry>): int {
    if |es| == 0 then 0 else Bytes(es[0]) + LiveBytes(es[1..])
  }

  lemma {:induction false} BytesSpliced(es: seq<Entry>, k: nat, e: Entry)
    requires k <= |es|
    ensures LiveBytes(Spliced(es, k, e)) == LiveBytes(es) + Bytes(e)
  {
    if k == 0 {
      assert Spliced(es, 0, e)[1..] == es;
    } else {
      assert Spliced(es, k, e)[1..] == Spliced(es[1..], k - 1, e);
      BytesSpliced(es[1..], k - 1, e);
    }
  }

  lemma {:induction false} BytesUpdated(es: seq<Entry>, k: nat, e: Entry)
    requires k < |es|
    ensures LiveBytes(es[k := e]) == LiveBytes(es) - Bytes(es[k]) + Bytes(e)
  {
    if k == 0 {
      assert es[0 := e][1..] == es[1..];
    } else {
      assert es[k := e][1..] == es[1..][k - 1 := e];
      BytesUpdated(es[1..], k - 1, e);
    }
  }

  ghost predicate Balanced(b: Book) {
    b.allocb - b.freeb == LiveBytes(b.entries)
  }

  lemma TookAgrees(es: seq<Entry>, live: map<nat, nat>, seen: set<nat>, ptr: nat, size: nat)
    requires Agrees(es, live, seen)
    ensures Agrees(Allocated(es, ptr, size), live[ptr := size], seen + {ptr}) <==> ptr !in live
    ensures ptr !in live ==> LiveBytes(Allocated(es, ptr, size)) == LiveBytes(es) + size
  {
    var after := Allocated(es, ptr, size);
    AscendingAfter(es, ptr, size);
    assert AgreesAt(es, live, seen, ptr);
    if ptr !in live {
      var nowLive, nowSeen := live[ptr := size], seen + {ptr};
      forall q: nat
        ensures AgreesAt(after, nowLive, nowSeen, q)
      {
        assert AgreesAt(es, live, seen, q);
        AllocatedEntry(es, ptr, size, q);
      }
      TookBytes(es, ptr, size);
    } else {
      AllocatedEntry(es, ptr, size, ptr);
      assert !AgreesAt(after, live[ptr := size], seen + {ptr}, ptr);
    }
  }

  lemma TookBytes(es: seq<Entry>, ptr: nat, size: nat)
    requires Recorded(es, ptr) ==> EntryOf(es, ptr).cnt == 0
    ensures LiveBytes(Allocated(es, ptr, size)) == LiveBytes(es) + size
  {
    if Recorded(es, ptr) {
      BytesUpdated(es, Position(es, ptr), Entry(ptr, size, 1));
    } else {
      BytesSpliced(es, Position(es, ptr), Entry(ptr, size, 1));
    }
  }

  lemma GaveAgrees(b: Book, live: map<nat, nat>, seen: set<nat>, ptr: nat)
    requires Agrees(b.entries, live, seen) && Balanced(b)
    ensures Agrees(Gave(b, ptr).entries, live - {ptr}, seen) && Balanced(Gave(b, ptr))
  {
    var es := b.entries;
    assert AgreesAt(es, live, seen, ptr);
    if ptr in live {
      AscendingAfter(es, ptr, 0);
      forall q: nat
        ensures AgreesAt(Deallocated(es, ptr), live - {ptr}, seen, q)
      {
        assert AgreesAt(es, live, seen, q);
        DeallocatedEntry(es, ptr, q);
      }
      BytesUpdated(es, Position(es, ptr), EntryOf(es, ptr).(cnt := 0));
    } else {
      assert live - {ptr} == live;
    }
  }

  /** Once NULL is recorded the book and the hand-kept record disagree. */
  lemma NullDisagrees(es: seq<Entry>, live: map<nat, nat>, seen: set<nat>)
    requires Recorded(es, NULL) && NULL !in seen
    ensures !Agrees(es, live, seen)
  {
    assert !AgreesAt(es, live, seen, NULL);
  }

  lemma TookNull(es: seq<Entry>, size: nat)
    requires Ascending(es)
    ensures Recorded(Allocated(es, NULL, size), NULL)
  {
    AllocatedEntry(es, NULL, size, NULL);
  }

  /** One call keeps the book right exactly when the allocator answered with a block that was not live. */
  lemma StepExactly(b: Book, live: map<nat, nat>, seen: set<nat>, c: Call)
    requires Agrees(b.entries, live, seen) && Balanced(b) && NULL !in seen
    ensures Agrees(After(b, c).entries, LiveAfter(live, c), SeenAfter(seen, c)) <==> Fresh(live, c) && Answered(c)
    ensures Fresh(live, c) && Answered(c) ==> Balanced(After(b, c))
  {
    if !Answered(c) {
      StepNull(b, c);
      NullDisagrees(After(b, c).entries, LiveAfter(live, c), SeenAfter(seen, c));
    } else {
      match c
      case Malloc(size, ptr) => TookAgrees(b.entries, live, seen, ptr, size);
      case Calloc(nmemb, size, ptr) => TookAgrees(b.entries, live, seen, ptr, nmemb * size);
      case Realloc(ptr, size, res) =>
        GaveAgrees(b, live, seen, ptr);
        TookAgrees(Gave(b, ptr).entries, live - {ptr}, seen, res, size);
      case Free(ptr) => GaveAgrees(b, live, seen, ptr);
    }
  }

  /** A NULL answer is recorded like any other. */
  lemma StepNull(b: Book, c: Call)
    requires Ascending(b.entries) && !Answered(c)
    ensures Recorded(After(b, c).entries, NULL)
  {
    match c
    case Malloc(size, _) => TookNull(b.entries, size);
    case Calloc(nmemb, size, _) => TookNull(b.entries, nmemb * size);
    case Realloc(ptr, size, _) =>
      AscendingAfter(b.entries, ptr, 0);
      TookNull(Gave(b, ptr).entries, size);
    case Free(_) =>
  }

  /** After any run whose answers were blocks that were not live the book agrees with the hand-kept record, and
      the bytes counted as allocated less those counted as freed are the bytes of the live blocks. */
  lemma {:induction false} RunAgrees(calls: seq<Call>)
    requires AllFresh(calls) && AllAnswered(calls)
    ensures Agrees(Run(calls).entries, Live(calls), Seen(calls)) && Balanced(Run(calls))
  {
    if |calls| == 0 {
    } else {
      var earlier := calls[..|calls| - 1];
      PrefixAnswered(calls);
      RunAgrees(earlier);
      NullUnseen(earlier);
      StepExactly(Run(earlier), Live(earlier), Seen(earlier), calls[|calls| - 1]);
    }
  }

  /** What is recorded stays recorded. */
  lemma RecordedStays(b: Book, c: Call, q: nat)
    requires Ascending(b.entries) && Recorded(b.entries, q)
    ensures Ascending(After(b, c).entries) && Recorded(After(b, c).entries, q)
  {
    match c
    case Malloc(size, ptr) => TookStays(b.entries, ptr, size, q);
    case Calloc(nmemb, size, ptr) => TookStays(b.entries, ptr, nmemb * size, q);
    case Realloc(ptr, size, res) =>
      AscendingAfter(b.entries, ptr, 0);
      DeallocatedEntry(b.entries, ptr, q);
      TookStays(Gave(b, ptr).entries, res, size, q);
    case Free(ptr) =>
      AscendingAfter(b.entries, ptr, 0);
      DeallocatedEntry(b.entries, ptr, q);
  }

  lemma TookStays(es: seq<Entry>, ptr: nat, size: nat, q: nat)
    requires Ascending(es) && Recorded(es, q)
    ensures Ascending(Allocated(es, ptr, size)) && Recorded(Allocated(es, ptr, size), q)
  {
    AscendingAfter(es, ptr, size);
    AllocatedEntry(es, ptr, size, q);
  }

  lemma {:induction false} NullStays(calls: seq<Call>)
    ensures Ascending(Run(calls).entries)
    ensures !AllAnswered(calls) ==> Recorded(Run(calls).entries, NULL)
  {
    if |calls| > 0 {
      var earlier, c := calls[..|calls| - 1], calls[|calls| - 1];
      NullStays(earlier);
      RunAscending(Run(earlier), c);
      if !Answered(c) {
        StepNull(Run(earlier), c);
      } else if !AllAnswered(calls) {
        SomeUnanswered(calls);
        RecordedStays(Run(earlier), c, NULL);
      }
    }
  }

  lemma SomeUnanswered(calls: seq<Call>)
    requires |calls| > 0 && !AllAnswered(calls) && Answered(calls[|calls| - 1])
    ensures !AllAnswered(calls[..|calls| - 1])
  {
    var k :| 0 <= k < |calls| && !Answered(calls[k]);
    assert calls[..|calls| - 1][k] == calls[k];
  }

  lemma RunAscending(b: Book, c: Call)
    requires Ascending(b.entries)
    ensures Ascending(After(b, c).entries)
  {
    match c
    case Malloc(size, ptr) => AscendingAfter(b.entries, ptr, size);
    case Calloc(nmemb, size, ptr) => AscendingAfter(b.entries, ptr, nmemb * size);
    case Realloc(ptr, size, res) =>
      AscendingAfter(b.entries, ptr, 0);
      AscendingAfter(Gave(b, ptr).entries, res, size);
    case Free(ptr) => AscendingAfter(b.entries, ptr, 0);
  }

  /** Over a run with fresh answers the book is right if and only if none of them was NULL: it never recovers. */
  lemma RunExactly(calls: seq<Call>)
    requires AllFresh(calls)
    ensures Agrees(Run(calls).entries, Live(calls), Seen(calls)) <==> AllAnswered(calls)
  {
    if AllAnswered(calls) {
      RunAgrees(calls);
    } else {
      NullStays(calls);
      NullUnseen(calls);
      NullDisagrees(Run(calls).entries, Live(calls), Seen(calls));
    }
  }

  // What the statistics count.

  /** The bytes a call asks for, and those of the live block it gives back. */
  ghost function Requested(c: Call): nat {
    match c
    case Malloc(size, _) => size
    case Calloc(nmemb, size, _) => nmemb * size
    case Realloc(_, size, _) => size
    case Free(_) => 0
  }

  ghost function GivenBack(live: map<nat, nat>, c: Call): nat {
    if (c.Realloc? || c.Free?) && c.ptr in live then live[c.ptr] else 0
  }

  ghost function AllRequested(calls: seq<Call>): nat {
    if |calls| == 0 then 0 else AllRequested(calls[..|calls| - 1]) + Requested(calls[|calls| - 1])
  }

  ghost function AllGivenBack(calls: seq<Call>): nat {
    if |calls| == 0 then 0
    else
      var earlier := calls[..|calls| - 1];
      AllGivenBack(earlier) + GivenBack(Live(earlier), calls[|calls| - 1])
  }

  /** The calls that ask for memory. */
  ghost function Asking(calls: seq<Call>): set<int> {
    set k | 0 <= k < |calls| && !calls[k].Free?
  }

  lemma AskingLast(calls: seq<Call>)
    requires |calls| > 0
    ensures var n := |calls| - 1;
            Asking(calls) == if calls[n].Free? then Asking(calls[..n]) else Asking(calls[..n]) + {n}
  {
  }

  /** Over every run the tracer counts the calls that ask for memory and the bytes they ask for. */
  lemma {:induction false} RunTotals(calls: seq<Call>)
    ensures Run(calls).requests == |Asking(calls)| && Run(calls).allocb == AllRequested(calls)
  {
    if |calls| > 0 {
      RunTotals(calls[..|calls| - 1]);
      AskingLast(calls);
    }
  }

  /** The call counts as freed the bytes of the live block it gives back. */
  ghost predicate GivesBack(b: Book, live: map<nat, nat>, c: Call) {
    After(b, c).freeb == b.freeb + GivenBack(live, c)
  }

  lemma GaveBytes(b: Book, live: map<nat, nat>, seen: set<nat>, c: Call)
    requires Agrees(b.entries, live, seen)
    ensures GivesBack(b, live, c)
  {
    if c.Realloc? || c.Free? {
      assert AgreesAt(b.entries, live, seen, c.ptr);
    }
  }

  /** While the book is right the bytes counted as freed are those of the live blocks given back. */
  lemma {:induction false} RunFreed(calls: seq<Call>)
    requires AllFresh(calls) && AllAnswered(calls)
    ensures Run(calls).freeb == AllGivenBack(calls)
  {
    if |calls| > 0 {
      PrefixAnswered(calls);
      RunFreed(calls[..|calls| - 1]);
      LastGave(calls);
    }
  }

  lemma LastGave(calls: seq<Call>)
    requires |calls| > 0 && AllFresh(calls) && AllAnswered(calls)
    ensures GivesBack(Run(calls[..|calls| - 1]), Live(calls[..|calls| - 1]), calls[|calls| - 1])
  {
    var earlier := calls[..|calls| - 1];
    PrefixAnswered(calls);
    RunAgrees(earlier);
    GaveBytes(Run(earlier), Live(earlier), Seen(earlier), calls[|calls| - 1]);
  }

  // What the book says of itself, whatever the answers mean.

  /** Every block has no reference or one, and the bytes counted are those of the blocks with one. */
  ghost predicate Sound(b: Book) {
    && Ascending(b.entries) && Balanced(b)
    && (forall p: nat {:trigger CountOk(b.entries, p)} :: CountOk(b.entries, p))
  }

  ghost predicate CountOk(es: seq<Entry>, p: nat) {
    Recorded(es, p) ==> EntryOf(es, p).cnt == 0 || EntryOf(es, p).cnt == 1
  }

  /** The answer is not recorded as live, whether it is a block or NULL. */
  ghost predicate Unreferenced(b: Book, c: Call) {
    match c
    case Malloc(_, ptr) => !Referenced(b, ptr)
    case Calloc(_, _, ptr) => !Referenced(b, ptr)
    case Realloc(ptr, _, res) => !Referenced(Gave(b, ptr), res)
    case Free(_) => true
  }

  ghost predicate AllUnreferenced(calls: seq<Call>) {
    |calls| > 0 ==>
      var earlier := calls[..|calls| - 1];
      AllUnreferenced(earlier) && Unreferenced(Run(earlier), calls[|calls| - 1])
  }

  lemma TookSound(b: Book, ptr: nat, size: nat)
    requires Sound(b)
    ensures Sound(Took(b, ptr, size)) <==> !Referenced(b, ptr)
  {
    var es, after := b.entries, Took(b, ptr, size).entries;
    AscendingAfter(es, ptr, size);
    assert CountOk(es, ptr);
    if !Referenced(b, ptr) {
      TookBytes(es, ptr, size);
      forall p: nat
        ensures CountOk(after, p)
      {
        assert CountOk(es, p);
        AllocatedEntry(es, ptr, size, p);
      }
    } else {
      AllocatedEntry(es, ptr, size, ptr);
      assert !CountOk(after, ptr);
    }
  }

  lemma GaveSound(b: Book, ptr: nat)
    requires Sound(b)
    ensures Sound(Gave(b, ptr))
  {
    var es := b.entries;
    assert CountOk(es, ptr);
    if Referenced(b, ptr) {
      AscendingAfter(es, ptr, 0);
      forall p: nat
        ensures CountOk(Deallocated(es, ptr), p)
      {
        assert CountOk(es, p);
        DeallocatedEntry(es, ptr, p);
      }
      BytesUpdated(es, Position(es, ptr), EntryOf(es, ptr).(cnt := 0));
    }
  }

  /** One call keeps the book sound exactly when the answer was not recorded as live. */
  lemma SoundExactly(b: Book, c: Call)
    requires Sound(b)
    ensures Sound(After(b, c)) <==> Unreferenced(b, c)
  {
    match c
    case Malloc(size, ptr) => TookSound(b, ptr, size);
    case Calloc(nmemb, size, ptr) => TookSound(b, ptr, nmemb * size);
    case Realloc(ptr, size, res) =>
      GaveSound(b, ptr);
      TookSound(Gave(b, ptr), res, size);
    case Free(ptr) => GaveSound(b, ptr);
  }

  /** In every run, illegal and double frees and NULL answers included, in which the allocator never answered with
      what was recorded as live, the book is sound. */
  lemma {:induction false} RunSound(calls: seq<Call>)
    requires AllUnreferenced(calls)
    ensures Sound(Run(calls))
  {
    if |calls| == 0 {
    } else {
      var earlier := calls[..|calls| - 1];
      RunSound(earlier);
      SoundExactly(Run(earlier), calls[|calls| - 1]);
    }
  }

  // What the tracer reports.

  /** What is logged when `ptr` cannot be given back. */
  ghost function Objection(b: Book, ptr: nat): Event {
    if Recorded(b.entries, ptr) then LogDoubleFree else LogIllFree
  }

  ghost function Events(b: Book, c: Call): seq<Event> {
    match c
    case Malloc(size, ptr) => [AskMalloc(size), LogMalloc(size, ptr)]
    case Calloc(nmemb, size, ptr) => [AskCalloc(nmemb, size), LogCalloc(nmemb, size, ptr)]
    case Realloc(ptr, size, res) =>
      if Referenced(b, ptr) then [AskRealloc(ptr, size), LogRealloc(ptr, size, res)]
      else [AskRealloc(NULL, size), LogRealloc(ptr, size, res), Objection(b, ptr)]
    case Free(ptr) =>
      if Referenced(b, ptr) then [AskFree(ptr), LogFree(ptr)]
      else [LogFree(ptr), Objection(b, ptr)]
  }

  /** A block is given to the underlying allocator only if it is live; giving back what was never handed
      out is reported as illegal, and giving back what is no longer live as a double free. */
  ghost predicate Diagnosed(b: Book, live: map<nat, nat>, seen: set<nat>, ptr: nat) {
    var wrong := if ptr in seen then LogDoubleFree else LogIllFree;
    && Events(b, Free(ptr)) == (if ptr in live then [AskFree(ptr), LogFree(ptr)] else [LogFree(ptr), wrong])
    && forall size, res :: Events(b, Realloc(ptr, size, res)) ==
         if ptr in live then [AskRealloc(ptr, size), LogRealloc(ptr, size, res)]
         else [AskRealloc(NULL, size), LogRealloc(ptr, size, res), wrong]
  }

  /** All that can be seen of a run. */
  ghost function Log(calls: seq<Call>): seq<Event> {
    if |calls| == 0 then []
    else
      var earlier := calls[..|calls| - 1];
      Log(earlier) + Events(Run(earlier), calls[|calls| - 1])
  }

  lemma DiagnosedAt(b: Book, live: map<nat, nat>, seen: set<nat>, ptr: nat)
    requires Agrees(b.entries, live, seen)
    ensures Diagnosed(b, live, seen, ptr)
  {
    assert AgreesAt(b.entries, live, seen, ptr);
  }

  lemma Diagnosis(calls: seq<Call>, ptr: nat)
    requires AllFresh(calls) && AllAnswered(calls)
    ensures Diagnosed(Run(calls), Live(calls), Seen(calls), ptr)
  {
    RunAgrees(calls);
    DiagnosedAt(Run(calls), Live(calls), Seen(calls), ptr);
  }

  ghost function Unfreed(es: seq<Entry>): seq<Event> {
    if |es| == 0 then []
    else
      var n := |es| - 1;
      Unfreed(es[..n]) + if es[n].cnt != 0 then [LogBlock(es[n].ptr, es[n].size, es[n].cnt)] else []
  }

  lemma {:induction false} UnfreedIs(es: seq<Entry>, e: Event)
    ensures e in Unfreed(es) <==>
              exists k :: 0 <= k < |es| && es[k].cnt != 0 && e == LogBlock(es[k].ptr, es[k].size, es[k].cnt)
  {
    if |es| > 0 {
      UnfreedIs(es[..|es| - 1], e);
    }
  }

  lemma LeftOver(es: seq<Entry>, live: map<nat, nat>, seen: set<nat>, e: Event)
    requires Agrees(es, live, seen)
    ensures e in Unfreed(es) <==> e.LogBlock? && e.ptr in live && e.size == live[e.ptr] && e.cnt == 1
  {
    UnfreedIs(es, e);
    if e.LogBlock? {
      assert AgreesAt(es, live, seen, e.ptr);
      if k :| 0 <= k < |es| && es[k].cnt != 0 && e == LogBlock(es[k].ptr, es[k].size, es[k].cnt) {
        RecordedAt(es, e.ptr, k);
      }
    }
  }

  /** Lines of the report, in ascending order of address. */
  ghost predicate InAddressOrder(lines: seq<Event>) {
    && (forall k {:trigger lines[k]} :: 0 <= k < |lines| ==> lines[k].LogBlock?)
    && (forall j, k {:trigger lines[j], lines[k]} :: 0 <= j < k < |lines| ==>
          lines[j].LogBlock? && lines[k].LogBlock? && lines[j].ptr < lines[k].ptr)
  }

  lemma {:induction false} UnfreedOrder(es: seq<Entry>)
    requires Ascending(es)
    ensures InAddressOrder(Unfreed(es))
    ensures forall k {:trigger Unfreed(es)[k]} :: 0 <= k < |Unfreed(es)| ==>
              Unfreed(es)[k].LogBlock? && |es| > 0 && Unfreed(es)[k].ptr <= es[|es| - 1].ptr
  {
    if |es| > 1 {
      UnfreedOrder(es[..|es| - 1]);
      assert es[|es| - 2].ptr < es[|es| - 1].ptr;
    }
  }

  /** The report names exactly the live blocks, with their sizes, each once and in ascending order of address. */
  lemma LeakReport(calls: seq<Call>, e: Event)
    requires AllFresh(calls) && AllAnswered(calls)
    ensures e in Unfreed(Run(calls).entries) <==>
            e.LogBlock? && e.ptr in Live(calls) && e.size == Live(calls)[e.ptr] && e.cnt == 1
    ensures InAddressOrder(Unfreed(Run(calls).entries))
  {
    RunAgrees(calls);
    LeftOver(Run(calls).entries, Live(calls), Seen(calls), e);
    UnfreedOrder(Run(calls).entries);
  }

  /** NULL is treated like an address that was never handed out. */
  ghost predicate NullRefused(b: Book) {
    && Events(b, Free(NULL)) == [LogFree(NULL), LogIllFree]
    && forall size, res :: Events(b, Realloc(NULL, size, res)) ==
         [AskRealloc(NULL, size), LogRealloc(NULL, size, res), LogIllFree]
  }

  lemma NullRefusedAt(b: Book, live: map<nat, nat>, seen: set<nat>)
    requires Agrees(b.entries, live, seen) && NULL !in seen
    ensures NullRefused(b)
  {
    assert AgreesAt(b.entries, live, seen, NULL);
  }

  /** Freeing NULL and reallocating it are legal; both are logged as illegal frees. */
  lemma NullIsIllegal(calls: seq<Call>)
    requires AllFresh(calls) && AllAnswered(calls)
    ensures NullRefused(Run(calls))
  {
    RunAgrees(calls);
    NullUnseen(calls);
    NullRefusedAt(Run(calls), Live(calls), Seen(calls));
  }

  /** The report omits the block at `ptr` and names one at NULL, and freeing `ptr` is reported as a double free and
      never reaches the allocator. */
  ghost predicate Misreports(b: Book, ptr: nat, size: nat) {
    && Unfreed(b.entries) == [LogBlock(NULL, size, 1)]
    && Events(b, Free(ptr)) == [LogFree(ptr), LogDoubleFree]
  }

  lemma AfterFailure(b: Book)
    requires b.entries == [Entry(NULL, 1000, 1), Entry(16, 8, 0)]
    ensures Misreports(b, 16, 1000)
  {
    var es := b.entries;
    assert es[..1] == [Entry(NULL, 1000, 1)] && es[..1][..0] == [];
    assert Unfreed(es[..1]) == [LogBlock(NULL, 1000, 1)];
    assert Ascending(es);
    RecordedAt(es, 16, 1);
  }

  lemma FailingStep(b: Book)
    requires b.entries == [Entry(16, 8, 1)]
    ensures After(b, Realloc(16, 1000, NULL)).entries == [Entry(NULL, 1000, 1), Entry(16, 8, 0)]
  {
    RecordedAt(b.entries, 16, 0);
    var freed := [Entry(16, 8, 0)];
    assert Gave(b, 16).entries == freed && Position(freed, NULL) == 0;
    assert Spliced(freed, 0, Entry(NULL, 1000, 1)) == [Entry(NULL, 1000, 1), Entry(16, 8, 0)];
  }

  lemma FirstStep(b: Book)
    requires b.entries == []
    ensures After(b, Malloc(8, 16)).entries == [Entry(16, 8, 1)]
  {
    assert Position([], 16) == 0;
  }

  /** One more call. */
  lemma OneMore(earlier: seq<Call>, c: Call)
    ensures var calls := earlier + [c];
            && Run(calls) == After(Run(earlier), c) && Live(calls) == LiveAfter(Live(earlier), c)
            && (AllFresh(calls) <==> AllFresh(earlier) && Fresh(Live(earlier), c))
  {
    assert (earlier + [c])[..|earlier|] == earlier;
  }

  /** A run with a reallocation that fails: its block is still live, and the report and the diagnosis are wrong. */
  lemma FailedRealloc()
    ensures var calls := [Malloc(8, 16)] + [Realloc(16, 1000, NULL)];
            AllFresh(calls) && Live(calls) == map[16 := 8] && Misreports(Run(calls), 16, 1000)
  {
    var first, failing := [Malloc(8, 16)], Realloc(16, 1000, NULL);
    assert first == [] + [Malloc(8, 16)];
    OneMore([], Malloc(8, 16));
    FirstStep(Run([]));
    OneMore(first, failing);
    FailingStep(Run(first));
    AfterFailure(Run(first + [failing]));
  }

  datatype Outcome = Reported | DividedByZero

  class Tracer {
    const list: List
    var nMalloc: nat
    var nCalloc: nat
    var nRealloc: nat
    var nAllocb: nat
    var nFreeb: nat

    /** Everything logged and everything asked of the underlying allocator, in order. */
    var events: seq<Event>

    ghost predicate Valid()
      reads list, list.dummy, list.nodes
    {
      list.Valid() && forall k :: 0 <= k < |list.entries| ==> list.entries[k].cnt >= 0
    }

    ghost function View(): Book
      reads this, list
    {
      Book(list.entries, nAllocb, nFreeb, nMalloc + nCalloc + nRealloc)
    }

    /** init */
    constructor ()
      ensures Valid() && View() == Run([]) && events == [] && fresh(list) && fresh(list.dummy) && list.nodes == []
    {
      list := new List();
      nMalloc, nCalloc, nRealloc, nAllocb, nFreeb := 0, 0, 0, 0, 0;
      events := [];
    }

    /** malloc; `ptr` is what the underlying malloc returned. */
    method Malloc(size: nat, ptr: nat)
      requires Valid()
      modifies this, list, list.dummy, list.nodes
      ensures Valid() && forall n :: n in list.nodes ==> n in old(list.nodes) || fresh(n)
      ensures View() == After(old(View()), Call.Malloc(size, ptr))
      ensures events == old(events) + Events(old(View()), Call.Malloc(size, ptr))
      ensures events == old(events) + [AskMalloc(size), LogMalloc(size, ptr)]
      ensures nMalloc == old(nMalloc) + 1 && nAllocb == old(nAllocb) + size
    {
      events := events + [AskMalloc(size)];
      nMalloc := nMalloc + 1;
      nAllocb := nAllocb + size;
      Record(ptr, size);
      events := events + [LogMalloc(size, ptr)];
    }

    /** calloc */
    method Calloc(nmemb: nat, size: nat, ptr: nat)
      requires Valid()
      modifies this, list, list.dummy, list.nodes
      ensures Valid() && forall n :: n in list.nodes ==> n in old(list.nodes) || fresh(n)
      ensures View() == After(old(View()), Call.Calloc(nmemb, size, ptr))
      ensures events == old(events) + Events(old(View()), Call.Calloc(nmemb, size, ptr))
      ensures events == old(events) + [AskCalloc(nmemb, size), LogCalloc(nmemb, size, ptr)]
      ensures nCalloc == old(nCalloc) + 1 && nAllocb == old(nAllocb) + nmemb * size
    {
      events := events + [AskCalloc(nmemb, size)];
      nCalloc := nCalloc + 1;
      nAllocb := nAllocb + nmemb * size;
      Record(ptr, nmemb * size);
      events := events + [LogCalloc(nmemb, size, ptr)];
    }

    /** realloc; `res` is what the underlying realloc returned. */
    method Realloc(ptr: nat, size: nat, res: nat)
      requires Valid()
      modifies this, list, list.dummy, list.nodes
      ensures Valid() && forall n :: n in list.nodes ==> n in old(list.nodes) || fresh(n)
      ensures View() == After(old(View()), Call.Realloc(ptr, size, res))
      ensures events == old(events) + Events(old(View()), Call.Realloc(ptr, size, res))
    {
      ghost var given := Gave(View(), ptr);
      var i := Lookup(ptr);
      if i != null && i.cnt > 0 {
        Exchange(ptr, size, res, i.size, given);
      } else if i == null {
        Refuse(ptr, size, res, LogIllFree, given);
      } else if i.cnt == 0 {
        Refuse(ptr, size, res, LogDoubleFree, given);
      }
      CountRealloc(size, res, given);
    }

    method CountRealloc(size: nat, res: nat, ghost given: Book)
      requires list.entries == Allocated(given.entries, res, size)
      requires nFreeb == given.freeb && nAllocb == given.allocb && nMalloc + nCalloc + nRealloc == given.requests
      modifies `nRealloc, `nAllocb
      ensures View() == Took(given, res, size)
    {
      nRealloc := nRealloc + 1;
      nAllocb := nAllocb + size;
    }

    /** realloc of a live block: the block at `ptr` is given back, the one at `res` recorded. */
    method Exchange(ptr: nat, size: nat, res: nat, oldSize: nat, ghost given: Book)
      requires Valid() && given == Gave(View(), ptr)
      requires Referenced(View(), ptr) && oldSize == EntryOf(list.entries, ptr).size
      modifies `nFreeb, `events, list, list.dummy, list.nodes
      ensures Valid() && forall n :: n in list.nodes ==> n in old(list.nodes) || fresh(n)
      ensures list.entries == Allocated(given.entries, res, size) && nFreeb == given.freeb
      ensures events == old(events) + Events(old(View()), Call.Realloc(ptr, size, res))
    {
      nFreeb := nFreeb + oldSize;
      events := events + [AskRealloc(ptr, size), LogRealloc(ptr, size, res)];
      Swap(ptr, res, size);
    }

    /** dealloc of the old block, then alloc of the new one. */
    method Swap(ptr: nat, res: nat, size: nat)
      requires Valid() && Referenced(View(), ptr)
      modifies list, list.dummy, list.nodes
      ensures Valid() && forall n :: n in list.nodes ==> n in old(list.nodes) || fresh(n)
      ensures list.entries == Allocated(Deallocated(old(list.entries), ptr), res, size)
    {
      var _ := Release(ptr);
      Record(res, size);
    }

    /** realloc of any other address: a new block is handed out, and the mistake logged. */
    method Refuse(ptr: nat, size: nat, res: nat, mistake: Event, ghost given: Book)
      requires Valid() && given == Gave(View(), ptr) && !Referenced(View(), ptr) && mistake == Objection(View(), ptr)
      modifies `events, list, list.dummy, list.nodes
      ensures Valid() && forall n :: n in list.nodes ==> n in old(list.nodes) || fresh(n)
      ensures list.entries == Allocated(given.entries, res, size) && nFreeb == given.freeb
      ensures events == old(events) + Events(old(View()), Call.Realloc(ptr, size, res))
    {
      events := events + [AskRealloc(NULL, size), LogRealloc(ptr, size, res), mistake];
      Record(res, size);
    }

    /** free */
    method Free(ptr: nat)
      requires Valid()
      modifies this, list, list.nodes
      ensures Valid() && list.nodes == old(list.nodes)
      ensures View() == After(old(View()), Call.Free(ptr))
      ensures events == old(events) + Events(old(View()), Call.Free(ptr))
    {
      var i := Lookup(ptr);
      if i == null {
        events := events + [LogFree(ptr), LogIllFree];
        return;
      }
      if i.cnt == 0 {
        events := events + [LogFree(ptr), LogDoubleFree];
        return;
      }
      var freed := Release(ptr);
      nFreeb := nFreeb + freed.size;
      events := events + [AskFree(ptr), LogFree(ptr)];
    }

    method Lookup(ptr: nat) returns (i: Item?)
      requires Valid()
      ensures i != null <==> Recorded(list.entries, ptr)
      ensures i != null ==> EntryOf(list.entries, ptr) == Entry(ptr, i.size, i.cnt) && i.cnt >= 0
    {
      i := list.Find(ptr);
    }

    method Record(ptr: nat, size: nat)
      requires Valid()
      modifies list, list.dummy, list.nodes
      ensures Valid() && forall n :: n in list.nodes ==> n in old(list.nodes) || fresh(n)
      ensures list.entries == Allocated(old(list.entries), ptr, size)
    {
      list.Alloc(ptr, size);
    }

    method Release(ptr: nat) returns (freed: Item)
      requires Valid() && Referenced(View(), ptr)
      modifies list, list.nodes
      ensures Valid() && list.nodes == old(list.nodes)
      ensures list.entries == Deallocated(old(list.entries), ptr) && freed.size == EntryOf(old(list.entries), ptr).size
    {
      var r := list.Dealloc(ptr);
      freed := r;
    }

    method Step(c: Call)
      requires Valid()
      modifies this, list, list.dummy, list.nodes
      ensures Valid() && forall n :: n in list.nodes ==> n in old(list.nodes) || fresh(n)
      ensures View() == After(old(View()), c) && events == old(events) + Events(old(View()), c)
    {
      match c {
        case Malloc(size, ptr) => Malloc(size, ptr);
        case Calloc(nmemb, size, ptr) => Calloc(nmemb, size, ptr);
        case Realloc(ptr, size, res) => Realloc(ptr, size, res);
        case Free(ptr) => Free(ptr);
      }
    }

    /** fini: the statistics divide by the number of requests, and a program that made none stops there. */
    method Fini() returns (r: Outcome)
      requires Valid()
      modifies `events
      ensures r.DividedByZero? <==> View().requests == 0
      ensures r.DividedByZero? ==> events == old(events)
      ensures r.Reported? ==>
                var b, left := View(), Unfreed(list.entries);
                && b.requests > 0
                && events == old(events) + [LogStatistics(b.allocb, b.allocb / b.requests, b.freeb)]
                             + (if left == [] then [] else [LogNonfreedStart] + left)
    {
      if nMalloc + nCalloc + nRealloc == 0 {
        return DividedByZero;
      }
      events := events + [LogStatistics(nAllocb, nAllocb / (nMalloc + nCalloc + nRealloc), nFreeb)];
      var isAnyBlock := AnyUnfreed();
      if isAnyBlock {
        events := events + [LogNonfreedStart];
        LogUnfreed();
      }
      return Reported;
    }

    /** The first walk of fini. */
    method AnyUnfreed() returns (isAnyBlock: bool)
      requires Valid()
      ensures isAnyBlock <==> Unfreed(list.entries) != []
    {
      var i := list.dummy.next;
      ghost var k := 0;
      while i != null
        invariant 0 <= k <= |list.nodes| && i == list.At(list.nodes, k)
        invariant Unfreed(list.entries[..k]) == []
        decreases |list.nodes| - k
      {
        assert list.entries[..k + 1][..k] == list.entries[..k];
        if i.cnt != 0 {
          UnfreedIs(list.entries, LogBlock(i.ptr, i.size, i.cnt));
          return true;
        }
        i := i.next;
        k := k + 1;
      }
      assert list.entries[..k] == list.entries;
      return false;
    }

    /** The second walk of fini. */
    method LogUnfreed()
      requires Valid()
      modifies `events
      ensures events == old(events) + Unfreed(list.entries)
    {
      var i := list.dummy.next;
      ghost var k := 0;
      while i != null
        invariant 0 <= k <= |list.nodes| && i == list.At(list.nodes, k)
        invariant events == old(events) + Unfreed(list.entries[..k])
        decreases |list.nodes| - k
      {
        assert list.entries[..k + 1][..k] == list.entries[..k];
        if i.cnt != 0 {
          events := events + [LogBlock(i.ptr, i.size, i.cnt)];
        }
        i := i.next;
        k := k + 1;
      }
      assert list.entries[..k] == list.entries;
    }
  }

  /** A whole program under the tracer. */
  method Trace(calls: seq<Call>) returns (t: Tracer)
    ensures t.Valid() && t.View() == Run(calls) && t.events == Log(calls)
  {
    t := new Tracer();
    for k := 0 to |calls|
      invariant t.Valid() && t.View() == Run(calls[..k]) && t.events == Log(calls[..k])
      invariant fresh(t) && fresh(t.list) && fresh(t.list.dummy) && fresh(t.list.nodes)
    {
      assert calls[..k + 1][..k] == calls[..k];
      ghost var before := t.list.nodes;
      t.Step(calls[k]);
      forall j | 0 <= j < |t.list.nodes|
        ensures fresh(t.list.nodes[j])
      {
        var n := t.list.nodes[j];
        assert n in t.list.nodes;
        if i :| 0 <= i < |before| && before[i] == n {
        }
      }
    }
    assert calls[..|calls|] == calls;
  }
}
