/** The proxy's page cache (cache.c), run by one thread at a time: a doubly linked list kept from
    the least to the most recently used item. */
module Cache {

  const MAX_CACHE_SIZE: int := 1049000
  const MAX_OBJECT_SIZE: int := 102400

  function LowerChar(c: char): char {
    if 'A' <= c <= 'Z' then c - 'A' + 'a' else c
  }

  /** Two characters that agree once lowered are the same, or the two cases of one letter. */
  lemma SameLetter(c: char, d: char)
    ensures LowerChar(c) == LowerChar(d) <==>
            c == d || ('A' <= c <= 'Z' && d as int == c as int + 32) || ('A' <= d <= 'Z' && c as int == d as int + 32)
  {
  }

  /** strcasecmp(s, t) == 0 */
  predicate SameIgnoringCase(s: string, t: string) {
    |s| == |t| && forall k :: 0 <= k < |s| ==> LowerChar(s[k]) == LowerChar(t[k])
  }

  class CachedItem {
    const hostname: string
    const pathname: string
    const data: string
    const size: int
    const port: int
    var prev: CachedItem?
    var next: CachedItem?

    /** create_CI: the size counts the terminator of the data. */
    constructor (hostname: string, port: int, pathname: string, data: string)
      ensures this.hostname == hostname && this.pathname == pathname && this.data == data && this.port == port
      ensures size == |data| + 1
    {
      this.hostname := hostname;
      this.pathname := pathname;
      this.data := data;
      this.port := port;
      size := |data| + 1;
      prev, next := null, null;
    }

    /** isSame: the port plays no part. */
    predicate IsSame(hostname: string, port: int, pathname: string) {
      SameIgnoringCase(this.hostname, hostname) && SameIgnoringCase(this.pathname, pathname)
    }
  }

  ghost function Total(items: seq<CachedItem>): int {
    if |items| == 0 then 0 else items[0].size + Total(items[1..])
  }

  lemma {:induction false} TotalAppend(items: seq<CachedItem>, c: CachedItem)
    ensures Total(items + [c]) == Total(items) + c.size
  {
    if |items| == 0 {
      assert items + [c] == [c];
    } else {
      assert (items + [c])[1..] == items[1..] + [c];
      TotalAppend(items[1..], c);
    }
  }

  lemma {:induction false} TotalRemove(items: seq<CachedItem>, k: nat)
    requires k < |items|
    ensures Total(Removed(items, k)) == Total(items) - items[k].size
  {
    if k == 0 {
      assert Removed(items, 0) == items[1..];
    } else {
      assert Removed(items, k)[1..] == Removed(items[1..], k - 1);
      TotalRemove(items[1..], k - 1);
    }
  }

  ghost function Removed(items: seq<CachedItem>, k: nat): seq<CachedItem>
    requires k < |items|
  {
    items[..k] + items[k + 1..]
  }

  /** The order after the item at `k` has been used. */
  ghost function Touched(items: seq<CachedItem>, k: nat): seq<CachedItem>
    requires k < |items|
  {
    Removed(items, k) + [items[k]]
  }

  ghost predicate Distinct(items: seq<CachedItem>) {
    forall j, k {:trigger items[j], items[k]} :: 0 <= j < k < |items| ==> items[j] != items[k]
  }

  /** The items are distinct and go from the least to the most recently used. */
  ghost predicate InOrder(items: seq<CachedItem>, used: map<CachedItem, int>, now: int) {
    && Distinct(items)
    && (forall k {:trigger items[k]} :: 0 <= k < |items| ==>
          0 < items[k].size && items[k] in used && used[items[k]] <= now)
    && (forall j, k {:trigger items[j], items[k]} :: 0 <= j < k < |items| ==>
          items[j] in used && items[k] in used && used[items[j]] < used[items[k]])
  }

  lemma AppendOrder(items: seq<CachedItem>, used: map<CachedItem, int>, now: int, c: CachedItem)
    requires InOrder(items, used, now) && c !in items && c.size > 0
    ensures InOrder(items + [c], used[c := now + 1], now + 1)
  {
  }

  lemma RemoveOrder(items: seq<CachedItem>, used: map<CachedItem, int>, now: int, k: nat)
    requires InOrder(items, used, now) && k < |items|
    ensures InOrder(Removed(items, k), used, now) && items[k] !in Removed(items, k)
  {
    forall j | 0 <= j < |items| - 1
      ensures Removed(items, k)[j] == items[if j < k then j else j + 1]
    {
    }
  }

  /** Using the item at `k` again keeps the order and the total. */
  lemma TouchOrder(items: seq<CachedItem>, used: map<CachedItem, int>, now: int, k: nat)
    requires InOrder(items, used, now) && k < |items|
    ensures InOrder(Touched(items, k), used[items[k] := now + 1], now + 1)
    ensures |Touched(items, k)| == |items| && Total(Touched(items, k)) == Total(items)
  {
    RemoveOrder(items, used, now, k);
    AppendOrder(Removed(items, k), used, now, items[k]);
    TotalRemove(items, k);
    TotalAppend(Removed(items, k), items[k]);
  }

  /** The fewest oldest items that must go for `size` more bytes to fit. */
  ghost function Evicted(items: seq<CachedItem>, size: int): (n: nat)
    ensures n <= |items|
  {
    if |items| == 0 || Total(items) + size <= MAX_CACHE_SIZE then 0 else 1 + Evicted(items[1..], size)
  }

  lemma {:induction false} EvictedFewest(items: seq<CachedItem>, size: int, n: nat)
    requires n <= |items| && size <= MAX_CACHE_SIZE
    ensures n < Evicted(items, size) ==> Total(items[n..]) + size > MAX_CACHE_SIZE
    ensures Total(items[Evicted(items, size)..]) + size <= MAX_CACHE_SIZE
    decreases |items|
  {
    if |items| > 0 && Total(items) + size > MAX_CACHE_SIZE {
      var e := Evicted(items[1..], size);
      assert items[1 + e..] == items[1..][e..];
      EvictedFewest(items[1..], size, if n == 0 then 0 else n - 1);
      if n > 0 {
        assert items[n..] == items[1..][n - 1..];
      } else {
        assert items[0..] == items;
      }
    } else {
      assert items[0..] == items;
    }
  }

  lemma FewestEvicted(items: seq<CachedItem>, size: int)
    requires size <= MAX_CACHE_SIZE
    ensures var n := Evicted(items, size);
            && Total(items[n..]) + size <= MAX_CACHE_SIZE
            && forall m {:trigger items[m..]} | 0 <= m < n :: Total(items[m..]) + size > MAX_CACHE_SIZE
  {
    EvictedFewest(items, size, 0);
    forall m | 0 <= m < Evicted(items, size) ensures Total(items[m..]) + size > MAX_CACHE_SIZE {
      EvictedFewest(items, size, m);
    }
  }

  /** The item find_cache returns: the last that matches, since the walk starts from the tail. */
  ghost function LastMatch(items: seq<CachedItem>, hostname: string, port: int, pathname: string): (k: int)
    ensures -1 <= k < |items|
    ensures k >= 0 ==>
              SameIgnoringCase(items[k].hostname, hostname) && SameIgnoringCase(items[k].pathname, pathname)
    ensures forall j {:trigger items[j]} | k < j < |items| ::
              !(SameIgnoringCase(items[j].hostname, hostname) && SameIgnoringCase(items[j].pathname, pathname))
  {
    var n := |items| - 1;
    if n < 0 || items[n].IsSame(hostname, port, pathname) then n else LastMatch(items[..n], hostname, port, pathname)
  }

  class List {
    var head: CachedItem?
    var tail: CachedItem?
    var totalSize: int
    var numCachedItem: int

    /** The items in list order; when each was last inserted or found; and the time. */
    ghost var items: seq<CachedItem>
    ghost var lastUse: map<CachedItem, int>
    ghost var now: int

    /** The links of the list, from head to tail and back, are those of `s`. */
    ghost predicate Links(s: seq<CachedItem>)
      reads `head, `tail, s
    {
      && (|s| == 0 ==> head == null && tail == null)
      && (|s| > 0 ==> head == s[0] && tail == s[|s| - 1] && s[0].prev == null && s[|s| - 1].next == null)
      && (forall k {:trigger s[k].next} :: 0 <= k < |s| - 1 ==> s[k].next == s[k + 1])
      && (forall k {:trigger s[k].prev} :: 0 < k < |s| ==> s[k].prev == s[k - 1])
    }

    /** What does not depend on the links: sizes, counters and order of use. */
    ghost predicate Counted()
      reads `totalSize, `numCachedItem, `items, `lastUse, `now
    {
      && numCachedItem == |items| && totalSize == Total(items) <= MAX_CACHE_SIZE
      && InOrder(items, lastUse, now)
    }

    ghost predicate Valid()
      reads this, items
    {
      Counted() && Links(items)
    }

    /** cache_init */
    constructor ()
      ensures Valid() && items == []
    {
      tail, head := null, null;
      totalSize, numCachedItem := 0, 0;
      items, lastUse, now := [], map[], 0;
    }

    /** remove_LRU: the least recently used item goes. */
    method RemoveLRU()
      requires Valid()
      modifies this, items
      ensures Valid()
      ensures items == if old(items) == [] then [] else old(items)[1..]
      ensures now == old(now) && lastUse == old(lastUse)
    {
      if numCachedItem == 0 {
        return;
      }
      var lru := UnlinkHead();
      Discount(lru);
    }

    /** The links of remove_LRU: the head goes. */
    method UnlinkHead() returns (lru: CachedItem)
      requires Links(items) && Distinct(items) && numCachedItem == |items| > 0
      modifies `head, `tail, items
      ensures lru == items[0] && Links(items[1..])
    {
      lru := head;
      if numCachedItem == 1 {
        head, tail := null, null;
      } else {
        head := lru.next;
        head.prev := null;
      }
    }

    /** The counters of remove_LRU, and the order of use without its first item. */
    method Discount(lru: CachedItem)
      requires Counted() && |items| > 0 && lru == items[0]
      modifies `totalSize, `numCachedItem, `items
      ensures Counted() && items == old(items)[1..]
    {
      totalSize := totalSize - lru.size;
      numCachedItem := numCachedItem - 1;
      assert forall k :: 0 <= k < |items| - 1 ==> items[1..][k] == items[k + 1];
      items := items[1..];
    }

    /** insert_cache: an object that is not too large goes to the end, after the fewest oldest items that make room. */
    method InsertCache(c: CachedItem)
      requires Valid() && c !in items && c.size > 0
      modifies this, items, c
      ensures Valid()
      ensures c.size > 102400 ==> items == old(items)
      ensures c.size <= 102400 ==>
                var n := Evicted(old(items), c.size);
                && items == old(items)[n..] + [c] && Total(old(items)[n..]) + c.size <= 1049000
                && forall m {:trigger old(items)[m..]} | 0 <= m < n :: Total(old(items)[m..]) + c.size > 1049000
      ensures c.size <= 102400 ==> now == old(now) + 1 && lastUse == old(lastUse)[c := now]
    {
      if c.size > MAX_OBJECT_SIZE {
        return;
      }
      FewestEvicted(items, c.size);
      MakeRoom(c);
      Append(c);
    }

    /** The loop of insert_cache. */
    method MakeRoom(c: CachedItem)
      requires Valid() && c !in items && 0 < c.size <= MAX_CACHE_SIZE
      modifies this, items
      ensures Valid() && items == old(items)[Evicted(old(items), c.size)..]
      ensures totalSize + c.size <= MAX_CACHE_SIZE && now == old(now) && lastUse == old(lastUse)
    {
      ghost var all, gone := items, 0;
      while totalSize + c.size > MAX_CACHE_SIZE
        invariant Valid() && 0 <= gone <= |all| && items == all[gone..]
        invariant Evicted(all, c.size) == gone + Evicted(items, c.size)
        invariant now == old(now) && lastUse == old(lastUse)
        decreases |items|
      {
        RemoveLRU();
        assert items == all[gone..][1..] == all[gone + 1..];
        gone := gone + 1;
      }
    }

    /** The links of insert_cache: `c` becomes the last node. */
    method LinkLast(c: CachedItem)
      requires Links(items) && Distinct(items) && numCachedItem == |items| && c !in items
      modifies `head, `tail, items, c
      ensures Links(items + [c])
    {
      if numCachedItem == 0 {
        head, tail := c, c;
        c.next, c.prev := null, null;
      } else {
        c.prev := tail;
        tail.next := c;
        tail := c;
        c.next := null;
      }
    }

    /** The counters of insert_cache, and the order of use with `c` last. */
    method Account(c: CachedItem)
      requires Counted() && c !in items && c.size > 0 && totalSize + c.size <= MAX_CACHE_SIZE
      modifies `totalSize, `numCachedItem, `items, `lastUse, `now
      ensures Counted()
      ensures items == old(items) + [c] && now == old(now) + 1 && lastUse == old(lastUse)[c := now]
    {
      totalSize := totalSize + c.size;
      numCachedItem := numCachedItem + 1;
      TotalAppend(items, c);
      AppendOrder(items, lastUse, now, c);
      items, lastUse, now := items + [c], lastUse[c := now + 1], now + 1;
    }

    /** The end of insert_cache. */
    method Append(c: CachedItem)
      requires Valid() && c !in items && c.size > 0 && totalSize + c.size <= MAX_CACHE_SIZE
      modifies this, items, c
      ensures Valid()
      ensures items == old(items) + [c] && now == old(now) + 1 && lastUse == old(lastUse)[c := now]
    {
      LinkLast(c);
      Account(c);
    }

    /** move_to_end away from the head: the links become those of the touched list. */
    method Relink(c: CachedItem, ghost k: nat)
      requires Links(items) && Distinct(items) && 0 < k < |items| - 1 && items[k] == c
      modifies `tail, items
      ensures Links(Touched(items, k)) && head == old(head)
    {
      c.next.prev := c.prev;
      c.prev.next := c.next;
      c.prev := tail;
      tail.next := c;
      tail := c;
      c.next := null;
    }

    /** move_to_end. The branch for the head leaves `head` where it was, in front of nothing. */
    method MoveToEnd(c: CachedItem, ghost k: nat)
      requires Links(items) && Distinct(items) && k < |items| && items[k] == c
      modifies `tail, items
      ensures head == old(head)
      ensures k > 0 || |items| == 1 ==> Links(Touched(items, k))
      ensures k == 0 && |items| > 1 ==> head == tail == c && c.next == null && c.prev == old(tail)
    {
      if c.next == null {
        assert k == |items| - 1;
        assert Touched(items, k) == items;
        return;
      }
      if c == head {
        c.next.prev := null;
        c.prev := tail;
        tail.next := c;
        tail := c;
        c.next := null;
      } else {
        Relink(c, k);
      }
    }

    /** A head with a predecessor begins no list. */
    lemma NoList()
      requires head != null && head.prev != null
      ensures forall s: seq<CachedItem> :: !Links(s)
    {
    }

    /** find_cache: the most recently used match, if any, becomes the last item. The list is still a
        list exactly when the match was not the head of two or more items. */
    method FindCache(hostname: string, port: int, pathname: string) returns (r: CachedItem?)
      requires Valid()
      modifies `tail, `items, `lastUse, `now, items
      ensures var k := LastMatch(old(items), hostname, port, pathname);
              && (k < 0 ==> r == null && items == old(items) && Valid())
              && (k >= 0 ==> r == old(items)[k] && items == Touched(old(items), k) && Counted())
              && (k > 0 || k == |items| - 1 ==> Valid())
              && (k == 0 && |items| > 1 ==> forall s: seq<CachedItem> :: !Links(s))
      ensures r != null ==> now == old(now) + 1 && lastUse == old(lastUse)[r := now]
      ensures r != null ==> SameIgnoringCase(r.hostname, hostname) && SameIgnoringCase(r.pathname, pathname)
      ensures r == null ==>
                forall c {:trigger c in old(items)} | c in old(items) ::
                  !(SameIgnoringCase(c.hostname, hostname) && SameIgnoringCase(c.pathname, pathname))
      ensures r != null ==>
                exists k :: 0 <= k < |old(items)| && old(items)[k] == r
                            && forall j {:trigger old(items)[j]} | k < j < |old(items)| ::
                                 !(SameIgnoringCase(old(items)[j].hostname, hostname)
                                   && SameIgnoringCase(old(items)[j].pathname, pathname))
    {
      var curr, i := Locate(hostname, port, pathname);
      if curr != null {
        Use(curr, i);
      }
      r := curr;
    }

    /** The loop of find_cache. */
    method Locate(hostname: string, port: int, pathname: string) returns (curr: CachedItem?, ghost i: int)
      requires Valid()
      ensures i == LastMatch(items, hostname, port, pathname)
      ensures var k := LastMatch(items, hostname, port, pathname);
              curr == if k < 0 then null else items[k]
    {
      curr, i := tail, |items| - 1;
      while curr != null
        invariant -1 <= i < |items| && curr == if i < 0 then null else items[i]
        invariant LastMatch(items, hostname, port, pathname) == LastMatch(items[..i + 1], hostname, port, pathname)
        decreases i
      {
        assert items[..i + 1][..i] == items[..i];
        if curr.IsSame(hostname, port, pathname) {
          break;
        }
        curr := curr.prev;
        i := i - 1;
      }
    }

    /** The order of use once the item at `k` is used again. */
    ghost method Renew(k: nat)
      requires Counted() && k < |items|
      modifies `items, `lastUse, `now
      ensures Counted() && items == Touched(old(items), k)
      ensures now == old(now) + 1 && lastUse == old(lastUse)[old(items)[k] := now]
    {
      TouchOrder(items, lastUse, now, k);
      items, lastUse, now := Touched(items, k), lastUse[items[k] := now + 1], now + 1;
    }

    /** What a hit on the item at `k` does. */
    method Use(c: CachedItem, ghost k: nat)
      requires Valid() && k < |items| && items[k] == c
      modifies `tail, `items, `lastUse, `now, items
      ensures items == Touched(old(items), k) && Counted() && now == old(now) + 1 && lastUse == old(lastUse)[c := now]
      ensures k > 0 || |items| == 1 ==> Valid()
      ensures k == 0 && |items| > 1 ==> forall s: seq<CachedItem> :: !Links(s)
    {
      MoveToEnd(c, k);
      Renew(k);
      if head.prev != null {
        NoList();
      }
    }
  }

  /** A run that loses the list: two pages are cached, and the older one is asked for. */
  method HeadHit() returns (l: List, r: CachedItem?)
    ensures l.numCachedItem == 2 && r != null && r == l.head && forall s: seq<CachedItem> :: !l.Links(s)
  {
    var a, b;
    l, a, b := TwoPages();
    assert !b.IsSame("a", 80, "index.html") by {
      assert LowerChar("b"[0]) != LowerChar("a"[0]);
    }
    assert l.items[..1] == [a];
    assert LastMatch([a], "a", 80, "index.html") == 0;
    r := l.FindCache("a", 80, "index.html");
  }

  method TwoPages() returns (l: List, a: CachedItem, b: CachedItem)
    ensures fresh(l) && fresh(a) && fresh(b) && l.Valid() && l.items == [a, b]
    ensures a.hostname == "a" && b.hostname == "b" && a.pathname == "index.html"
  {
    l := new List();
    a := new CachedItem("a", 80, "index.html", "old");
    b := new CachedItem("b", 80, "index.html", "new");
    l.InsertCache(a);
    l.InsertCache(b);
    assert Total([a]) == 4;
  }

  /** A page cached for one port answers a request for another. */
  method WrongPort() returns (r: CachedItem?)
    ensures r != null && r.port == 80
  {
    var l := new List();
    var a := new CachedItem("host", 80, "index.html", "page");
    l.InsertCache(a);
    assert l.items == [a] && a.IsSame("host", 8080, "index.html");
    r := l.FindCache("host", 8080, "index.html");
  }

  method OnePage() returns (l: List, a: CachedItem)
    ensures fresh(l) && fresh(a) && l.Valid() && l.items == [a]
    ensures a.hostname == "h" && a.pathname == "a.html" && a.data == "page"
  {
    l := new List();
    a := new CachedItem("h", 80, "a.html", "page");
    l.InsertCache(a);
    assert Total([a]) == 5;
  }

  /** A page of a host does not answer a request for another page of that host. */
  method OtherPage() returns (r: CachedItem?)
    ensures r == null
  {
    var l, a := OnePage();
    assert LowerChar("a.html"[0]) != LowerChar("b.html"[0]);
    r := l.FindCache("h", 80, "b.html");
  }

  /** Nor does it answer one for the page of that name at another host. */
  method OtherHost() returns (r: CachedItem?)
    ensures r == null
  {
    var l, a := OnePage();
    assert LowerChar("h"[0]) != LowerChar("g"[0]);
    r := l.FindCache("g", 80, "a.html");
  }

  /** It answers one that writes the host in the other case. */
  method OtherCase() returns (r: CachedItem?)
    ensures r != null && r.data == "page"
  {
    var l, a := OnePage();
    assert SameIgnoringCase("h", "H") && SameIgnoringCase("a.html", "a.html");
    assert a in l.items;
    r := l.FindCache("H", 80, "a.html");
  }

  // Any run of insertions and searches.

  datatype Request = Insert(item: CachedItem) | Find(hostname: string, port: int, pathname: string)

  /** The order of use after a request, and after the first `n` of a run. */
  ghost function AfterRequest(items: seq<CachedItem>, r: Request): seq<CachedItem> {
    match r
    case Insert(c) => if c.size > MAX_OBJECT_SIZE then items else items[Evicted(items, c.size)..] + [c]
    case Find(hostname, port, pathname) =>
      var k := LastMatch(items, hostname, port, pathname);
      if k < 0 then items else Touched(items, k)
  }

  ghost function AfterRun(items: seq<CachedItem>, rs: seq<Request>, n: nat): seq<CachedItem>
    requires n <= |rs|
  {
    if n == 0 then items else AfterRequest(AfterRun(items, rs, n - 1), rs[n - 1])
  }

  /** An insertion brings a new item, and a search does not hit the head of two or more. */
  ghost predicate Served(items: seq<CachedItem>, r: Request) {
    match r
    case Insert(c) => c !in items && c.size > 0
    case Find(hostname, port, pathname) => LastMatch(items, hostname, port, pathname) == 0 ==> |items| == 1
  }

  ghost predicate ServedAt(items: seq<CachedItem>, rs: seq<Request>, k: int) {
    0 <= k < |rs| && Served(AfterRun(items, rs, k), rs[k])
  }

  ghost function Inserted(rs: seq<Request>): set<CachedItem> {
    set k | 0 <= k < |rs| && rs[k].Insert? :: rs[k].item
  }

  method ServeOne(l: List, r: Request)
    requires l.Valid() && Served(l.items, r)
    modifies l, l.items, if r.Insert? then {r.item} else {}
    ensures l.Valid() && l.items == AfterRequest(old(l.items), r)
    ensures forall c :: c in l.items ==> c in old(l.items) || (r.Insert? && c == r.item)
  {
    NoNewItems(l.items, r);
    match r
    case Insert(c) => l.InsertCache(c);
    case Find(hostname, port, pathname) =>
      var _ := l.FindCache(hostname, port, pathname);
  }

  lemma NoNewItems(items: seq<CachedItem>, r: Request)
    ensures forall c :: c in AfterRequest(items, r) ==> c in items || (r.Insert? && c == r.item)
  {
  }

  /** While no search hits the head of two or more items the list stays a list, kept in the order of use, and
      every insertion evicts the fewest oldest items that make room. */
  method ServeAll(l: List, rs: seq<Request>)
    requires l.Valid() && forall k {:trigger ServedAt(l.items, rs, k)} :: 0 <= k < |rs| ==> ServedAt(l.items, rs, k)
    modifies l, l.items, Inserted(rs)
    ensures l.Valid() && l.items == AfterRun(old(l.items), rs, |rs|)
  {
    ghost var start := l.items;
    for n := 0 to |rs|
      invariant l.Valid() && l.items == AfterRun(start, rs, n)
      invariant forall c :: c in l.items ==> c in start || c in Inserted(rs)
    {
      assert ServedAt(start, rs, n);
      assert rs[n].Insert? ==> rs[n].item in Inserted(rs);
      ServeOne(l, rs[n]);
    }
  }
}
