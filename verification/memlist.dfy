/** The list of memory blocks of the tracer (memlist.c): a singly linked list behind a dummy node,
    kept in strictly ascending order of block address. */
module MemList {

  datatype Entry = Entry(ptr: nat, size: nat, cnt: int)

  ghost predicate Ascending(es: seq<Entry>) {
    forall j, k {:trigger es[j], es[k]} :: 0 <= j < k < |es| ==> es[j].ptr < es[k].ptr
  }

  /** Where `ptr` is recorded, or where it would have to be. */
  ghost function Position(es: seq<Entry>, ptr: nat): (k: nat)
    ensures k <= |es|
    ensures forall j :: 0 <= j < k ==> es[j].ptr < ptr
    ensures k < |es| ==> ptr <= es[k].ptr
  {
    if |es| == 0 || ptr <= es[0].ptr then 0 else 1 + Position(es[1..], ptr)
  }

  ghost predicate Recorded(es: seq<Entry>, ptr: nat) {
    var k := Position(es, ptr);
    k < |es| && es[k].ptr == ptr
  }

  ghost function EntryOf(es: seq<Entry>, ptr: nat): Entry
    requires Recorded(es, ptr)
  {
    es[Position(es, ptr)]
  }

  ghost function Spliced<T>(s: seq<T>, k: nat, x: T): (r: seq<T>)
    requires k <= |s|
    ensures |r| == |s| + 1 && r[k] == x
    ensures forall j {:trigger r[j]} :: 0 <= j < k ==> r[j] == s[j]
    ensures forall j {:trigger r[j]} :: k < j < |r| ==> r[j] == s[j - 1]
  {
    s[..k] + [x] + s[k..]
  }

  /** A block that is recorded again takes the new size and one more reference. */
  ghost function Allocated(es: seq<Entry>, ptr: nat, size: nat): seq<Entry> {
    var k := Position(es, ptr);
    if Recorded(es, ptr) then es[k := Entry(ptr, size, es[k].cnt + 1)]
    else Spliced(es, k, Entry(ptr, size, 1))
  }

  ghost function Deallocated(es: seq<Entry>, ptr: nat): seq<Entry> {
    var k := Position(es, ptr);
    if Recorded(es, ptr) then es[k := es[k].(cnt := es[k].cnt - 1)] else es
  }

  /** Recorded means: some entry has that address. */
  lemma RecordedAt(es: seq<Entry>, ptr: nat, k: nat)
    requires Ascending(es) && k < |es| && es[k].ptr == ptr
    ensures Recorded(es, ptr) && Position(es, ptr) == k
  {
    var p := Position(es, ptr);
    assert p <= k;
    var found := es[p];
  }

  lemma AscendingAfter(es: seq<Entry>, ptr: nat, size: nat)
    requires Ascending(es)
    ensures Ascending(Allocated(es, ptr, size)) && Ascending(Deallocated(es, ptr))
  {
    var k := Position(es, ptr);
    if Recorded(es, ptr) {
      ReplacedAscending(es, k, Entry(ptr, size, es[k].cnt + 1));
      ReplacedAscending(es, k, es[k].(cnt := es[k].cnt - 1));
    } else {
      SplicedAscending(es, k, Entry(ptr, size, 1));
    }
  }

  lemma ReplacedAscending(es: seq<Entry>, k: nat, e: Entry)
    requires Ascending(es) && k < |es| && e.ptr == es[k].ptr
    ensures Ascending(es[k := e])
  {
    var r := es[k := e];
    forall i, j | 0 <= i < j < |r|
      ensures r[i].ptr < r[j].ptr
    {
      assert es[i].ptr < es[j].ptr;
    }
  }

  lemma SplicedAscending(es: seq<Entry>, k: nat, e: Entry)
    requires Ascending(es) && k == Position(es, e.ptr) && !Recorded(es, e.ptr)
    ensures Ascending(Spliced(es, k, e))
  {
    var r := Spliced(es, k, e);
    forall i, j | 0 <= i < j < |r|
      ensures r[i].ptr < r[j].ptr
    {
      var a, b := if i < k then i else i - 1, if j < k then j else j - 1;
      assert i != k && j != k ==> es[a].ptr < es[b].ptr;
      assert i < j == k ==> es[i].ptr < e.ptr;
      assert k < |es| && k == i ==> e.ptr < es[k].ptr && (b > k ==> es[k].ptr < es[b].ptr);
    }
  }

  lemma SplicedAt<T>(s: seq<T>, k: nat, x: T, j: nat)
    requires k <= |s| && j < |s|
    ensures Spliced(s, k, x)[if j < k then j else j + 1] == s[j]
  {
  }

  lemma InsertedEntry(es: seq<Entry>, ptr: nat, size: nat, q: nat)
    requires Ascending(es) && !Recorded(es, ptr) && q != ptr
    ensures Recorded(Allocated(es, ptr, size), q) <==> Recorded(es, q)
    ensures Recorded(es, q) ==> EntryOf(Allocated(es, ptr, size), q) == EntryOf(es, q)
  {
    var after, k := Allocated(es, ptr, size), Position(es, ptr);
    AscendingAfter(es, ptr, size);
    if Recorded(es, q) {
      var j := Position(es, q);
      SplicedAt(es, k, Entry(ptr, size, 1), j);
      RecordedAt(after, q, if j < k then j else j + 1);
    } else if Recorded(after, q) {
      var j := Position(after, q);
      SplicedAt(es, k, Entry(ptr, size, 1), if j < k then j else j - 1);
      RecordedAt(es, q, if j < k then j else j - 1);
    }
  }

  lemma UpdatedEntry(es: seq<Entry>, ptr: nat, size: nat, q: nat)
    requires Ascending(es) && Recorded(es, ptr) && q != ptr
    ensures Recorded(Allocated(es, ptr, size), q) <==> Recorded(es, q)
    ensures Recorded(es, q) ==> EntryOf(Allocated(es, ptr, size), q) == EntryOf(es, q)
  {
    var after := Allocated(es, ptr, size);
    AscendingAfter(es, ptr, size);
    if Recorded(es, q) {
      RecordedAt(after, q, Position(es, q));
    }
    if Recorded(after, q) {
      RecordedAt(es, q, Position(after, q));
    }
  }

  /** alloc changes what is recorded about `ptr`, and about no other address. */
  lemma AllocatedEntry(es: seq<Entry>, ptr: nat, size: nat, q: nat)
    requires Ascending(es)
    ensures var after := Allocated(es, ptr, size);
            && Recorded(after, ptr)
            && EntryOf(after, ptr) == Entry(ptr, size, if Recorded(es, ptr) then EntryOf(es, ptr).cnt + 1 else 1)
            && (q != ptr ==> (Recorded(after, q) <==> Recorded(es, q)))
            && (q != ptr && Recorded(es, q) ==> EntryOf(after, q) == EntryOf(es, q))
  {
    AscendingAfter(es, ptr, size);
    RecordedAt(Allocated(es, ptr, size), ptr, Position(es, ptr));
    if q != ptr {
      if Recorded(es, ptr) {
        UpdatedEntry(es, ptr, size, q);
      } else {
        InsertedEntry(es, ptr, size, q);
      }
    }
  }

  /** dealloc takes one reference from `ptr` if it is recorded, and changes no other address. */
  lemma DeallocatedEntry(es: seq<Entry>, ptr: nat, q: nat)
    requires Ascending(es)
    ensures var after := Deallocated(es, ptr);
            && (Recorded(after, q) <==> Recorded(es, q))
            && (Recorded(es, q) ==>
                  EntryOf(after, q) == var e := EntryOf(es, q); if q == ptr then e.(cnt := e.cnt - 1) else e)
  {
    var after := Deallocated(es, ptr);
    AscendingAfter(es, ptr, 0);
    if Recorded(es, q) {
      RecordedAt(after, q, Position(es, q));
    }
    if Recorded(after, q) {
      RecordedAt(es, q, Position(after, q));
    }
  }

  class Item {
    var ptr: nat
    var size: nat
    var cnt: int
    var next: Item?

    /** calloc(1, sizeof(item)), and the assignments of alloc. */
    constructor (ptr: nat, size: nat, cnt: int)
      ensures this.ptr == ptr && this.size == size && this.cnt == cnt && next == null
    {
      this.ptr, this.size, this.cnt, next := ptr, size, cnt, null;
    }
  }

  class List {
    /** The node that stands before the first block. */
    const dummy: Item

    ghost var nodes: seq<Item>
    ghost var entries: seq<Entry>

    ghost predicate Valid()
      reads this, dummy, nodes
    {
      dummy !in nodes && Ascending(entries) && Mirrors(nodes, entries) && Links(nodes)
    }

    ghost predicate Mirrors(ns: seq<Item>, es: seq<Entry>)
      reads ns
    {
      && |es| == |ns|
      && forall k {:trigger ns[k]} :: 0 <= k < |ns| ==> es[k] == Entry(ns[k].ptr, ns[k].size, ns[k].cnt)
    }

    ghost predicate Links(ns: seq<Item>)
      reads dummy, ns
    {
      && dummy.next == At(ns, 0)
      && forall k {:trigger ns[k].next} :: 0 <= k < |ns| ==> ns[k].next == At(ns, k + 1)
    }

    ghost function At(ns: seq<Item>, k: nat): Item? {
      if k < |ns| then ns[k] else null
    }

    /** new_list */
    constructor ()
      ensures Valid() && entries == [] && fresh(dummy) && nodes == []
    {
      dummy := new Item(0, 0, 0);
      nodes, entries := [], [];
    }

    method Alloc(ptr: nat, size: nat)
      requires Valid()
      modifies this, dummy, nodes
      ensures Valid() && forall n :: n in nodes ==> n in old(nodes) || fresh(n)
      ensures entries == Allocated(old(entries), ptr, size)
    {
      var i := new Item(ptr, size, 1);
      var prev, cur, k := Seek(i.ptr);
      if cur != null && cur.ptr == i.ptr {
        Bump(cur, k, i.size);
      } else {
        Insert(prev, i, cur, k);
      }
    }

    /** The scan of alloc. */
    method Seek(ptr: nat) returns (prev: Item, cur: Item?, ghost k: nat)
      requires Valid()
      ensures k == Position(entries, ptr) && cur == At(nodes, k) && prev == if k == 0 then dummy else nodes[k - 1]
      ensures (cur != null && cur.ptr == ptr) <==> Recorded(entries, ptr)
    {
      prev, cur := dummy, dummy.next;
      k := 0;
      while cur != null && cur.ptr < ptr
        invariant k <= |nodes| && cur == At(nodes, k) && prev == if k == 0 then dummy else nodes[k - 1]
        invariant forall j :: 0 <= j < k ==> entries[j].ptr < ptr
        decreases |nodes| - k
      {
        prev, cur := cur, cur.next;
        k := k + 1;
      }
      assert k == Position(entries, ptr);
    }

    /** An existing block takes the new size and one more reference. */
    method Bump(cur: Item, ghost k: nat, size: nat)
      requires Valid() && k < |nodes| && cur == nodes[k]
      modifies `entries, cur
      ensures Valid() && entries == Allocated(old(entries), old(cur.ptr), size)
    {
      RecordedAt(entries, cur.ptr, k);
      AscendingAfter(entries, cur.ptr, size);
      cur.size := size;
      cur.cnt := cur.cnt + 1;
      entries := Allocated(entries, cur.ptr, size);
    }

    /** A new node goes between its neighbours. */
    method LinkIn(prev: Item, i: Item, cur: Item?, ghost k: nat)
      requires Links(nodes) && k <= |nodes| && dummy !in nodes
      requires cur == At(nodes, k) && prev == if k == 0 then dummy else nodes[k - 1]
      requires forall j {:trigger nodes[j]} :: 0 <= j < |nodes| && j != k - 1 ==> nodes[j] != prev
      requires i !in nodes && i != dummy
      modifies prev`next, i`next
      ensures Links(Spliced(nodes, k, i))
    {
      i.next := cur;
      prev.next := i;
    }

    /** A new block is recorded in its place. */
    method Insert(prev: Item, i: Item, cur: Item?, ghost k: nat)
      requires Valid() && k == Position(entries, i.ptr) && !Recorded(entries, i.ptr)
      requires cur == At(nodes, k) && prev == if k == 0 then dummy else nodes[k - 1]
      requires i !in nodes && i != dummy && i.cnt == 1
      modifies `nodes, `entries, prev`next, i`next
      ensures Valid() && (forall n :: n in nodes ==> n == i || n in old(nodes))
      ensures entries == Allocated(old(entries), i.ptr, i.size)
    {
      OneBefore(prev, k);
      LinkIn(prev, i, cur, k);
      Note(i, k);
    }

    ghost method Note(i: Item, k: nat)
      requires dummy !in nodes && Ascending(entries) && Mirrors(nodes, entries) && i != dummy && i.cnt == 1
      requires k == Position(entries, i.ptr) && !Recorded(entries, i.ptr) && Links(Spliced(nodes, k, i))
      modifies `nodes, `entries
      ensures Valid() && (forall n :: n in nodes ==> n == i || n in old(nodes))
      ensures entries == Allocated(old(entries), i.ptr, i.size)
    {
      AscendingAfter(entries, i.ptr, i.size);
      MirrorsSpliced(nodes, entries, k, i);
      nodes, entries := Spliced(nodes, k, i), Spliced(entries, k, Entry(i.ptr, i.size, 1));
    }

    lemma OneBefore(prev: Item, k: nat)
      requires Valid() && k <= |nodes| && prev == if k == 0 then dummy else nodes[k - 1]
      ensures forall j {:trigger nodes[j]} :: 0 <= j < |nodes| && j != k - 1 ==> nodes[j] != prev
    {
    }

    lemma MirrorsSpliced(ns: seq<Item>, es: seq<Entry>, k: nat, i: Item)
      requires Mirrors(ns, es) && k <= |ns|
      ensures Mirrors(Spliced(ns, k, i), Spliced(es, k, Entry(i.ptr, i.size, i.cnt)))
      ensures forall n :: n in Spliced(ns, k, i) ==> n == i || n in ns
    {
    }

    /** dealloc: the scan goes by the address alone. */
    method Dealloc(ptr: nat) returns (r: Item?)
      requires Valid()
      modifies this, nodes
      ensures Valid() && nodes == old(nodes) && entries == Deallocated(old(entries), ptr)
      ensures r != null <==> Recorded(old(entries), ptr)
      ensures r != null ==> r == nodes[Position(old(entries), ptr)]
    {
      var cur := dummy.next;
      ghost var k := 0;
      while cur != null && cur.ptr != ptr
        invariant 0 <= k <= |nodes| && cur == At(nodes, k)
        invariant forall j :: 0 <= j < k ==> entries[j].ptr != ptr
        modifies {}
        decreases |nodes| - k
      {
        cur := cur.next;
        k := k + 1;
      }
      if cur != null {
        Drop(cur, k);
      }
      return cur;
    }

    /** The block loses one reference. */
    method Drop(cur: Item, ghost k: nat)
      requires Valid() && k < |nodes| && cur == nodes[k]
      modifies `entries, cur
      ensures Valid() && entries == Deallocated(old(entries), old(cur.ptr))
      ensures Recorded(old(entries), old(cur.ptr)) && Position(old(entries), old(cur.ptr)) == k
    {
      RecordedAt(entries, cur.ptr, k);
      AscendingAfter(entries, cur.ptr, 0);
      cur.cnt := cur.cnt - 1;
      entries := Deallocated(entries, cur.ptr);
    }

    /** find: the scan stops at the first larger address, and yet finds what dealloc would. */
    method Find(ptr: nat) returns (r: Item?)
      requires Valid()
      ensures r != null <==> Recorded(entries, ptr)
      ensures r != null ==> r == nodes[Position(entries, ptr)]
    {
      var cur := dummy.next;
      ghost var k := 0;
      while cur != null && ptr > cur.ptr
        invariant 0 <= k <= |nodes| && cur == At(nodes, k)
        invariant forall j :: 0 <= j < k ==> entries[j].ptr < ptr
        decreases |nodes| - k
      {
        cur := cur.next;
        k := k + 1;
      }
      assert k == Position(entries, ptr);
      if cur != null && cur.ptr == ptr {
        return cur;
      }
      return null;
    }
  }
}
