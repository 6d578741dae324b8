/** The segregated free lists of mm.c: eleven doubly linked lists threaded through the
    free blocks, each sorted by block size, with their roots at the bottom of the heap. */
module SegList {
  import opened MemLib
  import opened BlockMap

  const N_SEGLIST: int := 11

  /** get_seg_level: the size class of a block. */
  function Level(size: int): (i: int)
    ensures 0 <= i < N_SEGLIST
  {
    var n := size / 8;
    if n <= 2 then 0
    else if n <= 4 then 1
    else if n <= 8 then 2
    else if n <= 16 then 3
    else if n <= 32 then 4
    else if n <= 64 then 5
    else if n <= 128 then 6
    else if n <= 256 then 7
    else if n <= 512 then 8
    else if n <= 1024 then 9
    else 10
  }

  function Pow2(n: nat): nat {
    if n == 0 then 1 else 2 * Pow2(n - 1)
  }

  /** Class `i` holds the sizes of more than 2^i and up to 2^(i + 1) double words; the first class also
      holds all smaller sizes, and the last all larger ones. */
  lemma LevelBounds(size: int)
    requires size >= 0
    ensures var i, n := Level(size), size / 8;
            (i > 0 ==> Pow2(i) < n) && (i < N_SEGLIST - 1 ==> n <= Pow2(i + 1))
  {
    assert Pow2(1) == 2 && Pow2(2) == 4 && Pow2(3) == 8 && Pow2(4) == 16 && Pow2(5) == 32 && Pow2(6) == 64;
    assert Pow2(7) == 128 && Pow2(8) == 256 && Pow2(9) == 512 && Pow2(10) == 1024;
  }

  lemma LevelMonotone(s: int, t: int)
    ensures Level(s) < Level(t) ==> s < t
  {
  }

  /** get_freeblk_root: where the root of a list is stored. */
  function Root(lo: int, i: int): int {
    lo + 8 + 8 * i
  }

  /** Where the first block starts: past the padding, the roots and the prologue. */
  function First(lo: int): int {
    lo + 8 * (N_SEGLIST + 3)
  }

  type Lists = seq<seq<int>>

  // ---------- the links of one list ----------

  /** The node at position `k` of the list, counting the root as position -1 and NULL as the end. */
  ghost function NodeAt(root: int, s: seq<int>, k: int): int {
    if k < 0 then root else if k < |s| then s[k] else 0
  }

  /** The node at `k - 1` points forward to the one at `k`, which points back. */
  ghost predicate LinkOk(w: map<int, Word>, root: int, s: seq<int>, k: int) {
    && WordAt(w, NodeAt(root, s, k - 1)) == NodeAt(root, s, k)
    && (0 <= k < |s| ==> WordAt(w, s[k] + 4) == NodeAt(root, s, k - 1))
  }

  ghost predicate Linked(w: map<int, Word>, root: int, s: seq<int>) {
    forall k {:trigger LinkOk(w, root, s, k)} | 0 <= k <= |s| :: LinkOk(w, root, s, k)
  }

  /** The two link words kept at `p` and at `q` do not overlap. */
  ghost predicate WordsApart(p: int, q: int) {
    p + 8 <= q || q + 8 <= p
  }

  /** The link words of a list's nodes lie above its root and are apart from each other. */
  ghost predicate Nodes(root: int, s: seq<int>) {
    && 0 < root
    && (forall k {:trigger s[k]} | 0 <= k < |s| :: root + 8 <= s[k])
    && (forall j, k {:trigger s[j], s[k]} | 0 <= j < k < |s| :: WordsApart(s[j], s[k]))
  }

  ghost function InsertAt(s: seq<int>, k: int, p: int): seq<int>
    requires 0 <= k <= |s|
  {
    s[..k] + [p] + s[k..]
  }

  ghost function RemoveAt(s: seq<int>, k: int): seq<int>
    requires 0 <= k < |s|
  {
    s[..k] + s[k + 1..]
  }

  /** Memory once `p` has been spliced in between `prev` and `next`. */
  ghost function SpliceIn(w: map<int, Word>, prev: int, p: int, next: int): map<int, Word>
    requires 0 <= prev < ADDRESS_SPACE && 0 <= p < ADDRESS_SPACE && 0 <= next < ADDRESS_SPACE
  {
    var m := w[prev := p][p + 4 := prev][p := next];
    if next == 0 then m else m[next + 4 := p]
  }

  /** Memory once `prev` and `next` have been made neighbours. */
  ghost function SpliceOut(w: map<int, Word>, prev: int, next: int): map<int, Word>
    requires 0 <= prev < ADDRESS_SPACE && 0 <= next < ADDRESS_SPACE
  {
    var m := w[prev := next];
    if next == 0 then m else m[next + 4 := prev]
  }

  lemma InsertLinkAt(w: map<int, Word>, root: int, s: seq<int>, k: int, p: int, j: int)
    requires Linked(w, root, s) && Nodes(root, s) && 0 <= k <= |s|
    requires root + 8 <= p < ADDRESS_SPACE && forall m {:trigger s[m]} | 0 <= m < |s| :: WordsApart(p, s[m])
    requires 0 <= NodeAt(root, s, k - 1) < ADDRESS_SPACE && 0 <= NodeAt(root, s, k) < ADDRESS_SPACE
    requires 0 <= j <= |s| && j != k
    ensures var w' := SpliceIn(w, NodeAt(root, s, k - 1), p, NodeAt(root, s, k));
            LinkOk(w', root, InsertAt(s, k, p), if j < k then j else j + 1)
  {
    assert LinkOk(w, root, s, j);
  }

  lemma InsertLinked(w: map<int, Word>, root: int, s: seq<int>, k: int, p: int)
    requires Linked(w, root, s) && Nodes(root, s) && 0 <= k <= |s|
    requires root + 8 <= p < ADDRESS_SPACE && forall m {:trigger s[m]} | 0 <= m < |s| :: WordsApart(p, s[m])
    requires 0 <= NodeAt(root, s, k - 1) < ADDRESS_SPACE && 0 <= NodeAt(root, s, k) < ADDRESS_SPACE
    ensures Linked(SpliceIn(w, NodeAt(root, s, k - 1), p, NodeAt(root, s, k)), root, InsertAt(s, k, p))
  {
    var w', t := SpliceIn(w, NodeAt(root, s, k - 1), p, NodeAt(root, s, k)), InsertAt(s, k, p);
    assert LinkOk(w', root, t, k) && LinkOk(w', root, t, k + 1);
    forall j | 0 <= j <= |t| ensures LinkOk(w', root, t, j) {
      if j < k {
        InsertLinkAt(w, root, s, k, p, j);
      } else if j > k + 1 {
        InsertLinkAt(w, root, s, k, p, j - 1);
      }
    }
  }

  lemma RemoveLinked(w: map<int, Word>, root: int, s: seq<int>, k: int)
    requires Linked(w, root, s) && Nodes(root, s) && 0 <= k < |s|
    requires 0 <= NodeAt(root, s, k - 1) < ADDRESS_SPACE && 0 <= NodeAt(root, s, k + 1) < ADDRESS_SPACE
    ensures Linked(SpliceOut(w, NodeAt(root, s, k - 1), NodeAt(root, s, k + 1)), root, RemoveAt(s, k))
  {
    var prev, next := NodeAt(root, s, k - 1), NodeAt(root, s, k + 1);
    var w', t := SpliceOut(w, prev, next), RemoveAt(s, k);
    forall j | 0 <= j <= |t| ensures LinkOk(w', root, t, j) {
      if j < k {
        assert LinkOk(w, root, s, j);
      } else {
        assert LinkOk(w, root, s, j + 1);
      }
    }
  }

  lemma SameLinks(w: map<int, Word>, w': map<int, Word>, root: int, s: seq<int>)
    requires Linked(w, root, s) && WordAt(w', root) == WordAt(w, root)
    requires forall k {:trigger s[k]} | 0 <= k < |s| ::
               WordAt(w', s[k]) == WordAt(w, s[k]) && WordAt(w', s[k] + 4) == WordAt(w, s[k] + 4)
    ensures Linked(w', root, s)
  {
    forall k | 0 <= k <= |s| ensures LinkOk(w', root, s, k) {
      assert LinkOk(w, root, s, k);
    }
  }

  // ---------- all eleven lists ----------

  /** The list of one size class: listed blocks of that class only, in ascending order of size. */
  ghost predicate Sorted(b: Blocks, listed: set<int>, i: int, s: seq<int>) {
    && (forall k {:trigger s[k]} | 0 <= k < |s| :: s[k] in listed && s[k] in b && Level(b[s[k]].size) == i)
    && (forall j, k {:trigger s[j], s[k]} | 0 <= j < k < |s| :: b[s[j]].size <= b[s[k]].size && s[j] != s[k])
  }

  ghost predicate LevelOk(w: map<int, Word>, b: Blocks, l: Lists, lo: int, listed: set<int>, i: int)
    requires |l| == N_SEGLIST && 0 <= i < N_SEGLIST
  {
    Linked(w, Root(lo, i), l[i]) && Sorted(b, listed, i, l[i])
  }

  /** A listed block is free and in the list of its size. */
  ghost predicate ListedOk(b: Blocks, l: Lists, p: int)
    requires |l| == N_SEGLIST
  {
    p in b && !b[p].used && p in l[Level(b[p].size)]
  }

  /** The eleven lists, as memory links them, hold exactly the blocks of `listed`. */
  ghost predicate SegOk(w: map<int, Word>, b: Blocks, l: Lists, lo: int, listed: set<int>) {
    && lo > 0 && |l| == N_SEGLIST
    && (forall i {:trigger LevelOk(w, b, l, lo, listed, i)} | 0 <= i < N_SEGLIST :: LevelOk(w, b, l, lo, listed, i))
    && (forall p {:trigger ListedOk(b, l, p)} | p in listed :: ListedOk(b, l, p))
  }

  lemma ListNodes(b: Blocks, l: Lists, lo: int, brk: int, listed: set<int>, i: int)
    requires lo > 0 && |l| == N_SEGLIST && 0 <= i < N_SEGLIST
    requires Tiled(b, First(lo), brk) && Sorted(b, listed, i, l[i])
    ensures Nodes(Root(lo, i), l[i])
  {
    var s := l[i];
    forall k | 0 <= k < |s| ensures Root(lo, i) + 8 <= s[k] {
      assert BlockOk(b, First(lo), brk, s[k]);
    }
    forall j, k | 0 <= j < k < |s| ensures WordsApart(s[j], s[k]) {
      assert Apart(b, s[j], s[k]) && Apart(b, s[k], s[j]);
      assert BlockOk(b, First(lo), brk, s[j]) && BlockOk(b, First(lo), brk, s[k]);
    }
  }

  /** The only words the list operations write: the roots and the link words of `nodes`. */
  ghost predicate LinkFrame(w: map<int, Word>, w': map<int, Word>, lo: int, nodes: set<int>) {
    forall a {:trigger WordAt(w', a)} ::
      !(Root(lo, 0) <= a < Root(lo, N_SEGLIST)) && a !in nodes && a - 4 !in nodes ==> WordAt(w', a) == WordAt(w, a)
  }

  /** No block starts inside another block or within the first word of its payload. */
  lemma NotNode(b: Blocks, first: int, brk: int, p: int, a: int)
    requires Tiled(b, first, brk) && p in b && p - 8 <= a < p + b[p].size && a != p
    ensures a !in b
  {
    assert a in b ==> Apart(b, p, a) && Apart(b, a, p) && BlockOk(b, first, brk, a);
  }

  lemma TagsFrame(w: map<int, Word>, w': map<int, Word>, b: Blocks, lo: int, brk: int, nodes: set<int>)
    requires Tiled(b, First(lo), brk) && TagsOk(w, b, First(lo), brk)
    requires LinkFrame(w, w', lo, nodes) && nodes <= b.Keys
    ensures TagsOk(w', b, First(lo), brk)
  {
    forall p | p in b ensures TagOk(w', b, p) {
      assert TagOk(w, b, p) && BlockOk(b, First(lo), brk, p);
      NotNode(b, First(lo), brk, p, p - 4);
      NotNode(b, First(lo), brk, p, p - 8);
      NotNode(b, First(lo), brk, p, p + b[p].size - 8);
      NotNode(b, First(lo), brk, p, p + b[p].size - 12);
    }
    NotBelow(b, First(lo), brk);
  }

  /** No block starts below the first one or within the epilogue header. */
  lemma NotBelow(b: Blocks, first: int, brk: int)
    requires Tiled(b, first, brk)
    ensures forall a {:trigger a in b} :: a < first || brk - 8 <= a ==> a !in b
  {
    forall a | a in b ensures first <= a < brk - 8 {
      assert BlockOk(b, first, brk, a);
    }
  }

  // ---------- payloads ----------

  /** The payload of `n` bytes at `p` is the same in both memories. */
  ghost predicate PayloadKept(w: map<int, Word>, w': map<int, Word>, p: int, n: int) {
    forall a {:trigger WordAt(w', a)} | p <= a < p + n :: WordAt(w', a) == WordAt(w, a)
  }

  /** Every payload in use in `b` is the same in both memories. */
  ghost predicate LiveKept(w: map<int, Word>, w': map<int, Word>, b: Blocks) {
    forall p {:trigger PayloadKept(w, w', p, b[p].size - 8)} | p in b && b[p].used ::
      PayloadKept(w, w', p, b[p].size - 8)
  }

  /** Every block in use in `b` is still in use in `c`, at the same size. */
  ghost predicate StillUsed(b: Blocks, c: Blocks) {
    forall p {:trigger c[p]} {:trigger p in c} | p in b && b[p].used :: p in c && c[p] == b[p]
  }

  lemma LiveKeptTrans(w0: map<int, Word>, w1: map<int, Word>, w2: map<int, Word>, b: Blocks, c: Blocks)
    requires LiveKept(w0, w1, b) && LiveKept(w1, w2, c) && StillUsed(b, c)
    ensures LiveKept(w0, w2, b)
  {
    forall p | p in b && b[p].used ensures PayloadKept(w0, w2, p, b[p].size - 8) {
      assert PayloadKept(w0, w1, p, b[p].size - 8) && c[p] == b[p] && PayloadKept(w1, w2, p, c[p].size - 8);
      forall a | p <= a < p + b[p].size - 8 ensures WordAt(w2, a) == WordAt(w0, a) {
        assert WordAt(w1, a) == WordAt(w0, a);
      }
    }
  }

  /** List operations touch no payload in use. */
  lemma LinksKeepLive(w: map<int, Word>, w': map<int, Word>, b: Blocks, lo: int, brk: int, nodes: set<int>)
    requires Tiled(b, First(lo), brk) && LinkFrame(w, w', lo, nodes) && nodes <= FreeOf(b)
    ensures LiveKept(w, w', b)
  {
    forall p | p in b && b[p].used ensures PayloadKept(w, w', p, b[p].size - 8) {
      assert BlockOk(b, First(lo), brk, p);
      forall a | p <= a < p + b[p].size - 8 ensures WordAt(w', a) == WordAt(w, a) {
        if a != p {
          NotNode(b, First(lo), brk, p, a);
        }
        if a - 4 != p {
          NotNode(b, First(lo), brk, p, a - 4);
        }
      }
    }
  }

  /** Writes to the tags and payloads of a region of whole blocks touch no payload in use outside it. */
  lemma RegionKeepsOthers(w: map<int, Word>, w': map<int, Word>, b: Blocks, first: int, brk: int, p: int, e: int,
                          x: int)
    requires Tiled(b, first, brk) && p in b && Boundary(b, brk, e) && p < e && SameOutside(w, w', p - 4, e - 4)
    requires forall q {:trigger b[q]} | q in b && p <= q < e && q != x :: !b[q].used
    ensures LiveKept(w, w', b - {x})
  {
    var c := b - {x};
    forall q | q in c && c[q].used ensures PayloadKept(w, w', q, c[q].size - 8) {
      assert Apart(b, q, p) && BlockOk(b, first, brk, q);
    }
  }

  lemma RegionKeepsLive(w: map<int, Word>, w': map<int, Word>, b: Blocks, first: int, brk: int, p: int, e: int)
    requires Tiled(b, first, brk) && p in b && Boundary(b, brk, e) && p < e && SameOutside(w, w', p - 4, e - 4)
    requires forall q {:trigger b[q]} | q in b && p <= q < e :: !b[q].used
    ensures LiveKept(w, w', b)
  {
    forall q | q in b && b[q].used ensures PayloadKept(w, w', q, b[q].size - 8) {
      assert Apart(b, q, p) && BlockOk(b, first, brk, q);
    }
  }

  // ---------- inserting into and removing from the lists ----------

  lemma SpliceInFrame(w: map<int, Word>, b: Blocks, l: Lists, lo: int, listed: set<int>, p: int, i: int, k: int)
    requires SegOk(w, b, l, lo, listed) && 0 <= i < N_SEGLIST && 0 <= k <= |l[i]|
    requires 0 <= NodeAt(Root(lo, i), l[i], k - 1) < ADDRESS_SPACE && 0 <= NodeAt(Root(lo, i), l[i], k) < ADDRESS_SPACE
    requires 0 <= p < ADDRESS_SPACE
    ensures var w' := SpliceIn(w, NodeAt(Root(lo, i), l[i], k - 1), p, NodeAt(Root(lo, i), l[i], k));
            LinkFrame(w, w', lo, listed + {p})
  {
    assert LevelOk(w, b, l, lo, listed, i);
  }

  lemma SpliceOutFrame(w: map<int, Word>, b: Blocks, l: Lists, lo: int, listed: set<int>, i: int, k: int)
    requires SegOk(w, b, l, lo, listed) && 0 <= i < N_SEGLIST && 0 <= k < |l[i]|
    requires 0 <= NodeAt(Root(lo, i), l[i], k - 1) < ADDRESS_SPACE
    requires 0 <= NodeAt(Root(lo, i), l[i], k + 1) < ADDRESS_SPACE
    ensures var w' := SpliceOut(w, NodeAt(Root(lo, i), l[i], k - 1), NodeAt(Root(lo, i), l[i], k + 1));
            LinkFrame(w, w', lo, listed)
  {
    assert LevelOk(w, b, l, lo, listed, i);
  }

  /** A list none of whose link words is written keeps its links. */
  lemma OtherList(w: map<int, Word>, w': map<int, Word>, b: Blocks, l: Lists, lo: int, brk: int, listed: set<int>,
                  i: int, j: int, x: int, y: int, p: int)
    requires Tiled(b, First(lo), brk) && SegOk(w, b, l, lo, listed)
    requires 0 <= i < N_SEGLIST && 0 <= j < N_SEGLIST && i != j
    requires x == Root(lo, i) || (x in b && Level(b[x].size) == i)
    requires y == 0 || (y in b && Level(b[y].size) == i)
    requires p == 0 || (p in b && Level(b[p].size) == i)
    requires forall a {:trigger WordAt(w', a)} ::
               a != x && a != y + 4 && (p == 0 || (a != p && a != p + 4)) ==> WordAt(w', a) == WordAt(w, a)
    ensures Linked(w', Root(lo, j), l[j])
  {
    var root, s := Root(lo, j), l[j];
    assert LevelOk(w, b, l, lo, listed, j);
    ListNodes(b, l, lo, brk, listed, j);
    assert x in b ==> BlockOk(b, First(lo), brk, x);
    assert y in b ==> BlockOk(b, First(lo), brk, y);
    assert p in b ==> BlockOk(b, First(lo), brk, p);
    forall k | 0 <= k < |s|
      ensures WordAt(w', s[k]) == WordAt(w, s[k]) && WordAt(w', s[k] + 4) == WordAt(w, s[k] + 4)
    {
      var q := s[k];
      assert BlockOk(b, First(lo), brk, q);
      assert x in b ==> Apart(b, q, x) && Apart(b, x, q);
      assert y in b ==> Apart(b, q, y) && Apart(b, y, q);
      assert p in b ==> Apart(b, q, p) && Apart(b, p, q);
    }
    SameLinks(w, w', root, s);
  }

  lemma InsertSorted(b: Blocks, listed: set<int>, i: int, s: seq<int>, k: int, p: int)
    requires Sorted(b, listed, i, s) && 0 <= k <= |s|
    requires p in b && p !in listed && Level(b[p].size) == i
    requires k > 0 ==> b[s[k - 1]].size <= b[p].size
    requires k < |s| ==> b[p].size <= b[s[k]].size
    ensures Sorted(b, listed + {p}, i, InsertAt(s, k, p))
  {
    var t := InsertAt(s, k, p);
    forall m, n | 0 <= m < n < |t| ensures b[t[m]].size <= b[t[n]].size && t[m] != t[n] {
      assert m < k ==> t[m] == s[m] && b[s[m]].size <= b[s[k - 1]].size;
      assert n > k ==> t[n] == s[n - 1] && b[s[k]].size <= b[s[n - 1]].size;
      assert m > k ==> t[m] == s[m - 1];
      assert n < k ==> t[n] == s[n];
    }
  }

  lemma RemoveSorted(b: Blocks, listed: set<int>, i: int, s: seq<int>, k: int)
    requires Sorted(b, listed, i, s) && 0 <= k < |s|
    ensures Sorted(b, listed - {s[k]}, i, RemoveAt(s, k))
  {
    var t := RemoveAt(s, k);
    forall m | 0 <= m < |t| ensures t[m] in listed && t[m] != s[k] && t[m] in b && Level(b[t[m]].size) == i {
      assert t[m] == s[if m < k then m else m + 1];
    }
    forall m, n | 0 <= m < n < |t| ensures b[t[m]].size <= b[t[n]].size && t[m] != t[n] {
      assert t[m] == s[if m < k then m else m + 1] && t[n] == s[if n < k then n else n + 1];
    }
  }

  lemma InsertListed(b: Blocks, l: Lists, listed: set<int>, p: int, k: int)
    requires |l| == N_SEGLIST && p in b && !b[p].used && 0 <= k <= |l[Level(b[p].size)]|
    requires forall q {:trigger ListedOk(b, l, q)} | q in listed :: ListedOk(b, l, q)
    ensures var i := Level(b[p].size);
            var l' := l[i := InsertAt(l[i], k, p)];
            forall q {:trigger ListedOk(b, l', q)} | q in listed + {p} :: ListedOk(b, l', q)
  {
    var i := Level(b[p].size);
    var s := l[i];
    var l' := l[i := InsertAt(s, k, p)];
    assert l'[i][k] == p;
    forall q | q in listed ensures ListedOk(b, l', q) {
      assert ListedOk(b, l, q);
      if Level(b[q].size) == i {
        var m :| 0 <= m < |s| && s[m] == q;
        assert l'[i][if m < k then m else m + 1] == q;
      }
    }
  }

  lemma RemoveListed(b: Blocks, l: Lists, listed: set<int>, i: int, k: int)
    requires |l| == N_SEGLIST && 0 <= i < N_SEGLIST && 0 <= k < |l[i]|
    requires forall q {:trigger ListedOk(b, l, q)} | q in listed :: ListedOk(b, l, q)
    ensures forall q {:trigger ListedOk(b, l[i := RemoveAt(l[i], k)], q)} | q in listed - {l[i][k]} ::
              ListedOk(b, l[i := RemoveAt(l[i], k)], q)
  {
    var s := l[i];
    var l' := l[i := RemoveAt(s, k)];
    forall q | q in listed - {s[k]} ensures ListedOk(b, l', q) {
      assert ListedOk(b, l, q);
      if Level(b[q].size) == i {
        var m :| 0 <= m < |s| && s[m] == q;
        assert l'[i][if m < k then m else m - 1] == q;
      }
    }
  }

  lemma InsertSeg(w: map<int, Word>, b: Blocks, l: Lists, lo: int, brk: int, listed: set<int>, p: int, k: int)
    requires Tiled(b, First(lo), brk) && SegOk(w, b, l, lo, listed) && brk < ADDRESS_SPACE
    requires p in b && !b[p].used && p !in listed
    requires 0 <= k <= |l[Level(b[p].size)]|
    requires k > 0 ==> l[Level(b[p].size)][k - 1] in b && b[l[Level(b[p].size)][k - 1]].size <= b[p].size
    requires k < |l[Level(b[p].size)]| ==> l[Level(b[p].size)][k] in b && b[p].size <= b[l[Level(b[p].size)][k]].size
    requires 0 <= NodeAt(Root(lo, Level(b[p].size)), l[Level(b[p].size)], k - 1) < ADDRESS_SPACE
    requires 0 <= NodeAt(Root(lo, Level(b[p].size)), l[Level(b[p].size)], k) < ADDRESS_SPACE && 0 <= p < ADDRESS_SPACE
    ensures var i := Level(b[p].size);
            var w' := SpliceIn(w, NodeAt(Root(lo, i), l[i], k - 1), p, NodeAt(Root(lo, i), l[i], k));
            SegOk(w', b, l[i := InsertAt(l[i], k, p)], lo, listed + {p})
  {
    var i := Level(b[p].size);
    var root, s := Root(lo, i), l[i];
    var prev, next := NodeAt(root, s, k - 1), NodeAt(root, s, k);
    var w', l' := SpliceIn(w, prev, p, next), l[i := InsertAt(s, k, p)];
    assert LevelOk(w, b, l, lo, listed, i);
    ListNodes(b, l, lo, brk, listed, i);
    assert BlockOk(b, First(lo), brk, p);
    forall m | 0 <= m < |s| ensures WordsApart(p, s[m]) {
      assert Apart(b, p, s[m]) && Apart(b, s[m], p) && BlockOk(b, First(lo), brk, s[m]);
    }
    InsertLinked(w, root, s, k, p);
    InsertSorted(b, listed, i, s, k, p);
    forall j | 0 <= j < N_SEGLIST ensures LevelOk(w', b, l', lo, listed + {p}, j) {
      if j != i {
        assert LevelOk(w, b, l, lo, listed, j);
        OtherList(w, w', b, l, lo, brk, listed, i, j, prev, next, p);
      }
    }
    InsertListed(b, l, listed, p, k);
  }

  lemma RemoveSeg(w: map<int, Word>, b: Blocks, l: Lists, lo: int, brk: int, listed: set<int>, p: int, k: int)
    requires Tiled(b, First(lo), brk) && SegOk(w, b, l, lo, listed) && brk < ADDRESS_SPACE
    requires p in b && 0 <= k < |l[Level(b[p].size)]| && l[Level(b[p].size)][k] == p
    requires 0 <= NodeAt(Root(lo, Level(b[p].size)), l[Level(b[p].size)], k - 1) < ADDRESS_SPACE
    requires 0 <= NodeAt(Root(lo, Level(b[p].size)), l[Level(b[p].size)], k + 1) < ADDRESS_SPACE
    ensures var i := Level(b[p].size);
            var w' := SpliceOut(w, NodeAt(Root(lo, i), l[i], k - 1), NodeAt(Root(lo, i), l[i], k + 1));
            SegOk(w', b, l[i := RemoveAt(l[i], k)], lo, listed - {p})
  {
    var i := Level(b[p].size);
    var root, s := Root(lo, i), l[i];
    var prev, next := NodeAt(root, s, k - 1), NodeAt(root, s, k + 1);
    var w', l' := SpliceOut(w, prev, next), l[i := RemoveAt(s, k)];
    assert LevelOk(w, b, l, lo, listed, i);
    ListNodes(b, l, lo, brk, listed, i);
    RemoveLinked(w, root, s, k);
    RemoveSorted(b, listed, i, s, k);
    forall j | 0 <= j < N_SEGLIST ensures LevelOk(w', b, l', lo, listed - {p}, j) {
      if j != i {
        assert LevelOk(w, b, l, lo, listed, j);
        OtherList(w, w', b, l, lo, brk, listed, i, j, prev, next, 0);
      }
    }
    RemoveListed(b, l, listed, i, k);
  }

  /** Blocks that are not listed may be retiled and their memory rewritten. */
  lemma RegionKeepsLists(w: map<int, Word>, w': map<int, Word>, b: Blocks, c: Blocks, l: Lists, lo: int, brk: int,
                         listed: set<int>, p: int, e: int)
    requires Tiled(b, First(lo), brk) && SegOk(w, b, l, lo, listed) && p in b && Boundary(b, brk, e) && p < e
    requires SameOutside(w, w', p - 4, e - 4)
    requires forall q {:trigger q in listed} | q in listed :: !(p <= q < e) && q in b && q in c && c[q] == b[q]
    ensures SegOk(w', c, l, lo, listed)
  {
    assert BlockOk(b, First(lo), brk, p);
    forall i | 0 <= i < N_SEGLIST ensures LevelOk(w', c, l, lo, listed, i) {
      assert LevelOk(w, b, l, lo, listed, i);
      forall k | 0 <= k < |l[i]|
        ensures WordAt(w', l[i][k]) == WordAt(w, l[i][k]) && WordAt(w', l[i][k] + 4) == WordAt(w, l[i][k] + 4)
      {
        assert BlockOk(b, First(lo), brk, l[i][k]) && Apart(b, l[i][k], p);
      }
      SameLinks(w, w', Root(lo, i), l[i]);
    }
    forall q | q in listed ensures ListedOk(c, l, q) {
      assert ListedOk(b, l, q);
    }
  }
}
