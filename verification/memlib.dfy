/** The simulated memory system (memlib.c): a byte arena with a break pointer,
    together with the 32-bit loads and stores the allocator performs on it. */
module MemLib {

  const MAX_HEAP: int := 20 * 0x10_0000
  const ADDRESS_SPACE: int := 0x1_0000_0000

  type Byte = b: int | 0 <= b < 256
  type Word = w: int | 0 <= w < ADDRESS_SPACE

  /** The little-endian 32-bit word stored in four consecutive bytes. */
  function LoadWord(s: seq<Byte>, i: nat): Word
    requires i + 4 <= |s|
  {
    Compose(s[i], s[i + 1], s[i + 2], s[i + 3])
  }

  function Compose(b0: Byte, b1: Byte, b2: Byte, b3: Byte): Word {
    b0 as int + 0x100 * (b1 as int) + 0x1_0000 * (b2 as int) + 0x100_0000 * (b3 as int)
  }

  /** A word is the composition of the four bytes a store splits it into. */
  lemma StoredBytes(v: Word)
    ensures v / 0x100_0000 < 0x100
    ensures Compose(v % 0x100, v / 0x100 % 0x100, v / 0x1_0000 % 0x100, v / 0x100_0000) == v
  {
    assert v / 0x1_0000 == v / 0x100 / 0x100 && v / 0x100_0000 == v / 0x1_0000 / 0x100;
  }

  /** The same four bytes load as the same word. */
  lemma SameBytesSameWord(s: seq<Byte>, i: nat, t: seq<Byte>, j: nat)
    requires i + 4 <= |s| && j + 4 <= |t|
    requires s[i] == t[j] && s[i + 1] == t[j + 1] && s[i + 2] == t[j + 2] && s[i + 3] == t[j + 3]
    ensures LoadWord(s, i) == LoadWord(t, j)
  {
  }

  /** Equal words have equal bytes, so what is proved of words holds of bytes. */
  lemma ComposeInjective(b0: Byte, b1: Byte, b2: Byte, b3: Byte, c0: Byte, c1: Byte, c2: Byte, c3: Byte)
    requires Compose(b0, b1, b2, b3) == Compose(c0, c1, c2, c3)
    ensures b0 == c0 && b1 == c1 && b2 == c2 && b3 == c3
  {
    var d0, d1, d2, d3: int := b0 - c0, b1 - c1, b2 - c2, b3 - c3;
    assert d0 == -0x100 * (d1 + 0x100 * d2 + 0x1_0000 * d3);
    assert d1 + 0x100 * d2 + 0x1_0000 * d3 == 0;
    assert d1 == -0x100 * (d2 + 0x100 * d3);
    assert d2 + 0x100 * d3 == 0;
  }

  /** The bytes of memory after a 32-bit store. */
  function StoreWord(s: seq<Byte>, i: nat, v: Word): (t: seq<Byte>)
    requires i + 4 <= |s|
    ensures |t| == |s| && LoadWord(t, i) == v
    ensures forall k :: 0 <= k < |s| && !(i <= k < i + 4) ==> t[k] == s[k]
  {
    StoredBytes(v);
    s[i := v % 0x100][i + 1 := v / 0x100 % 0x100][i + 2 := v / 0x1_0000 % 0x100][i + 3 := v / 0x100_0000]
  }

  /** The word a map of words holds at an address; 0 where it holds none. */
  ghost function WordAt(w: map<int, Word>, a: int): Word {
    if a in w then w[a] else 0
  }

  /** `w` and `w'` agree outside the addresses from `x` up to, not including, `y`. */
  ghost predicate SameOutside(w: map<int, Word>, w': map<int, Word>, x: int, y: int) {
    forall a {:trigger WordAt(w', a)} :: !(x <= a < y) ==> WordAt(w', a) == WordAt(w, a)
  }

  lemma SameOutsideTrans(w: map<int, Word>, w1: map<int, Word>, w2: map<int, Word>, x: int, y: int)
    requires SameOutside(w, w1, x, y) && SameOutside(w1, w2, x, y)
    ensures SameOutside(w, w2, x, y)
  {
    forall a | !(x <= a < y) ensures WordAt(w2, a) == WordAt(w, a) {
      assert WordAt(w1, a) == WordAt(w, a);
    }
  }

  /** The word stored at address `a` when the bytes `s` start at address `start`. */
  ghost function Loaded(s: seq<Byte>, start: int, a: int): Word {
    if start <= a && a - start + 4 <= |s| then LoadWord(s, a - start) else 0
  }

  /** `words` is the word view of the bytes `s` that start at address `start`. */
  ghost predicate Mirrors(words: map<int, Word>, s: seq<Byte>, start: int) {
    forall a {:trigger Loaded(s, start, a)} | a in words ::
      start <= a && a - start + 4 <= |s| && a % 4 == 0 && words[a] == Loaded(s, start, a)
  }

  lemma StoreMirrors(words: map<int, Word>, s: seq<Byte>, start: int, a: int, v: Word)
    requires start % 8 == 0 && Mirrors(words, s, start) && a in words
    requires start <= a && a - start + 4 <= |s| && a % 4 == 0
    ensures Mirrors(words[a := v], StoreWord(s, a - start, v), start)
  {
    var t := StoreWord(s, a - start, v);
    var words' := words[a := v];
    forall b | b in words'
      ensures start <= b && b - start + 4 <= |t| && b % 4 == 0 && words'[b] == Loaded(t, start, b)
    {
      assert b in words && Loaded(s, start, b) == words[b];
      if b != a {
        assert b + 4 <= a || a + 4 <= b;
        SameBytesSameWord(s, b - start, t, b - start);
      }
    }
    assert Mirrors(words', t, start);
  }

  /** The words after a fill differ from those before only where the filled bytes reach. */
  lemma FillMirrors(words: map<int, Word>, s: seq<Byte>, t: seq<Byte>, start: int, dst: int, n: nat)
    returns (words': map<int, Word>)
    requires Mirrors(words, s, start) && |t| == |s| && start <= dst && dst + n <= start + |s|
    requires forall k :: 0 <= k < |s| && !(dst - start <= k < dst - start + n) ==> t[k] == s[k]
    ensures Mirrors(words', t, start) && words'.Keys == words.Keys
    ensures SameOutside(words, words', dst - 3, dst + n)
  {
    assert forall a :: a in words ==> words[a] == WordAt(words, a);
    words' := map a | a in words :: Loaded(t, start, a);
    forall b | b in words' ensures start <= b && b - start + 4 <= |t| && b % 4 == 0 {
      assert Loaded(s, start, b) == words[b];
    }
    forall b | !(dst - 3 <= b < dst + n) ensures WordAt(words', b) == WordAt(words, b) {
      if b in words {
        assert Loaded(s, start, b) == words[b];
        SameBytesSameWord(s, b - start, t, b - start);
      }
    }
  }

  /** `w'` is `w` after the `n` bytes of words from `src` have been copied to `dst`. */
  ghost predicate Copied(w: map<int, Word>, w': map<int, Word>, dst: int, src: int, n: int) {
    && SameOutside(w, w', dst, dst + n)
    && (forall a {:trigger WordAt(w', a)} :: dst <= a < dst + n && a % 4 == 0 ==>
          WordAt(w', a) == WordAt(w, a - dst + src))
  }

  lemma CopyStep(w: map<int, Word>, w': map<int, Word>, dst: int, src: int, i: nat)
    requires Copied(w, w', dst, src, i) && (dst + i) % 4 == 0 && (dst <= src || src + i + 4 <= dst)
    ensures Copied(w, w'[dst + i := WordAt(w', src + i)], dst, src, i + 4)
  {
    var w'' := w'[dst + i := WordAt(w', src + i)];
    assert WordAt(w', src + i) == WordAt(w, src + i);
    forall a | !(dst <= a < dst + i + 4) ensures WordAt(w'', a) == WordAt(w, a) {
      assert WordAt(w', a) == WordAt(w, a);
    }
    forall a | dst <= a < dst + i + 4 && a % 4 == 0 ensures WordAt(w'', a) == WordAt(w, a - dst + src) {
      if a < dst + i {
        assert WordAt(w', a) == WordAt(w, a - dst + src);
      } else {
        assert a == dst + i;
      }
    }
  }

  /** Every aligned word of the arena has a value in `w`. */
  ghost predicate Covers(w: map<int, Word>, start: int) {
    forall a {:trigger a in w} :: start <= a && a + 4 <= start + MAX_HEAP && a % 4 == 0 ==> a in w
  }

  lemma WordsAligned(a: int, k: int)
    requires a % 4 == 0
    ensures (a + 4 * k) % 4 == 0
  {
  }

  /** The arena as the static variables of memlib.c describe it. `data[i]` is the byte at
      address `start + i`; `words` is the same memory seen as aligned 32-bit words. */
  class Memory {
    const start: int
    const data: array<Byte>
    var brk: int
    ghost var words: map<int, Word>

    ghost predicate InArena(a: int) {
      start <= a && a + 4 <= start + MAX_HEAP && a % 4 == 0
    }

    ghost predicate Valid()
      reads this, data
    {
      && 0 < start && start % 8 == 0 && start + MAX_HEAP < ADDRESS_SPACE
      && data.Length == MAX_HEAP
      && start <= brk <= start + MAX_HEAP
      && (forall a {:trigger InArena(a)} :: a in words <==> InArena(a))
      && Mirrors(words, data[..], start)
    }

    lemma WordView()
      requires Valid()
      ensures Mirrors(words, data[..], start) && Covers(words, start) && |data[..]| == MAX_HEAP
    {
      forall a | InArena(a) ensures a in words {
      }
      assert forall a :: start <= a && a + 4 <= start + MAX_HEAP && a % 4 == 0 ==> InArena(a);
    }

    /** mem_init; `addr` is where the C library placed the arena. */
    constructor (addr: int)
      requires 0 < addr && addr % 8 == 0 && addr + MAX_HEAP < ADDRESS_SPACE
      ensures Valid() && fresh(data)
      ensures start == addr && brk == start
    {
      start := addr;
      brk := addr;
      data := new Byte[MAX_HEAP];
      new;
      ghost var s := data[..];
      words := map a | start <= a < start + MAX_HEAP - 3 && a % 4 == 0 :: Loaded(s, start, a);
    }

    /** mem_reset_brk */
    method ResetBrk()
      requires Valid()
      modifies this`brk
      ensures Valid() && brk == start
    {
      brk := start;
    }

    /** Adding `n` to the break stays inside the address space, if mem_sbrk takes `n` for positive at all. */
    ghost predicate Roomy(n: int)
      reads this`brk
    {
      n < ADDRESS_SPACE / 2 ==> brk + n < ADDRESS_SPACE
    }

    /** mem_sbrk: the old break, or -1 when the request is negative or does not fit. The new break is a 32-bit
        address: when the sum passes the end of the address space it wraps, the test passes, and the break
        lands below the arena. */
    method Sbrk(incr: int) returns (p: int)
      requires Valid() && incr < ADDRESS_SPACE / 2
      modifies this`brk
      ensures incr < 0 || old(brk) + incr < ADDRESS_SPACE ==>
                && Valid()
                && (p == -1 <==> incr < 0 || old(brk) + incr > start + MAX_HEAP)
                && (p == -1 ==> brk == old(brk))
                && (p != -1 ==> p == old(brk) && brk == old(brk) + incr)
      ensures !(incr < 0 || old(brk) + incr < ADDRESS_SPACE) ==>
                p == old(brk) && brk == old(brk) + incr - ADDRESS_SPACE < start
    {
      var oldBrk := brk;
      if incr < 0 || (brk + incr) % ADDRESS_SPACE > start + MAX_HEAP {
        return -1;
      }
      brk := (brk + incr) % ADDRESS_SPACE;
      return oldBrk;
    }

    /** mem_heap_lo */
    function HeapLo(): int { start }

    /** mem_heap_hi */
    function HeapHi(): int reads this { brk - 1 }

    /** mem_heapsize */
    function HeapSize(): int reads this { brk - start }

    /** The byte at an address. */
    function ByteAt(a: int): Byte
      requires start <= a < start + data.Length
      reads data
    {
      data[a - start]
    }

    /** GET: a 32-bit load inside the heap. */
    method Get(a: int) returns (v: Word)
      requires Valid() && InArena(a) && a + 4 <= brk
      ensures v == WordAt(words, a)
    {
      var i := a - start;
      assert words[a] == Loaded(data[..], start, a);
      v := Compose(data[i], data[i + 1], data[i + 2], data[i + 3]);
    }

    /** PUT: a 32-bit store inside the heap. */
    method Put(a: int, v: Word)
      requires Valid() && InArena(a) && a + 4 <= brk
      modifies this`words, data
      ensures Valid()
      ensures words == old(words)[a := v]
    {
      var i := a - start;
      ghost var before := data[..];
      StoredBytes(v);
      StoreMirrors(words, before, start, a, v);
      data[i] := v % 0x100;
      data[i + 1] := v / 0x100 % 0x100;
      data[i + 2] := v / 0x1_0000 % 0x100;
      data[i + 3] := v / 0x100_0000;
      words := words[a := v];
      assert data[..] == StoreWord(before, i, v);
    }

    /** memmove of whole words towards a lower address, and memcpy between disjoint areas. */
    method Memmove(dst: int, src: int, n: int)
      requires Valid() && n >= 0 && n % 4 == 0 && dst % 4 == 0 && src % 4 == 0
      requires start <= dst && dst + n <= brk && start <= src && src + n <= brk
      requires dst <= src || src + n <= dst
      modifies this`words, data
      ensures Valid()
      ensures Copied(old(words), words, dst, src, n)
    {
      for k := 0 to n / 4
        invariant Valid() && Copied(old(words), words, dst, src, 4 * k)
      {
        WordsAligned(src, k);
        WordsAligned(dst, k);
        assert 4 * k + 4 <= n;
        CopyStep(old(words), words, dst, src, 4 * k);
        var v := Get(src + 4 * k);
        Put(dst + 4 * k, v);
      }
    }

    /** memset, a byte at a time. */
    method Memset(dst: int, v: Byte, n: int)
      requires Valid() && n >= 0 && start <= dst && dst + n <= brk
      modifies this`words, data
      ensures Valid()
      ensures forall k {:trigger data[k]} :: 0 <= k < data.Length ==>
                data[k] == if dst - start <= k < dst - start + n then v else old(data[k])
      ensures SameOutside(old(words), words, dst - 3, dst + n)
    {
      ghost var before := data[..];
      forall i | 0 <= i < n {
        data[dst - start + i] := v;
      }
      words := FillMirrors(words, before, data[..], start, dst, n);
    }
  }
}
