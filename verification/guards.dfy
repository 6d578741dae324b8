/** The comparisons of mm_realloc in unsigned 32-bit arithmetic, and exactly when they are sound. */
module Guards {
  import opened MemLib
  import opened BlockMap
  import opened SegList
  import opened Heap

  /** The region mm_realloc builds the grown block in, when it does so in place. */
  datatype Region = Elsewhere | Region(front: int, bytes: int)

  /** The first of Cases 2.1, 2.2 and 2.3 whose comparison passes. */
  ghost function Taken(b: Blocks, p: int, size: int): Region
    requires p in b
  {
    var c, a, n, v := b[p].size, AdjustedSize(size), NextFree(b, p), PrevFree(b, p);
    if n > 0 && Sub32(c + n, a) > 0 then Region(p, c + n)
    else if v > 0 && Sub32(c + v, a) > 0 then Region(p - v, c + v)
    else if v > 0 && n > 0 && Sub32(c + v + n, a) > 0 then Region(p - v, c + v + n)
    else Elsewhere
  }

  /** The blocks whose tags the branch stores: the grown block, and what is left if that can be a block. */
  ghost predicate Stored(c: Blocks, r: Region, a: int)
    requires r.Region?
  {
    var left := Sub32(r.bytes, a);
    r.front in c &&
    if left >= MIN_BLOCK_SIZE then
      c[r.front] == Block(a, true) && r.front + a in c && c[r.front + a] == Block(left, false)
    else c[r.front] == Block(r.bytes, true)
  }

  lemma NextFreeBounds(b: Blocks, first: int, brk: int, p: int)
    requires Tiled(b, first, brk) && p in b
    ensures NextFree(b, p) >= 0 && NextFree(b, p) % 8 == 0 && (NextFree(b, p) > 0 ==> NextFree(b, p) >= 16)
    ensures Boundary(b, brk, p + b[p].size + NextFree(b, p))
    ensures p >= first && p % 8 == 0 && b[p].size % 8 == 0 && p + b[p].size + NextFree(b, p) <= brk
  {
    var q := p + b[p].size;
    assert BlockOk(b, first, brk, p) && NextOk(b, brk, p);
    assert q in b ==> BlockOk(b, first, brk, q) && NextOk(b, brk, q);
  }

  lemma PrevFreeBounds(b: Blocks, first: int, brk: int, p: int)
    requires Tiled(b, first, brk) && p in b
    ensures PrevFree(b, p) >= 0 && PrevFree(b, p) % 8 == 0 && (PrevFree(b, p) > 0 ==> PrevFree(b, p) >= 16)
    ensures PrevFree(b, p) > 0 ==> p - PrevFree(b, p) in b && p - PrevFree(b, p) >= first
  {
    if exists q :: EndsAt(b, q, p) && !b[q].used {
      var q :| EndsAt(b, q, p) && !b[q].used && PrevFree(b, p) == b[q].size;
      assert BlockOk(b, first, brk, q);
    }
  }

  /** A region mm_realloc takes is made of whole blocks. */
  lemma TakenRegion(b: Blocks, first: int, brk: int, p: int, size: int)
    requires Tiled(b, first, brk) && p in b && Taken(b, p, size).Region?
    ensures var r := Taken(b, p, size);
            && r.front in b && Boundary(b, brk, r.front + r.bytes)
            && first <= r.front && 0 < r.bytes && r.front + r.bytes <= brk && r.bytes % 8 == 0
  {
    NextFreeBounds(b, first, brk, p);
    PrevFreeBounds(b, first, brk, p);
    assert BlockOk(b, first, brk, p) && NextOk(b, brk, p);
  }

  /** Case 2.3 is reached only when either neighbour alone makes exactly the size wanted. What is left
      is then a whole block, so Case 2.3.2 is never taken. */
  lemma WholeBlockLeft(b: Blocks, first: int, brk: int, p: int, size: int)
    requires Tiled(b, first, brk) && 0 <= first && brk < ADDRESS_SPACE && p in b && 0 < size <= MAX_REQUEST
    requires NextFree(b, p) > 0 && PrevFree(b, p) > 0
    requires Sub32(b[p].size + NextFree(b, p), AdjustedSize(size)) == 0
    requires Sub32(b[p].size + PrevFree(b, p), AdjustedSize(size)) == 0
    ensures Sub32(b[p].size + PrevFree(b, p) + NextFree(b, p), AdjustedSize(size)) == NextFree(b, p) >= MIN_BLOCK_SIZE
  {
    AdjustedRange(size);
    NextFreeBounds(b, first, brk, p);
    PrevFreeBounds(b, first, brk, p);
    assert BlockOk(b, first, brk, p);
    NoWrap(b[p].size + NextFree(b, p), AdjustedSize(size));
    NoWrap(b[p].size + PrevFree(b, p), AdjustedSize(size));
  }

  lemma NoWrap(x: int, y: int)
    requires 0 <= x < ADDRESS_SPACE && 0 <= y < ADDRESS_SPACE
    ensures Sub32(x, y) == if x >= y then x - y else x - y + ADDRESS_SPACE
    ensures Sub32(x, y) == 0 <==> x == y
  {
  }

  /** A region smaller than the block wanted: no tiling has the tags that are stored. */
  lemma TooSmall(c: Blocks, first: int, brk: int, r: Region, a: int)
    requires Tiled(c, first, brk) && brk < ADDRESS_SPACE && r.Region? && 0 <= r.front
    requires 0 < r.bytes < a < ADDRESS_SPACE && r.bytes % 8 == 0 && a % 8 == 0
    ensures !Stored(c, r, a)
  {
    NoWrap(r.bytes, a);
    assert r.front + a in c ==> BlockOk(c, first, brk, r.front + a);
    assert r.front in c ==> BlockOk(c, first, brk, r.front);
    Multiples(r.bytes, a);
  }

  lemma Multiples(x: int, y: int)
    requires x % 8 == 0 && y % 8 == 0
    ensures (x - y) % 8 == 0 && x < y ==> x + 8 <= y
  {
    assert x - y == 8 * (x / 8 - y / 8);
  }

  /** A region large enough: the retiled heap has them. */
  lemma LargeEnough(b: Blocks, first: int, brk: int, r: Region, a: int) returns (c: Blocks)
    requires Tiled(b, first, brk) && brk < ADDRESS_SPACE && r.Region? && 0 <= first <= r.front
    requires r.front in b && Boundary(b, brk, r.front + r.bytes) && r.front + r.bytes <= brk
    requires MIN_BLOCK_SIZE <= a < r.bytes && a % 8 == 0
    ensures Tiled(c, first, brk) && Stored(c, r, a)
  {
    var e := r.front + r.bytes;
    NoWrap(r.bytes, a);
    if r.bytes - a >= MIN_BLOCK_SIZE {
      c := Carve(b, r.front, e, a);
      CarveTiled(b, first, brk, r.front, e, a);
    } else {
      c := Fuse(b, r.front, e, true);
      FuseTiled(b, first, brk, r.front, e, true);
    }
  }

  /** ReallocSafe is exact: for a block that has to grow, it holds if and only if mm_realloc either
      allocates elsewhere or stores tags that some tiling of the heap has. */
  lemma SafeExactly(b: Blocks, first: int, brk: int, p: int, size: int)
    requires Tiled(b, first, brk) && 0 <= first && brk < ADDRESS_SPACE && p in b && 0 < size <= MAX_REQUEST
    requires b[p].size < AdjustedSize(size)
    ensures ReallocSafe(b, p, size) <==>
            var t := Taken(b, p, size);
            t.Elsewhere? || exists c :: Tiled(c, first, brk) && Stored(c, t, AdjustedSize(size))
  {
    var t, a := Taken(b, p, size), AdjustedSize(size);
    AdjustedRange(size);
    SafeBranch(b, first, brk, p, size);
    if t.Region? {
      TakenRegion(b, first, brk, p, size);
      if t.bytes > a {
        var c := LargeEnough(b, first, brk, t, a);
      } else {
        forall c | Tiled(c, first, brk) ensures !Stored(c, t, a) {
          TooSmall(c, first, brk, t, a);
        }
      }
    }
  }

  /** ReallocSafe in terms of the branch taken. */
  lemma SafeBranch(b: Blocks, first: int, brk: int, p: int, size: int)
    requires Tiled(b, first, brk) && 0 <= first && brk < ADDRESS_SPACE && p in b && 0 < size <= MAX_REQUEST
    requires b[p].size < AdjustedSize(size)
    ensures var t := Taken(b, p, size);
            && (ReallocSafe(b, p, size) <==> t.Elsewhere? || t.bytes > AdjustedSize(size))
            && (t.Region? ==> t.bytes != AdjustedSize(size))
  {
    var c, a, n, v := b[p].size, AdjustedSize(size), NextFree(b, p), PrevFree(b, p);
    AdjustedRange(size);
    NextFreeBounds(b, first, brk, p);
    PrevFreeBounds(b, first, brk, p);
    assert BlockOk(b, first, brk, p);
    NoWrap(c + n, a);
    NoWrap(c + v, a);
    if n > 0 && v > 0 && c + n == a && c + v == a {
      WholeBlockLeft(b, first, brk, p, size);
    }
  }

  /** GrowTarget and Taken tell of one decision: a safe growing call goes where its branch rebuilds it. */
  lemma TargetTaken(b: Blocks, first: int, brk: int, p: int, size: int)
    requires Tiled(b, first, brk) && 0 < first && brk < ADDRESS_SPACE && p in b && 0 < size <= MAX_REQUEST
    requires b[p].size < AdjustedSize(size) && ReallocSafe(b, p, size)
    ensures GrowTarget(b, p, size) == match Taken(b, p, size) case Elsewhere => 0 case Region(front, _) => front
  {
    var c, a, n, v := b[p].size, AdjustedSize(size), NextFree(b, p), PrevFree(b, p);
    AdjustedRange(size);
    NextFreeBounds(b, first, brk, p);
    PrevFreeBounds(b, first, brk, p);
    assert BlockOk(b, first, brk, p);
    NoWrap(c + n, a);
    NoWrap(c + v, a);
    if n > 0 && v > 0 && c + n == a && c + v == a {
      WholeBlockLeft(b, first, brk, p, size);
    }
  }
}
