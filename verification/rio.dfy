/** The buffered half of the Rio package (csapp.c): rio_read, rio_readnb and rio_readlineb over a
    descriptor that hands out its bytes in arbitrary pieces, interrupted at arbitrary points. */
module Rio {
  import opened Prelude

  const RIO_BUFSIZE: int := 8192

  /** What one or more read system calls on the descriptor will meet. */
  datatype Event = Data(bytes: seq<char>) | Interrupted | Failed

  /** The bytes to come before the descriptor fails or ends. */
  ghost function Coming(es: seq<Event>): seq<char> {
    if |es| == 0 then []
    else match es[0]
      case Data(bytes) => bytes + Coming(es[1..])
      case Interrupted => Coming(es[1..])
      case Failed => []
  }

  /** A failure lies ahead. */
  ghost predicate Fails(es: seq<Event>) {
    Failed in es
  }

  ghost predicate NonEmptyData(es: seq<Event>) {
    forall k {:trigger es[k]} :: 0 <= k < |es| && es[k].Data? ==> |es[k].bytes| > 0
  }

  /** The first line of `s`, newline included, cut at `m` bytes. */
  ghost function FirstLine(s: seq<char>, m: int): (t: seq<char>)
    ensures |t| <= |s| && t == s[..|t|]
  {
    if m <= 0 || |s| == 0 then []
    else if s[0] == '\n' then [s[0]]
    else [s[0]] + FirstLine(s[1..], m - 1)
  }

  /** Reading on from the first `k` bytes, none of them a newline. */
  lemma {:induction false} LineSplit(s: seq<char>, m: int, k: nat)
    requires k <= |s| && k <= m && forall j :: 0 <= j < k ==> s[j] != '\n'
    ensures FirstLine(s, m) == s[..k] + FirstLine(s[k..], m - k)
  {
    if k > 0 {
      var t := s[1..];
      LineSplit(t, m - 1, k - 1);
      assert t[k - 1..] == s[k..] && s[..k] == [s[0]] + t[..k - 1];
      Regroup([s[0]], t[..k - 1], FirstLine(s[k..], m - k));
    } else {
      assert s[..0] + FirstLine(s[0..], m) == FirstLine(s, m);
    }
  }

  /** Where a line may stop once its first `k` bytes are known not to be newlines. */
  lemma LineStops(s: seq<char>, m: int, k: nat)
    requires k <= |s| && '\n' !in s[..k] && (k <= m || k == 0)
    ensures k >= m || k == |s| ==> FirstLine(s, m) == s[..k]
    ensures k < m && k < |s| ==> s[..k + 1] == s[..k] + [s[k]]
    ensures k < m && k < |s| && s[k] == '\n' ==> FirstLine(s, m) == s[..k + 1]
    ensures k < m && k < |s| && s[k] != '\n' ==> '\n' !in s[..k + 1]
    ensures k == |s| ==> '\n' !in s
  {
    if k <= m {
      assert forall j :: 0 <= j < k ==> s[j] == s[..k][j] && s[j] in s[..k];
      LineSplit(s, m, k);
    }
    if k == |s| {
      assert s[..k] == s;
    }
  }

  /** FirstLine is the only prefix that stops at the first newline, at `m` bytes or at the end. */
  lemma {:induction false} LineExactly(s: seq<char>, m: nat, k: nat)
    requires k <= |s|
    ensures k == |FirstLine(s, m)| <==>
            k <= m && (forall j :: 0 <= j < k - 1 ==> s[j] != '\n')
            && (k == m || k == |s| || (k > 0 && s[k - 1] == '\n'))
    decreases |s|
  {
    if m > 0 && |s| > 0 && s[0] != '\n' && k > 0 {
      LineExactly(s[1..], m - 1, k - 1);
      if k == |FirstLine(s, m)| {
        forall j | 0 <= j < k - 1 ensures s[j] != '\n' {
          assert j > 0 ==> s[j] == s[1..][j - 1];
        }
      } else if forall j :: 0 <= j < k - 1 ==> s[j] != '\n' {
        forall j | 0 <= j < k - 2 ensures s[1..][j] != '\n' {
          assert s[1..][j] == s[j + 1];
        }
      }
    }
  }

  /** A whole line, or `m` bytes of one, are there. */
  ghost predicate HasLine(s: seq<char>, m: int) {
    m <= |s| || '\n' in s
  }

  class RioBuf {
    /** The descriptor, by what reading it will bring; once this is empty every read finds the end of file. */
    var fd: seq<Event>
    var cnt: int
    var bufptr: int
    const buf: array<char>

    ghost predicate Valid()
      reads this, buf
    {
      && buf.Length == RIO_BUFSIZE && NonEmptyData(fd)
      && (cnt > 0 ==> 0 <= bufptr && bufptr + cnt <= RIO_BUFSIZE)
    }

    /** What reading will bring before a failure or the end: the unread bytes of the buffer, then the descriptor's. */
    ghost function Unread(): seq<char>
      requires Valid()
      reads this, buf
    {
      (if cnt > 0 then buf[bufptr..bufptr + cnt] else []) + Coming(fd)
    }

    /** rio_readinitb */
    constructor (fd: seq<Event>)
      requires NonEmptyData(fd)
      ensures Valid() && fresh(buf) && this.fd == fd && Unread() == Coming(fd)
    {
      this.fd := fd;
      cnt := 0;
      bufptr := 0;
      buf := new char[RIO_BUFSIZE];
    }

    /** The read system call into the internal buffer; `eintr` tells an interruption from a failure. */
    method Read() returns (n: int, eintr: bool)
      requires Valid() && cnt <= 0
      modifies `fd, buf
      ensures buf.Length == RIO_BUFSIZE && NonEmptyData(fd)
      ensures -1 <= n <= RIO_BUFSIZE
      ensures n == 0 ==> old(fd) == [] && fd == []
      ensures n > 0 ==> old(fd) != [] && Coming(old(fd)) == buf[..n] + Coming(fd) && (Fails(fd) <==> Fails(old(fd)))
      ensures |fd| <= |old(fd)|
      ensures n < 0 ==> old(fd) != [] && old(fd)[0] == (if eintr then Interrupted else Failed) && fd == old(fd)[1..]
    {
      eintr := false;
      if fd == [] {
        return 0, false;
      }
      assert fd == [fd[0]] + fd[1..];
      match fd[0]
      case Interrupted =>
        fd := fd[1..];
        n, eintr := -1, true;
      case Failed =>
        fd := fd[1..];
        n := -1;
      case Data(bytes) =>
        n := Min(|bytes|, RIO_BUFSIZE);
        forall k | 0 <= k < n {
          buf[k] := bytes[k];
        }
        assert buf[..n] == bytes[..n];
        ghost var rest := fd[1..];
        if n < |bytes| {
          fd := [Data(bytes[n..])] + fd[1..];
          assert fd[1..] == rest && bytes == bytes[..n] + bytes[n..];
          assert Coming(fd) == bytes[n..] + Coming(rest);
        } else {
          fd := fd[1..];
        }
    }

    /** The refill loop of rio_read: 1 with bytes in the buffer, 0 at the end, -1 on a failure. */
    method Refill() returns (r: int)
      requires Valid()
      modifies `fd, `cnt, `bufptr, buf
      ensures Valid() && -1 <= r <= 1
      ensures r == 1 ==> cnt > 0
      ensures r == 0 ==> old(Unread()) == [] && !Fails(old(fd))
      ensures r == -1 ==> old(Unread()) == [] && Fails(old(fd))
      ensures r >= 0 ==> Unread() == old(Unread()) && (Fails(fd) <==> Fails(old(fd)))
    {
      ghost var all := Unread();
      while cnt <= 0
        invariant Valid() && Unread() == all && (Fails(fd) <==> Fails(old(fd)))
        decreases |fd|, cnt <= 0
      {
        ghost var es := fd;
        var eintr;
        cnt, eintr := Read();
        if cnt < 0 {
          assert es == [es[0]] + es[1..];
          if !eintr {
            return -1;
          }
        } else if cnt == 0 {
          return 0;
        } else {
          bufptr := 0;
        }
      }
      return 1;
    }

    /** rio_read: some bytes, at least one unless the end or a failure comes first. */
    method RioRead(usrbuf: array<char>, off: int, n: int) returns (r: int)
      requires Valid() && usrbuf != buf && 0 <= n && 0 <= off && off + n <= usrbuf.Length
      modifies `fd, `cnt, `bufptr, buf, usrbuf
      ensures Valid() && -1 <= r <= n
      ensures r == -1 ==> Fails(old(fd)) && old(Unread()) == []
      ensures r >= 0 ==>
                r <= |old(Unread())| && usrbuf[off..off + r] == old(Unread())[..r] && Unread() == old(Unread())[r..]
      ensures r >= 0 ==> (Fails(fd) <==> Fails(old(fd)))
      ensures r == 0 && n > 0 ==> old(Unread()) == [] && !Fails(old(fd))
      ensures forall k :: 0 <= k < usrbuf.Length && !(off <= k < off + r) ==> usrbuf[k] == old(usrbuf[k])
    {
      ghost var all := Unread();
      var filled := Refill();
      if filled <= 0 {
        return filled;
      }
      var c := n;
      if cnt < n {
        c := cnt;
      }
      CopyOut(usrbuf, off, c);
      r := c;
    }

    /** The memcpy of rio_read. */
    method CopyOut(usrbuf: array<char>, off: int, c: int)
      requires Valid() && usrbuf != buf && cnt > 0 && 0 <= c <= cnt && 0 <= off && off + c <= usrbuf.Length
      modifies `cnt, `bufptr, usrbuf
      ensures Valid() && c <= |old(Unread())|
      ensures usrbuf[off..off + c] == old(Unread())[..c] && Unread() == old(Unread())[c..]
      ensures forall k :: 0 <= k < usrbuf.Length && !(off <= k < off + c) ==> usrbuf[k] == old(usrbuf[k])
    {
      ghost var chunk := buf[bufptr..bufptr + cnt];
      assert Unread() == chunk + Coming(fd);
      forall k | 0 <= k < c {
        usrbuf[off + k] := buf[bufptr + k];
      }
      SplitFront(chunk, Coming(fd), c);
      assert usrbuf[off..off + c] == chunk[..c];
      bufptr := bufptr + c;
      cnt := cnt - c;
      assert chunk[c..] == if cnt > 0 then buf[bufptr..bufptr + cnt] else [];
    }

    /** rio_readnb: `n` bytes, or all there are before the end; -1 when a failure comes first. */
    method RioReadnb(usrbuf: array<char>, n: int) returns (r: int)
      requires Valid() && usrbuf != buf && 0 <= n <= usrbuf.Length
      modifies `fd, `cnt, `bufptr, buf, usrbuf
      ensures Valid()
      ensures r == -1 <==> Fails(old(fd)) && |old(Unread())| < n
      ensures r != -1 ==>
                r == Min(n, |old(Unread())|) && usrbuf[..r] == old(Unread())[..r] && Unread() == old(Unread())[r..]
      ensures r != -1 ==> (Fails(fd) <==> Fails(old(fd)))
      ensures r != -1 ==> forall k :: r <= k < usrbuf.Length ==> usrbuf[k] == old(usrbuf[k])
    {
      var failed, nleft := ReadAll(usrbuf, n);
      if failed {
        return -1;
      }
      r := n - nleft;
    }

    /** The loop of rio_readnb: what is left to read when it is through, or fails. */
    method ReadAll(usrbuf: array<char>, n: int) returns (failed: bool, nleft: int)
      requires Valid() && usrbuf != buf && 0 <= n <= usrbuf.Length
      modifies `fd, `cnt, `bufptr, buf, usrbuf
      ensures Valid() && 0 <= nleft <= n
      ensures failed ==> Fails(old(fd)) && |old(Unread())| < n
      ensures !failed ==> Delivered(usrbuf, n - nleft, old(Unread())) && (Fails(fd) <==> Fails(old(fd)))
      ensures !failed && nleft > 0 ==> !Fails(old(fd)) && n - nleft == |old(Unread())|
      ensures !failed ==> forall k :: n - nleft <= k < usrbuf.Length ==> usrbuf[k] == old(usrbuf[k])
    {
      ghost var all := Unread();
      failed, nleft := false, n;
      var bufp := 0;
      while nleft > 0
        invariant Valid() && 0 <= nleft <= n && bufp == n - nleft && Delivered(usrbuf, bufp, all)
        invariant Fails(fd) <==> Fails(old(fd))
        invariant forall k :: bufp <= k < usrbuf.Length ==> usrbuf[k] == old(usrbuf[k])
      {
        var nread := ReadMore(usrbuf, bufp, nleft, all);
        if nread < 0 {
          failed := true;
          return;
        } else if nread == 0 {
          return;
        }
        nleft := nleft - nread;
        bufp := bufp + nread;
      }
    }

    /** The first `k` bytes of `all` are in the buffer of the caller, and the others unread. */
    ghost predicate Delivered(usrbuf: array<char>, k: int, all: seq<char>)
      requires Valid()
      reads this, buf, usrbuf
    {
      0 <= k <= |all| && k <= usrbuf.Length && usrbuf[..k] == all[..k] && Unread() == all[k..]
    }

    /** One rio_read of rio_readnb, behind the `bufp` bytes stored already. */
    method ReadMore(usrbuf: array<char>, bufp: int, nleft: int, ghost all: seq<char>) returns (nread: int)
      requires Valid() && usrbuf != buf && 0 < nleft && 0 <= bufp && bufp + nleft <= usrbuf.Length
      requires Delivered(usrbuf, bufp, all)
      modifies `fd, `cnt, `bufptr, buf, usrbuf
      ensures Valid() && -1 <= nread <= nleft
      ensures nread == -1 ==> Fails(old(fd)) && bufp == |all|
      ensures nread == 0 ==> !Fails(old(fd)) && bufp == |all|
      ensures nread >= 0 ==> Delivered(usrbuf, bufp + nread, all) && (Fails(fd) <==> Fails(old(fd)))
      ensures nread >= 0 ==> forall k :: bufp + nread <= k < usrbuf.Length ==> usrbuf[k] == old(usrbuf[k])
    {
      ghost var stored := usrbuf[..bufp];
      nread := RioRead(usrbuf, bufp, nleft);
      assert usrbuf[..bufp] == stored;
      if nread >= 0 {
        assert usrbuf[..bufp + nread] == stored + usrbuf[bufp..bufp + nread];
        assert all[..bufp + nread] == all[..bufp] + all[bufp..][..nread];
        assert all[bufp..][nread..] == all[bufp + nread..];
      }
    }

    /** The loop of rio_readlineb: 1 with the line stored and its length, 0 at the end of file, -1 on a failure. */
    method StoreLine(usrbuf: array<char>, maxlen: int) returns (status: int, bufp: int)
      requires Valid() && usrbuf != buf && 0 <= maxlen <= usrbuf.Length && 1 <= usrbuf.Length
      modifies `fd, `cnt, `bufptr, buf, usrbuf
      ensures Valid() && -1 <= status <= 1 && 0 <= bufp < usrbuf.Length
      ensures status == -1 <==> Fails(old(fd)) && !HasLine(old(Unread()), maxlen - 1)
      ensures status == 0 ==> maxlen > 1 && old(Unread()) == [] && bufp == 0
      ensures status == 1 ==> usrbuf[..bufp] == FirstLine(old(Unread()), maxlen - 1) && (bufp == 0 ==> maxlen <= 1)
      ensures status >= 0 ==>
                bufp <= |old(Unread())| && Unread() == old(Unread())[bufp..] && (Fails(fd) <==> Fails(old(fd)))
      ensures forall k :: bufp <= k < usrbuf.Length ==> usrbuf[k] == old(usrbuf[k])
    {
      ghost var all, m := Unread(), maxlen - 1;
      var n := 1;
      bufp := 0;
      while n < maxlen
        invariant Valid() && n == bufp + 1 && (n <= maxlen || bufp == 0)
        invariant Delivered(usrbuf, bufp, all) && '\n' !in all[..bufp]
        invariant Fails(fd) <==> Fails(old(fd))
        invariant forall k :: bufp <= k < usrbuf.Length ==> usrbuf[k] == old(usrbuf[k])
        decreases maxlen - n
      {
        LineStops(all, m, bufp);
        var rc, c := TakeChar(usrbuf, bufp, all);
        if rc == 1 {
          bufp := bufp + 1;
          n := n + 1;
          if c == '\n' {
            assert all[bufp - 1] in all;
            return 1, bufp;
          }
        } else if rc == 0 {
          return if n == 1 then 0 else 1, bufp;
        } else {
          return -1, bufp;
        }
      }
      LineStops(all, m, bufp);
      return 1, bufp;
    }

    /** rio_readlineb: the next line, newline included, cut at `maxlen - 1` bytes and NUL-terminated;
        0 at the end of file, with nothing written; -1 when a failure comes first. */
    method RioReadlineb(usrbuf: array<char>, maxlen: int) returns (r: int)
      requires Valid() && usrbuf != buf && 0 <= maxlen <= usrbuf.Length && 1 <= usrbuf.Length
      modifies `fd, `cnt, `bufptr, buf, usrbuf
      ensures Valid() && -1 <= r < usrbuf.Length
      ensures r == -1 <==> Fails(old(fd)) && !HasLine(old(Unread()), maxlen - 1)
      ensures r != -1 ==> usrbuf[..r] == FirstLine(old(Unread()), maxlen - 1) && Unread() == old(Unread())[r..]
      ensures r != -1 ==> (Fails(fd) <==> Fails(old(fd)))
      ensures r > 0 || (r == 0 && maxlen <= 1) ==> usrbuf[r] == '\0'
      ensures r == 0 && maxlen > 1 ==> usrbuf[..] == old(usrbuf[..])
      ensures r >= 0 ==> forall k :: r < k < usrbuf.Length ==> usrbuf[k] == old(usrbuf[k])
    {
      var status, bufp := StoreLine(usrbuf, maxlen);
      if status <= 0 {
        return status;
      }
      ghost var line := usrbuf[..bufp];
      usrbuf[bufp] := '\0';
      assert usrbuf[..bufp] == line;
      return bufp;
    }

    /** rio_read(rp, &c, 1) */
    method ReadChar() returns (rc: int, c: char)
      requires Valid()
      modifies `fd, `cnt, `bufptr, buf
      ensures Valid() && -1 <= rc <= 1
      ensures rc == 1 ==> |old(Unread())| > 0 && c == old(Unread())[0] && Unread() == old(Unread())[1..]
      ensures rc == 0 ==> old(Unread()) == [] && Unread() == [] && !Fails(old(fd))
      ensures rc == -1 ==> old(Unread()) == [] && Fails(old(fd))
      ensures rc >= 0 ==> (Fails(fd) <==> Fails(old(fd)))
    {
      var cell := new char[1];
      rc := RioRead(cell, 0, 1);
      c := cell[0];
      if rc == 1 {
        assert cell[0..1][0] == cell[0];
      }
    }

    /** One byte read and stored behind the `bufp` bytes stored already. */
    method TakeChar(usrbuf: array<char>, bufp: int, ghost all: seq<char>) returns (rc: int, c: char)
      requires Valid() && usrbuf != buf && 0 <= bufp < usrbuf.Length && Delivered(usrbuf, bufp, all)
      modifies `fd, `cnt, `bufptr, buf, usrbuf
      ensures Valid() && -1 <= rc <= 1
      ensures rc == 1 ==> bufp < |all| && c == all[bufp] && Delivered(usrbuf, bufp + 1, all)
      ensures forall k :: (if rc == 1 then bufp + 1 else bufp) <= k < usrbuf.Length ==> usrbuf[k] == old(usrbuf[k])
      ensures rc < 1 ==> bufp == |all| && usrbuf[..] == old(usrbuf[..]) && (rc == -1 <==> Fails(old(fd)))
      ensures rc == 0 ==> Unread() == []
      ensures rc >= 0 ==> (Fails(fd) <==> Fails(old(fd)))
    {
      ghost var before := usrbuf[..];
      rc, c := ReadChar();
      if rc == 1 {
        assert all[bufp..][1..] == all[bufp + 1..];
        assert usrbuf[..bufp] == before[..bufp];
        StoreChar(usrbuf, bufp, c, all);
      }
    }

    /** *bufp = c */
    method StoreChar(usrbuf: array<char>, bufp: int, c: char, ghost all: seq<char>)
      requires 0 <= bufp < usrbuf.Length && bufp < |all| && usrbuf[..bufp] == all[..bufp] && c == all[bufp]
      modifies usrbuf
      ensures usrbuf[..bufp + 1] == all[..bufp + 1]
      ensures forall k :: bufp < k < usrbuf.Length ==> usrbuf[k] == old(usrbuf[k])
    {
      usrbuf[bufp] := c;
      assert usrbuf[..bufp + 1] == usrbuf[..bufp] + [c];
    }
  }

  // Any mix of calls.

  datatype Request = Bytes(n: int) | TextLine(maxlen: int)

  predicate Fits(request: Request, length: int) {
    0 <= match request { case Bytes(n) => n case TextLine(maxlen) => maxlen } <= length
  }

  method ServeOne(rp: RioBuf, usrbuf: array<char>, request: Request) returns (out: seq<char>)
    requires rp.Valid() && usrbuf != rp.buf && usrbuf.Length >= 1 && !Fails(rp.fd) && Fits(request, usrbuf.Length)
    modifies rp`fd, rp`cnt, rp`bufptr, rp.buf, usrbuf
    ensures rp.Valid() && !Fails(rp.fd) && out + rp.Unread() == old(rp.Unread())
  {
    ghost var before := rp.Unread();
    var r;
    match request {
      case Bytes(n) => r := rp.RioReadnb(usrbuf, n);
      case TextLine(maxlen) => r := rp.RioReadlineb(usrbuf, maxlen);
    }
    out := usrbuf[..r];
    assert out == before[..r];
  }

  /** Serves any sequence of reads from one buffer. Over a descriptor that does not fail, the bytes
      delivered followed by the bytes unread are the bytes that were to come: none is lost,
      repeated or reordered, however the descriptor cuts them up and whenever it is interrupted. */
  method Serve(rp: RioBuf, usrbuf: array<char>, requests: seq<Request>) returns (delivered: seq<char>)
    requires rp.Valid() && usrbuf != rp.buf && usrbuf.Length >= 1 && !Fails(rp.fd)
    requires forall k :: 0 <= k < |requests| ==> Fits(requests[k], usrbuf.Length)
    modifies rp`fd, rp`cnt, rp`bufptr, rp.buf, usrbuf
    ensures rp.Valid() && !Fails(rp.fd)
    ensures delivered + rp.Unread() == old(rp.Unread())
  {
    delivered := [];
    for k := 0 to |requests|
      invariant rp.Valid() && !Fails(rp.fd) && delivered + rp.Unread() == old(rp.Unread())
    {
      ghost var before := rp.Unread();
      var out := ServeOne(rp, usrbuf, requests[k]);
      Regroup(delivered, out, rp.Unread());
      delivered := delivered + out;
    }
  }
}
