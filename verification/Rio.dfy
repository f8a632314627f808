/** Buffered reading that does not depend on how the stream arrives (proxylab/csapp.c), and
    the forwarding loop of the proxy built on it (proxylab/proxy.c). */
module Rio {
  import opened WebCacheModel

  const RIO_BUFSIZE: nat := 8192
  const NEWLINE: Byte := 10

  /** What one read() does: deliver up to so many bytes, be interrupted, or fail. */
  datatype Arrival = Chunk(n: nat) | Interrupted | Failed

  /** The next read into a buffer of `room` bytes. */
  function Next(plan: seq<Arrival>, room: nat): Arrival {
    if plan == [] then Chunk(room) else plan[0]
  }

  /** How many bytes a chunk delivers: at least one, unless the end of file is reached. */
  function Delivered(n: nat, rest: nat, room: nat): nat {
    var most := if n < 1 then 1 else if n > room then room else n;
    if rest < most then rest else most
  }

  // ---- When will a read fail? ----

  /** A reader as far as its failures go: bytes in its buffer, bytes yet to come, and how the
      reads will go. */
  datatype Stream = Stream(buffered: nat, rest: nat, plan: seq<Arrival>)

  function Less(want: nat, got: nat): nat {
    if want < got then 0 else want - got
  }

  /** Whether a read fails before `want` more bytes have come in, or the end of file has been
      seen `eofs` times. */
  predicate FailsAt(rest: nat, plan: seq<Arrival>, want: nat, eofs: nat)
    decreases |plan|
  {
    want > 0 && eofs > 0 && plan != []
    && match plan[0]
       case Failed => true
       case Interrupted => FailsAt(rest, plan[1..], want, eofs)
       case Chunk(n) =>
         if rest == 0 then FailsAt(0, plan[1..], want, eofs - 1)
         else
           var d := Delivered(n, rest, RIO_BUFSIZE);
           FailsAt(rest - d, plan[1..], Less(want, d), eofs)
  }

  /** The same of `want` bytes taken from the reader, the buffered ones first. */
  predicate Fails(s: Stream, want: nat, eofs: nat) {
    FailsAt(s.rest, s.plan, Less(want, s.buffered), eofs)
  }

  /** The same, of all that may be asked for. */
  function Fate(s: Stream): (nat, nat) -> bool {
    (want: nat, eofs: nat) => Fails(s, want, eofs)
  }

  /** From `s` to `s'` that many bytes have been taken and ends of file seen, and whatever is
      asked for next fails now exactly if it would have failed then. */
  ghost predicate Goes(s: Stream, s': Stream, taken: nat, eofs: nat) {
    forall w: nat, e: nat {:trigger Fate(s')(Less(w, taken), e)} ::
      Fails(s, w, e + eofs) == Fate(s')(Less(w, taken), e)
  }

  lemma GoesAt(s: Stream, s': Stream, taken: nat, eofs: nat, w: nat, e: nat)
    requires Goes(s, s', taken, eofs)
    ensures Fails(s, w, e + eofs) == Fails(s', Less(w, taken), e)
  {
    assert Fate(s')(Less(w, taken), e) == Fails(s', Less(w, taken), e);
  }

  lemma GoesOn(s: Stream, s': Stream, s'': Stream, t: nat, e: nat, t': nat, e': nat)
    requires Goes(s, s', t, e) && Goes(s', s'', t', e')
    ensures Goes(s, s'', t + t', e + e')
  {
    forall w: nat, k: nat {:trigger Fate(s'')(Less(w, t + t'), k)}
      ensures Fails(s, w, k + (e + e')) == Fate(s'')(Less(w, t + t'), k)
    {
      GoesAt(s, s', t, e, w, k + e');
      GoesAt(s', s'', t', e', Less(w, t), k);
      assert Less(Less(w, t), t') == Less(w, t + t');
    }
  }

  /** Whatever is asked for, a read fails before anything comes in. */
  ghost predicate Doomed(s: Stream) {
    forall w: nat, e: nat :: w > 0 && e > 0 ==> Fate(s)(w, e)
  }

  lemma DoomedFails(s: Stream, w: nat, e: nat)
    requires Doomed(s) && w > 0 && e > 0
    ensures Fails(s, w, e)
  {
    assert Fate(s)(w, e) == Fails(s, w, e);
  }

  lemma DoomedBefore(s: Stream, s': Stream)
    requires Goes(s, s', 0, 0) && Doomed(s')
    ensures Doomed(s)
  {
    forall w: nat, e: nat | w > 0 && e > 0 ensures Fate(s)(w, e) {
      GoesAt(s, s', 0, 0, w, e);
      DoomedFails(s', w, e);
    }
  }

  /** One read into an empty buffer. */
  lemma OneReadGoes(s: Stream, s': Stream)
    requires s.buffered == 0 && s'.plan == if s.plan == [] then [] else s.plan[1..]
    ensures Next(s.plan, RIO_BUFSIZE).Failed? ==> Doomed(s)
    ensures Next(s.plan, RIO_BUFSIZE).Interrupted? && s'.buffered == 0 && s'.rest == s.rest ==> Goes(s, s', 0, 0)
    ensures Next(s.plan, RIO_BUFSIZE).Chunk? ==>
              var d := Delivered(Next(s.plan, RIO_BUFSIZE).n, s.rest, RIO_BUFSIZE);
              s'.buffered == d && s'.rest == s.rest - d ==> Goes(s, s', 0, if d == 0 then 1 else 0)
  {
  }

  /** Taking buffered bytes. */
  lemma TakingGoes(s: Stream, s': Stream, taken: nat)
    requires s.buffered == s'.buffered + taken && s'.rest == s.rest && s'.plan == s.plan
    ensures Goes(s, s', taken, 0)
  {
  }

  /** A stream whose reads do not fail. */
  lemma {:induction false} ReliableNeverFails(rest: nat, plan: seq<Arrival>, want: nat, eofs: nat)
    requires Failed !in plan
    ensures !FailsAt(rest, plan, want, eofs)
    decreases |plan|
  {
    if want > 0 && eofs > 0 && plan != [] {
      match plan[0]
      case Failed =>
      case Interrupted => ReliableNeverFails(rest, plan[1..], want, eofs);
      case Chunk(n) =>
        var d := Delivered(n, rest, RIO_BUFSIZE);
        ReliableNeverFails(rest - d, plan[1..], Less(want, d), if rest == 0 then eofs - 1 else eofs);
    }
  }

  /** Who asks for more, fails if who asks for less does; and all who ask for more than there
      is fare alike. */
  lemma {:induction false} AskingMore(rest: nat, plan: seq<Arrival>, want: nat, want': nat, eofs: nat, eofs': nat)
    requires want <= want' || rest < want'
    requires eofs <= eofs' && FailsAt(rest, plan, want, eofs)
    ensures FailsAt(rest, plan, want', eofs')
    decreases |plan|
  {
    match plan[0]
    case Failed =>
    case Interrupted => AskingMore(rest, plan[1..], want, want', eofs, eofs');
    case Chunk(n) =>
      var d := Delivered(n, rest, RIO_BUFSIZE);
      if rest == 0 {
        AskingMore(0, plan[1..], want, want', eofs - 1, eofs' - 1);
      } else {
        AskingMore(rest - d, plan[1..], Less(want, d), Less(want', d), eofs, eofs');
      }
  }

  // ---- The code ----

  /** A descriptor: the bytes it has yet to deliver, and how its next reads will go. Once the
      plan is used up, reads deliver all they can. */
  class Source {
    var rest: seq<Byte>
    var plan: seq<Arrival>

    constructor (bytes: seq<Byte>, plan: seq<Arrival>)
      ensures rest == bytes && this.plan == plan
    {
      rest, this.plan := bytes, plan;
    }

    /** read(): a positive count, 0 at end of file, or -1; `eintr` tells the two errors apart. */
    method Read(buf: array<Byte>) returns (count: int, eintr: bool)
      requires buf.Length > 0
      modifies this, buf
      ensures -1 <= count <= buf.Length
      ensures match Next(old(plan), buf.Length)
              case Interrupted => count == -1 && eintr && rest == old(rest)
              case Failed => count == -1 && !eintr && rest == old(rest)
              case Chunk(n) => count == Delivered(n, |old(rest)|, buf.Length)
      ensures count >= 0 ==> buf[..count] == old(rest)[..count] && rest == old(rest)[count..]
      ensures plan == if old(plan) == [] then [] else old(plan)[1..]
    {
      var a := Next(plan, buf.Length);
      plan := if plan == [] then [] else plan[1..];
      match a {
        case Interrupted => return -1, true;
        case Failed => return -1, false;
        case Chunk(n) =>
          eintr := false;
          count := Delivered(n, |rest|, buf.Length);
          forall i | 0 <= i < count {
            buf[i] := rest[i];
          }
          rest := rest[count..];
      }
    }
  }

  /** How the loop over the bytes of a line ends: with a line, with the end of file before
      the first byte, or with a failed read. */
  datatype LineEnd = Complete | Nothing | Broken

  class Reader {
    const src: Source
    const buf: array<Byte>
    var cnt: int
    var ptr: nat

    predicate Valid()
      reads this
    {
      buf.Length == RIO_BUFSIZE && (cnt > 0 ==> ptr + cnt <= RIO_BUFSIZE)
    }

    /** All that is still to be delivered: the buffered bytes, then the source. */
    ghost function Pending(): seq<Byte>
      requires Valid()
      reads this, buf, src
    {
      (if cnt > 0 then buf[ptr..ptr + cnt] else []) + src.rest
    }

    /** No read will fail. */
    predicate Reliable()
      reads this, src
    {
      Failed !in src.plan
    }

    ghost function Now(): Stream
      reads this, src
    {
      Stream(if cnt > 0 then cnt else 0, |src.rest|, src.plan)
    }

    constructor (src: Source)
      ensures Valid() && Pending() == src.rest && fresh(buf) && this.src == src
      ensures Now() == Stream(0, |src.rest|, src.plan)
    {
      this.src := src;
      buf := new Byte[RIO_BUFSIZE];
      cnt, ptr := 0, 0;
    }

    /** Refills an empty buffer, however often the read is interrupted: 1 when there is
        something buffered, 0 at end of file, -1 on an error. */
    method Refill() returns (r: int)
      requires Valid()
      modifies this, buf, src
      ensures Valid() && Pending() == old(Pending()) && -1 <= r <= 1
      ensures r == 1 ==> cnt > 0
      ensures r == 0 ==> Pending() == []
      ensures if r == -1 then Doomed(old(Now())) else Goes(old(Now()), Now(), 0, 1 - r)
      ensures old(Reliable()) ==> Reliable() && r != -1
    {
      ghost var pending, start := Pending(), Now();
      while cnt <= 0
        invariant Valid() && Pending() == pending && Goes(start, Now(), 0, 0)
        invariant old(Reliable()) ==> Reliable()
        decreases |src.plan|, if cnt <= 0 then 1 else 0
      {
        ghost var now := Now();
        var eintr := ReadOnce();
        if cnt < 0 {
          if !eintr {
            DoomedBefore(start, now);
            return -1;
          }
        } else if cnt == 0 {
          GoesOn(start, now, Now(), 0, 0, 0, 1);
          return 0;
        } else {
          ptr := 0;
        }
        GoesOn(start, now, Now(), 0, 0, 0, 0);
      }
      r := 1;
    }

    /** One read into the empty buffer; what was pending is in the buffer now, or still in
        the source. */
    method ReadOnce() returns (eintr: bool)
      requires Valid() && cnt <= 0
      modifies this`cnt, buf, src
      ensures -1 <= cnt <= RIO_BUFSIZE && buf.Length == RIO_BUFSIZE
      ensures old(Pending()) == (if cnt > 0 then buf[..cnt] else []) + src.rest
      ensures cnt == 0 ==> src.rest == []
      ensures if cnt == -1 && !eintr then Doomed(old(Now())) else Goes(old(Now()), Now(), 0, if cnt == 0 then 1 else 0)
      ensures old(Reliable()) ==> Reliable() && (cnt == -1 ==> eintr)
      ensures src.plan == if old(src.plan) == [] then [] else old(src.plan)[1..]
      ensures old(src.plan) == [] ==> cnt >= 0
    {
      ghost var rest, start := src.rest, Now();
      cnt, eintr := src.Read(buf);
      OneReadGoes(start, Now());
      if cnt > 0 { assert rest == rest[..cnt] + rest[cnt..]; }
    }

    /** Hands over buffered bytes. */
    method Transfer(usrbuf: array<Byte>, off: nat, take: nat)
      requires Valid() && 0 <= cnt && take <= cnt && off + take <= usrbuf.Length && usrbuf != buf
      modifies this, usrbuf
      ensures Valid() && take <= |old(Pending())| && Pending() == old(Pending())[take..]
      ensures usrbuf[..off] == old(usrbuf[..off]) && usrbuf[off + take..] == old(usrbuf[off + take..])
      ensures usrbuf[off..off + take] == old(Pending())[..take]
      ensures Goes(old(Now()), Now(), take, 0)
    {
      ghost var b, pending, start := buf[..], Pending(), Now();
      if take == 0 {
        return;
      }
      SplitSlice(b, ptr, cnt, take, src.rest);
      assert pending == b[ptr..ptr + cnt] + src.rest;
      forall i | 0 <= i < take {
        usrbuf[off + i] := buf[ptr + i];
      }
      assert buf[..] == b;
      ptr := ptr + take;
      cnt := cnt - take;
      TakingGoes(start, Now(), take);
    }

    /** Transfers what is buffered, up to n bytes, refilling an empty buffer first. */
    method ReadSome(usrbuf: array<Byte>, off: nat, n: nat) returns (r: int)
      requires Valid() && off + n <= usrbuf.Length && usrbuf != buf
      modifies this, buf, src, usrbuf
      ensures Valid() && -1 <= r <= n
      ensures r == -1 ==> Pending() == old(Pending()) && usrbuf[..] == old(usrbuf[..])
      ensures if r == -1 then Doomed(old(Now()))
              else Goes(old(Now()), Now(), r, if old(Pending()) == [] then 1 else 0)
      ensures r == -1 <==> Fails(old(Now()), 1, 1)
      ensures r >= 0 ==> r <= |old(Pending())| && Pending() == old(Pending())[r..]
      ensures r >= 0 ==> usrbuf[off..off + r] == old(Pending())[..r]
      ensures usrbuf[..off] == old(usrbuf[..off]) && (r >= 0 ==> usrbuf[off + r..] == old(usrbuf[off + r..]))
      ensures r == 0 <==> r != -1 && (n == 0 || old(Pending()) == [])
      ensures old(Reliable()) ==> Reliable() && r != -1
    {
      ghost var start := Now();
      r := Refill();
      if r < 1 {
        if r == 0 { GoesAt(start, Now(), 0, 1, 1, 0); } else { DoomedFails(start, 1, 1); }
        return;
      }
      ghost var filled := Now();
      GoesAt(start, filled, 0, 0, 1, 1);
      var take := if cnt < n then cnt else n;
      Transfer(usrbuf, off, take);
      GoesOn(start, filled, Now(), 0, 0, take, 0);
      r := take;
    }

    /** Robustly reads n bytes: all of them, or everything up to the end of file, however the
        source splits the stream. */
    method ReadN(usrbuf: array<Byte>, n: nat) returns (r: int)
      requires Valid() && n <= usrbuf.Length && usrbuf != buf
      modifies this, buf, src, usrbuf
      ensures Valid() && (r == -1 <==> Fails(old(Now()), n, 1)) && (old(Reliable()) ==> Reliable() && r != -1)
      ensures r != -1 ==> r == if n <= |old(Pending())| then n else |old(Pending())|
      ensures r != -1 ==> Goes(old(Now()), Now(), r, if r < n then 1 else 0)
      ensures r != -1 ==> usrbuf[..r] == old(Pending())[..r] && Pending() == old(Pending())[r..]
      ensures r != -1 ==> usrbuf[r..] == old(usrbuf[r..])
    {
      ghost var pending, start, before := Pending(), Now(), usrbuf[..];
      ghost var copy, left := before, pending;
      var got := 0;
      while got < n
        invariant 0 <= got <= n && Valid() && copy == usrbuf[..] && left == Pending()
        invariant Filled(copy, before, pending, left, got)
        invariant Goes(start, Now(), got, 0)
        invariant old(Reliable()) ==> Reliable()
        decreases n - got
      {
        var nread := ReadMore(usrbuf, got, n, start, before, pending);
        copy, left := usrbuf[..], Pending();
        if nread < 0 {
          return -1;
        }
        if nread == 0 {
          return got;
        }
        got := got + nread;
      }
      NeedMet(start, Now(), n, n, 0);
      r := n;
    }

    /** Reads more of the n bytes, behind those already there: -1 if that is a failure. */
    method ReadMore(usrbuf: array<Byte>, got: nat, n: nat, ghost start: Stream, ghost before: seq<Byte>,
                    ghost stream: seq<Byte>)
      returns (nread: int)
      requires Valid() && got < n <= usrbuf.Length && usrbuf != buf
      requires Filled(usrbuf[..], before, stream, Pending(), got) && Goes(start, Now(), got, 0)
      modifies this, buf, src, usrbuf
      ensures Valid() && -1 <= nread <= n - got && (old(Reliable()) ==> Reliable() && nread != -1)
      ensures nread == -1 ==> Fails(start, n, 1)
      ensures nread == 0 ==> Pending() == [] && got == |stream| && !Fails(start, n, 1)
      ensures nread >= 0 ==>
                && Filled(usrbuf[..], before, stream, Pending(), got + nread)
                && Goes(start, Now(), got + nread, if nread == 0 then 1 else 0)
    {
      ghost var now, copy, left := Now(), usrbuf[..], Pending();
      nread := ReadSome(usrbuf, got, n - got);
      if nread < 0 {
        NeedFails(start, now, got, n);
        return;
      }
      GoesOn(start, now, Now(), got, 0, nread, if nread == 0 then 1 else 0);
      FilledMore(copy, usrbuf[..], before, stream, left, Pending(), got, nread);
      if nread == 0 { NeedMet(start, Now(), got, n, 1); }
    }

    /** One byte: 1 and the byte, 0 at end of file, -1 on an error. */
    method ReadByte() returns (rc: int, c: Byte)
      requires Valid()
      modifies this, buf, src
      ensures Valid() && -1 <= rc <= 1 && (rc == -1 <==> Fails(old(Now()), 1, 1))
      ensures if rc == -1 then Doomed(old(Now())) else Goes(old(Now()), Now(), rc, 1 - rc)
      ensures old(Reliable()) ==> Reliable() && rc != -1
      ensures rc == 1 ==> old(Pending()) != [] && c == old(Pending())[0] && Pending() == old(Pending())[1..]
      ensures rc == 0 ==> old(Pending()) == [] == Pending()
    {
      var one := new Byte[1];
      rc := ReadSome(one, 0, 1);
      c := one[0];
      if rc == 1 {
        assert one[0..1][0] == c;
      }
    }

    /** Robustly reads a line: the shortest prefix that ends in a newline, cut at maxlen - 1
        bytes, or all there is; then a NUL unless the source was already empty. With a maxlen
        of 0 the code still stores the NUL. */
    method ReadLine(usrbuf: array<Byte>, maxlen: nat) returns (r: int)
      requires Valid() && maxlen <= usrbuf.Length && 1 <= usrbuf.Length && usrbuf != buf
      modifies this, buf, src, usrbuf
      ensures Valid() && (old(Reliable()) ==> Reliable() && r != -1)
      ensures r == -1 <==> Fails(old(Now()), Wanted(old(Pending()), Cap(maxlen)), 1)
      ensures r != -1 ==> r == LineLength(old(Pending()), Cap(maxlen))
      ensures r != -1 ==> usrbuf[..r] == old(Pending())[..r] && Pending() == old(Pending())[r..]
      ensures r > 0 || (r == 0 && maxlen <= 1) ==> usrbuf[r] == 0
    {
      var n, end := FillLine(usrbuf, maxlen);
      if end == Broken {
        return -1;
      }
      if end == Nothing {
        return 0;
      }
      Store(usrbuf, n, 0);
      r := n;
    }

    /** The loop of that: the bytes of the line, and why it ended. */
    method FillLine(usrbuf: array<Byte>, maxlen: nat) returns (count: nat, end: LineEnd)
      requires Valid() && maxlen <= usrbuf.Length && 1 <= usrbuf.Length && usrbuf != buf
      modifies this, buf, src, usrbuf
      ensures Valid() && (end == Broken <==> Fails(old(Now()), Wanted(old(Pending()), Cap(maxlen)), 1))
      ensures old(Reliable()) ==> Reliable() && end != Broken
      ensures end != Broken ==> count == LineLength(old(Pending()), Cap(maxlen)) && count < usrbuf.Length
      ensures end != Broken ==> usrbuf[..count] == old(Pending())[..count] && Pending() == old(Pending())[count..]
      ensures end == Nothing ==> count == 0 && maxlen > 1
    {
      ghost var pending, got, start := Pending(), [], Now();
      end := Complete;
      var n := 1;
      while n < maxlen
        invariant 1 <= n <= Cap(maxlen) + 1 && |got| == n - 1 && usrbuf[..n - 1] == got
        invariant Valid() && InLine(start, Now(), pending, Pending(), got, Cap(maxlen))
        invariant old(Reliable()) ==> Reliable()
      {
        var rc, c := LineByte(usrbuf, n - 1, start, pending, got, Cap(maxlen));
        if rc == 1 {
          got := got + [c];
          n := n + 1;
          if c == NEWLINE {
            TakenFront(start, pending, Pending(), got, Cap(maxlen));
            return n - 1, Complete;
          }
        } else if rc == 0 {
          TakenFront(start, pending, Pending(), got, Cap(maxlen));
          return n - 1, if n == 1 then Nothing else Complete;
        } else {
          return n - 1, Broken;
        }
      }
      LineFull(start, Now(), pending, Pending(), got, Cap(maxlen));
      TakenFront(start, pending, Pending(), got, Cap(maxlen));
      count := n - 1;
    }

    /** The next byte of a line, stored behind the others. */
    method LineByte(usrbuf: array<Byte>, i: nat, ghost start: Stream, ghost stream: seq<Byte>, ghost got: seq<Byte>,
                    ghost cap: nat)
      returns (rc: int, c: Byte)
      requires Valid() && usrbuf != buf && |got| == i < cap && i < usrbuf.Length && usrbuf[..i] == got
      requires InLine(start, Now(), stream, Pending(), got, cap)
      modifies this, buf, src, usrbuf
      ensures Valid() && -1 <= rc <= 1 && (old(Reliable()) ==> Reliable() && rc != -1)
      ensures rc == -1 ==> Fails(start, Wanted(stream, cap), 1)
      ensures rc == 0 ==> usrbuf[..i] == got && LineTaken(start, stream, Pending(), got, cap)
      ensures rc == 1 ==> usrbuf[..i + 1] == got + [c]
      ensures rc == 1 ==> if c == NEWLINE then LineTaken(start, stream, Pending(), got + [c], cap)
                          else InLine(start, Now(), stream, Pending(), got + [c], cap)
    {
      ghost var now, left := Now(), Pending();
      rc, c := TakeByte(usrbuf, i);
      if rc == -1 {
        LineFails(start, now, stream, left, got, cap);
      } else {
        LineGoesOn(start, now, Now(), stream, left, Pending(), got, cap, rc, c);
      }
    }

    /** One byte, stored at `i` when there is one. */
    method TakeByte(usrbuf: array<Byte>, i: nat) returns (rc: int, c: Byte)
      requires Valid() && usrbuf != buf && i < usrbuf.Length
      modifies this, buf, src, usrbuf
      ensures Valid() && -1 <= rc <= 1 && (rc == -1 <==> Fails(old(Now()), 1, 1))
      ensures if rc == -1 then Doomed(old(Now())) else Goes(old(Now()), Now(), rc, 1 - rc)
      ensures old(Reliable()) ==> Reliable() && rc != -1
      ensures rc == 1 ==> old(Pending()) != [] && c == old(Pending())[0] && Pending() == old(Pending())[1..]
      ensures rc == 1 ==> usrbuf[..i + 1] == old(usrbuf[..i]) + [c]
      ensures rc == 0 ==> old(Pending()) == [] == Pending()
      ensures rc != 1 ==> usrbuf[..] == old(usrbuf[..])
    {
      rc, c := ReadByte();
      if rc == 1 {
        Store(usrbuf, i, c);
      }
    }

    /** Stores a byte in the caller's buffer, away from the reader's own. */
    method Store(usrbuf: array<Byte>, i: nat, c: Byte)
      requires Valid() && usrbuf != buf && i < usrbuf.Length
      modifies usrbuf
      ensures usrbuf[i] == c && usrbuf[..i] == old(usrbuf[..i]) && usrbuf[..i + 1] == old(usrbuf[..i]) + [c]
      ensures Pending() == old(Pending()) && Now() == old(Now())
    {
      usrbuf[i] := c;
    }
  }

  /** Taking bytes from the front of a slice with more bytes behind it. */
  lemma SplitSlice(b: seq<Byte>, ptr: nat, cnt: nat, take: nat, rest: seq<Byte>)
    requires ptr + cnt <= |b| && take <= cnt
    ensures (b[ptr..ptr + cnt] + rest)[..take] == b[ptr..ptr + take]
    ensures (b[ptr..ptr + cnt] + rest)[take..] == b[ptr + take..ptr + cnt] + rest
  {
  }

  /** The first `got` bytes of a stream have been copied over what was there before, and the
      others are left. */
  predicate Filled(copy: seq<Byte>, before: seq<Byte>, stream: seq<Byte>, left: seq<Byte>, got: nat) {
    && |copy| == |before| && got <= |copy| && got <= |stream|
    && left == stream[got..] && copy[..got] == stream[..got] && copy[got..] == before[got..]
  }

  lemma FilledMore(copy: seq<Byte>, copy': seq<Byte>, before: seq<Byte>, stream: seq<Byte>, left: seq<Byte>,
                   left': seq<Byte>, got: nat, more: nat)
    requires Filled(copy, before, stream, left, got) && |copy'| == |copy| && more <= |left| && got + more <= |copy|
    requires copy'[..got] == copy[..got] && copy'[got + more..] == copy[got + more..]
    requires copy'[got..got + more] == left[..more] && left' == left[more..]
    ensures Filled(copy', before, stream, left', got + more)
  {
    assert copy'[..got + more] == copy'[..got] + copy'[got..got + more];
    assert stream[..got + more] == stream[..got] + left[..more];
    assert copy[got + more..] == copy[got..][more..];
  }

  lemma NeedFails(start: Stream, s: Stream, got: nat, n: nat)
    requires Goes(start, s, got, 0) && Doomed(s) && got < n
    ensures Fails(start, n, 1)
  {
    DoomedFails(s, n - got, 1);
    GoesAt(start, s, got, 0, n, 1);
  }

  lemma NeedMet(start: Stream, s: Stream, got: nat, n: nat, ended: nat)
    requires Goes(start, s, got, ended) && got <= n && ended <= 1 && (got < n ==> ended == 1)
    ensures !Fails(start, n, 1)
  {
    GoesAt(start, s, got, ended, n, 1 - ended);
  }

  /** The bytes of a line that fit a buffer of that size beside the NUL. */
  function Cap(maxlen: nat): nat { if maxlen == 0 then 0 else maxlen - 1 }

  /** Length of the line at the front of `p`, at most `cap`. */
  function LineLength(p: seq<Byte>, cap: nat): (n: nat)
    ensures n <= |p| && n <= cap
  {
    if p == [] || cap == 0 then 0 else if p[0] == NEWLINE then 1 else 1 + LineLength(p[1..], cap - 1)
  }

  /** It is the shortest prefix that ends in a newline, if there is one within the cap, and
      otherwise as much as the cap and the stream allow. */
  lemma {:induction false} LineLengthIs(p: seq<Byte>, cap: nat)
    ensures var n := LineLength(p, cap);
            && (forall i :: 0 <= i < n - 1 ==> p[i] != 10)
            && (n < |p| && n < cap ==> n > 0 && p[n - 1] == 10)
  {
    if p != [] && cap > 0 && p[0] != NEWLINE {
      LineLengthIs(p[1..], cap - 1);
    }
  }

  /** How many bytes reading a line asks for: those of the line, and one more when the stream
      ends before the line does. */
  function Wanted(p: seq<Byte>, cap: nat): nat {
    if cap == 0 then 0 else if p == [] || p[0] == NEWLINE then 1 else 1 + Wanted(p[1..], cap - 1)
  }

  /** In the middle of a line: `got` of it is taken, and `left` are the bytes behind that. */
  ghost predicate InLine(start: Stream, s: Stream, stream: seq<Byte>, left: seq<Byte>, got: seq<Byte>, cap: nat) {
    && stream == got + left && |got| <= cap
    && LineLength(stream, cap) == |got| + LineLength(left, cap - |got|)
    && Fails(start, Wanted(stream, cap), 1) == Fails(s, Wanted(left, cap - |got|), 1)
  }

  /** All of the line is taken, and no read has failed. */
  ghost predicate LineTaken(start: Stream, stream: seq<Byte>, left: seq<Byte>, got: seq<Byte>, cap: nat) {
    stream == got + left && |got| == LineLength(stream, cap) && !Fails(start, Wanted(stream, cap), 1)
  }

  lemma LineFails(start: Stream, s: Stream, stream: seq<Byte>, left: seq<Byte>, got: seq<Byte>, cap: nat)
    requires InLine(start, s, stream, left, got, cap) && |got| < cap && Doomed(s)
    ensures Fails(start, Wanted(stream, cap), 1)
  {
    DoomedFails(s, Wanted(left, cap - |got|), 1);
  }

  lemma LineFull(start: Stream, s: Stream, stream: seq<Byte>, left: seq<Byte>, got: seq<Byte>, cap: nat)
    requires InLine(start, s, stream, left, got, cap) && |got| == cap
    ensures LineTaken(start, stream, left, got, cap)
  {
  }

  lemma TakenFront(start: Stream, stream: seq<Byte>, left: seq<Byte>, got: seq<Byte>, cap: nat)
    requires LineTaken(start, stream, left, got, cap)
    ensures stream[..LineLength(stream, cap)] == got && stream[LineLength(stream, cap)..] == left
  {
  }

  /** The next byte, or the end of file. */
  lemma LineGoesOn(start: Stream, s: Stream, s': Stream, stream: seq<Byte>, left: seq<Byte>, left': seq<Byte>,
                   got: seq<Byte>, cap: nat, rc: nat, c: Byte)
    requires InLine(start, s, stream, left, got, cap) && |got| < cap
    requires rc <= 1 && Goes(s, s', rc, 1 - rc) && !Fails(s, 1, 1)
    requires if rc == 1 then left == [c] + left' else left == [] == left'
    ensures rc == 1 && c != NEWLINE ==> InLine(start, s', stream, left', got + [c], cap)
    ensures rc == 1 && c == NEWLINE ==> LineTaken(start, stream, left', got + [c], cap)
    ensures rc == 0 ==> LineTaken(start, stream, left', got, cap)
  {
    if rc == 1 {
      assert got + left == (got + [c]) + left' && left[1..] == left';
      if c != NEWLINE { GoesAt(s, s', 1, 0, Wanted(left, cap - |got|), 1); }
    }
  }

  /** The connection back to the client: what has been written to it. */
  class Client {
    var sent: seq<Byte>

    constructor () ensures sent == [] { sent := []; }

    method Write(buf: array<Byte>, n: nat)
      requires n <= buf.Length
      modifies this
      ensures sent == old(sent) + buf[..n]
    {
      sent := sent + buf[..n];
    }
  }

  /** After `sent` bytes of the response: the copy holds all of them, or has been given up. */
  predicate CopyOk(sent: seq<Byte>, copy: seq<Byte>, size: nat, leftover: nat) {
    && |copy| == MAX_OBJECT_SIZE
    && (if |sent| <= MAX_OBJECT_SIZE then size == |sent| && leftover == MAX_OBJECT_SIZE - size && copy[..size] == sent
        else size == 0 && leftover == 0)
  }

  /** Copies one more segment for the cache, or gives the copy up when it is already full. */
  method CopySegment(response: array<Byte>, buf: array<Byte>, n: nat, size: nat, leftover: nat, ghost sent: seq<Byte>)
    returns (size': nat, leftover': nat)
    requires response != buf && 0 < n <= buf.Length && CopyOk(sent, response[..], size, leftover)
    requires leftover > 0 ==> n <= leftover
    modifies response
    ensures CopyOk(sent + buf[..n], response[..], size', leftover')
  {
    if leftover > 0 {
      forall i | 0 <= i < n {
        response[size + i] := buf[i];
      }
      size', leftover' := size + n, leftover - n;
      assert response[..size + n] == response[..size] + response[size..size + n];
    } else {
      size', leftover' := 0, 0;
    }
  }

  /** One round of the loop: a segment copied for the cache and written to the client. */
  method ForwardSegment(client: Client, response: array<Byte>, buf: array<Byte>, n: nat, size: nat, leftover: nat,
                        ghost sent: seq<Byte>)
    returns (size': nat, leftover': nat)
    requires response != buf && 0 < n <= buf.Length && CopyOk(sent, response[..], size, leftover)
    requires leftover > 0 ==> n <= leftover
    modifies client, response
    ensures CopyOk(sent + buf[..n], response[..], size', leftover')
    ensures client.sent == old(client.sent) + buf[..n]
  {
    size', leftover' := CopySegment(response, buf, n, size, leftover, sent);
    client.Write(buf, n);
  }

  /** What forwarding a response `r` leaves: all of it sent, and its length and bytes kept if
      it fits MAX_OBJECT_SIZE. */
  predicate Forwarded(r: seq<Byte>, before: seq<Byte>, sent: seq<Byte>, copy: seq<Byte>, size: nat) {
    && sent == before + r
    && size == KeptSize(r)
    && size <= |copy| && copy[..size] == r[..size]
  }

  /** How often forwarding a response of that length sees the end of file: a short segment
      ends at it, and an empty one tells the loop. */
  function EofReads(length: nat): (eofs: nat)
    ensures eofs >= 1
  {
    if length == 0 then 1 else if length < MAX_OBJECT_SIZE then 2 else EofReads(length - MAX_OBJECT_SIZE)
  }

  /** Once for whole segments only, else twice. */
  lemma {:induction false} EofReadsIs(length: nat)
    ensures EofReads(length) == if length % MAX_OBJECT_SIZE == 0 then 1 else 2
  {
    if length >= MAX_OBJECT_SIZE { EofReadsIs(length - MAX_OBJECT_SIZE); }
  }

  /** A read fails before forwarding has seen all of a response of that length and its end. */
  predicate BreaksOff(s: Stream, length: nat) {
    Fails(s, length + 1, EofReads(length))
  }

  /** Forwarding has taken `done` of `total` bytes, and seen the end of file `ended` times. */
  ghost predicate Underway(start: Stream, s: Stream, total: nat, done: nat, ended: nat) {
    && done <= total && s.buffered + s.rest == total - done && Goes(start, s, done, ended)
    && (if ended == 0 then EofReads(total) == EofReads(total - done)
        else ended == 1 && done == total && EofReads(total) == 2)
  }

  lemma SegmentFails(start: Stream, s: Stream, total: nat, done: nat, ended: nat)
    requires Underway(start, s, total, done, ended) && Fails(s, MAX_OBJECT_SIZE, 1)
    ensures BreaksOff(start, total)
  {
    var left, eofs := total + 1 - done, EofReads(total) - ended;
    AskingMore(s.rest, s.plan, Less(MAX_OBJECT_SIZE, s.buffered), Less(left, s.buffered), 1, eofs);
    GoesAt(start, s, done, ended, total + 1, eofs);
  }

  /** The next segment goes on, or it is empty and all is over. */
  lemma SegmentGoes(start: Stream, s: Stream, s': Stream, total: nat, done: nat, ended: nat, n: nat)
    requires Underway(start, s, total, done, ended)
    requires n == if total - done < MAX_OBJECT_SIZE then total - done else MAX_OBJECT_SIZE
    requires Goes(s, s', n, if n < MAX_OBJECT_SIZE then 1 else 0)
    requires s'.buffered + s'.rest == total - done - n
    ensures n == 0 ==> !BreaksOff(start, total)
    ensures n > 0 ==> Underway(start, s', total, done + n, if n < MAX_OBJECT_SIZE then 1 else 0)
  {
    var k := if n < MAX_OBJECT_SIZE then 1 else 0;
    GoesOn(start, s, s', done, ended, n, k);
    if n == 0 { GoesAt(start, s', total, ended + 1, total + 1, 0); }
  }

  /** What a segment of n bytes, or the error result, says of the whole. */
  ghost predicate Stands(start: Stream, s: Stream, total: nat, done: nat, n: int) {
    && (n == -1 ==> BreaksOff(start, total))
    && (n == 0 ==> !BreaksOff(start, total))
    && (n > 0 ==> Underway(start, s, total, done + n, if n < MAX_OBJECT_SIZE then 1 else 0))
  }

  /** Reads the next segment of the response: `buf` and what is pending are what was pending;
      or the error result. */
  method NextSegment(server: Reader, buf: array<Byte>, ghost start: Stream, ghost total: nat, ghost done: nat,
                     ghost ended: nat)
    returns (n: int)
    requires server.Valid() && buf.Length == MAX_OBJECT_SIZE && buf != server.buf
    requires Underway(start, server.Now(), total, done, ended)
    modifies server, server.buf, server.src, buf
    ensures server.Valid() && -1 <= n <= MAX_OBJECT_SIZE
    ensures Stands(start, server.Now(), total, done, n)
    ensures n != -1 ==> old(server.Pending()) == buf[..n] + server.Pending()
    ensures n != -1 && n < MAX_OBJECT_SIZE ==> server.Pending() == []
  {
    ghost var pending, s := server.Pending(), server.Now();
    n := server.ReadN(buf, MAX_OBJECT_SIZE);
    if n == -1 {
      SegmentFails(start, s, total, done, ended);
    } else {
      SegmentGoes(start, s, server.Now(), total, done, ended, n);
      assert pending == pending[..n] + pending[n..];
    }
  }

  /** Forwards a response, whatever its length, and keeps a copy for the cache. The code puts
      the result of the read into an unsigned variable, so that an error result asks for a
      copy of more bytes than there are: `crashed`, exactly when a read fails before the end. */
  method SendResponseToClient(client: Client, server: Reader, response: array<Byte>) returns (crashed: bool, size: nat)
    requires server.Valid() && response.Length == MAX_OBJECT_SIZE && response != server.buf
    modifies client, server, server.buf, server.src, response
    ensures crashed <==> BreaksOff(old(server.Now()), |old(server.Pending())|)
    ensures crashed ==> !old(server.Reliable())
    ensures !crashed ==> Forwarded(old(server.Pending()), old(client.sent), client.sent, response[..], size)
    ensures crashed ==> old(client.sent) <= client.sent <= old(client.sent) + old(server.Pending())
  {
    var buf := new Byte[MAX_OBJECT_SIZE];
    var leftover := MAX_OBJECT_SIZE;
    crashed, size := false, 0;
    ghost var r, sent, before, start := server.Pending(), [], client.sent, server.Now();
    var n := NextSegment(server, buf, start, |r|, 0, 0);
    NextSplit(r, sent, r, Segment(buf[..], n), server.Pending(), n);
    while n != 0
      invariant server.Valid() && client.sent == before + sent
      invariant Forwarding(start, server.Now(), r, sent, Segment(buf[..], n), server.Pending(), n,
                           response[..], size, leftover)
      decreases |r| - |sent|
    {
      if n == -1 {
        ForwardingFails(start, server.Now(), r, before, sent, server.Pending(), response[..], size, leftover);
        crashed := true;
        return;
      }
      ghost var segment := buf[..n];
      n, size, leftover := Round(client, server, response, buf, n, size, leftover, start, r, before, sent);
      sent := sent + segment;
    }
    ForwardingEnds(start, server.Now(), r, before, sent, Segment(buf[..], 0), server.Pending(), response[..],
                   size, leftover);
  }

  /** One round of the loop: forwards the segment at hand, and reads the next one. */
  method Round(client: Client, server: Reader, response: array<Byte>, buf: array<Byte>, n: int, size: nat,
               leftover: nat, ghost start: Stream, ghost r: seq<Byte>, ghost before: seq<Byte>, ghost sent: seq<Byte>)
    returns (n': int, size': nat, leftover': nat)
    requires server.Valid() && buf.Length == MAX_OBJECT_SIZE && buf != server.buf && response != server.buf
    requires response != buf && 0 < n && client.sent == before + sent
    requires Forwarding(start, server.Now(), r, sent, Segment(buf[..], n), server.Pending(), n,
                        response[..], size, leftover)
    modifies client, server, server.buf, server.src, response, buf
    ensures server.Valid() && client.sent == before + (sent + old(buf[..n]))
    ensures Forwarding(start, server.Now(), r, sent + old(buf[..n]), Segment(buf[..], n'), server.Pending(), n',
                       response[..], size', leftover')
  {
    ghost var segment, rest := buf[..n], server.Pending();
    size', leftover' := ForwardSegment(client, response, buf, n, size, leftover, sent);
    Regroup(r, sent, segment, rest, before);
    n' := NextSegment(server, buf, start, |r|, |sent + segment|, if n < MAX_OBJECT_SIZE then 1 else 0);
    NextSplit(r, sent + segment, rest, Segment(buf[..], n'), server.Pending(), n');
  }

  /** The segment read by a call that returned n. */
  function Segment(buf: seq<Byte>, n: int): seq<Byte> {
    if 0 <= n <= |buf| then buf[..n] else []
  }

  /** Between two rounds. */
  ghost predicate Forwarding(start: Stream, now: Stream, r: seq<Byte>, sent: seq<Byte>, segment: seq<Byte>,
                             left: seq<Byte>, n: int, copy: seq<Byte>, size: nat, leftover: nat)
  {
    && -1 <= n <= MAX_OBJECT_SIZE && Stands(start, now, |r|, |sent|, n) && Split(r, sent, segment, left, n)
    && CopyOk(sent, copy, size, leftover) && (sent != [] && leftover > 0 ==> n <= 0)
  }

  /** The response is what has been sent, then the segment just read, then what is left;
      nothing is left behind a short segment. */
  predicate Split(r: seq<Byte>, sent: seq<Byte>, segment: seq<Byte>, left: seq<Byte>, n: int) {
    if n == -1 then sent <= r
    else |segment| == n && r == sent + (segment + left) && (n < MAX_OBJECT_SIZE ==> left == [])
  }

  lemma NextSplit(r: seq<Byte>, sent: seq<Byte>, rest: seq<Byte>, segment: seq<Byte>, left: seq<Byte>, n: int)
    requires r == sent + rest && -1 <= n
    requires n != -1 ==> |segment| == n && rest == segment + left && (n < MAX_OBJECT_SIZE ==> left == [])
    ensures Split(r, sent, segment, left, n)
  {
  }

  lemma Regroup(r: seq<Byte>, sent: seq<Byte>, segment: seq<Byte>, rest: seq<Byte>, before: seq<Byte>)
    requires r == sent + (segment + rest)
    ensures r == (sent + segment) + rest && (before + sent) + segment == before + (sent + segment)
  {
  }

  lemma ForwardingEnds(start: Stream, now: Stream, r: seq<Byte>, before: seq<Byte>, sent: seq<Byte>,
                       segment: seq<Byte>, left: seq<Byte>, copy: seq<Byte>, size: nat, leftover: nat)
    requires Forwarding(start, now, r, sent, segment, left, 0, copy, size, leftover)
    ensures !BreaksOff(start, |r|) && Forwarded(r, before, before + sent, copy, size)
  {
    assert r == sent;
  }

  lemma ForwardingFails(start: Stream, now: Stream, r: seq<Byte>, before: seq<Byte>, sent: seq<Byte>,
                        left: seq<Byte>, copy: seq<Byte>, size: nat, leftover: nat)
    requires Forwarding(start, now, r, sent, [], left, -1, copy, size, leftover)
    ensures BreaksOff(start, |r|) && Failed in start.plan && before <= before + sent <= before + r
  {
    if Failed !in start.plan {
      ReliableNeverFails(start.rest, start.plan, Less(|r| + 1, start.buffered), EofReads(|r|));
    }
  }

  /** The same on a connection just opened: whether the proxy crashes is settled by the length
      of the response and by how the reads will go. It does when the first read fails, and
      does not when none will. */
  method ForwardFresh(bytes: seq<Byte>, plan: seq<Arrival>) returns (crashed: bool)
    ensures crashed <==> FailsAt(|bytes|, plan, |bytes| + 1, EofReads(|bytes|))
    ensures plan != [] && plan[0] == Failed ==> crashed
    ensures Failed !in plan ==> !crashed
  {
    var source := new Source(bytes, plan);
    var server := new Reader(source);
    var client := new Client();
    var response := new Byte[MAX_OBJECT_SIZE];
    var size;
    crashed, size := SendResponseToClient(client, server, response);
  }
}
