/** What reading a line means, on the bytes still to come. */
module LineSpec {
  import opened Bytes

  const NEWLINE: byte := 10

  /** Where a line that reaches index i ends, when there is room for `room` bytes: behind the
      first newline, or at the end of the room or of the stream. */
  function LineEnd(stream: seq<byte>, room: nat, i: nat): (end: nat)
    requires i <= room && i <= |stream|
    ensures i <= end <= room && end <= |stream|
    decreases room - i
  {
    if i == room || i == |stream| then i
    else if stream[i] == NEWLINE then i + 1
    else LineEnd(stream, room, i + 1)
  }

  /** The bytes a call with room for `room` bytes stores. */
  function Taken(stream: seq<byte>, room: nat): (t: seq<byte>)
    ensures |t| == LineEnd(stream, room, 0) && t <= stream
  {
    stream[..LineEnd(stream, room, 0)]
  }

  predicate EndsLine(t: seq<byte>) {
    t != [] && t[|t| - 1] == NEWLINE
  }

  /** What the call returns; `fails` says how the stream ends. */
  function Returned(stream: seq<byte>, maxlen: nat, fails: bool): int
    requires maxlen >= 1
  {
    var t := Taken(stream, maxlen - 1);
    if EndsLine(t) then |t|
    else if |t| == maxlen - 1 then maxlen
    else if fails then -1
    else |t|
  }

  /** A call stores everything up to and including the first newline; without one it stops
      only for lack of room or of bytes. */
  lemma {:induction false} LineEndStops(stream: seq<byte>, room: nat, i: nat)
    requires i <= room && i <= |stream|
    ensures var end := LineEnd(stream, room, i);
            && (forall j | i <= j < end - 1 :: stream[j] != 10)
            && ((i < end && stream[end - 1] == 10) || end == room || end == |stream|)
    decreases room - i
  {
    if i < room && i < |stream| && stream[i] != NEWLINE { LineEndStops(stream, room, i + 1); }
  }

  lemma ReturnedAt(stream: seq<byte>, maxlen: nat, fails: bool, end: nat)
    requires maxlen >= 1 && end == LineEnd(stream, maxlen - 1, 0)
    ensures Taken(stream, maxlen - 1) == stream[..end]
    ensures Returned(stream, maxlen, fails) ==
            if end > 0 && stream[end - 1] == NEWLINE then end
            else if end == maxlen - 1 then maxlen
            else if fails then -1
            else end
  {
  }

  /** The value returned is the number of bytes stored exactly when there is a newline within the
      room, or the stream ends, and not by an error, before the room is used up. */
  lemma CountsStored(stream: seq<byte>, maxlen: nat, fails: bool)
    requires maxlen >= 1
    ensures Returned(stream, maxlen, fails) == |Taken(stream, maxlen - 1)| <==>
            || (exists i | 0 <= i < maxlen - 1 && i < |stream| :: stream[i] == 10)
            || (|stream| < maxlen - 1 && !fails)
  {
    LineEndStops(stream, maxlen - 1, 0);
  }

  /** It is one more exactly when the room is used up without a newline, and -1 exactly when an
      error comes before either. */
  lemma OneTooMany(stream: seq<byte>, maxlen: nat, fails: bool)
    requires maxlen >= 1
    ensures Returned(stream, maxlen, fails) == |Taken(stream, maxlen - 1)| + 1 <==>
            || (|stream| >= maxlen - 1 && forall i | 0 <= i < maxlen - 1 :: stream[i] != NEWLINE)
    ensures Returned(stream, maxlen, fails) == -1 <==>
            |stream| < maxlen - 1 && fails && forall i | 0 <= i < |stream| :: stream[i] != NEWLINE
  {
    LineEndStops(stream, maxlen - 1, 0);
  }

  /** What a call leaves in the caller's buffer: the bytes, and a zero behind them unless it fails. */
  function BufferAfter(buf: seq<byte>, ret: int, t: seq<byte>): (r: seq<byte>)
    ensures |r| == |buf|
  {
    if |t| >= |buf| then buf
    else t + (if ret >= 0 then [0] else [buf[|t|]]) + buf[|t| + 1..]
  }

  /** Byte by byte: the bytes stored, then a zero unless the call fails, then what was there before. */
  lemma BufferIs(buf: seq<byte>, ret: int, t: seq<byte>, i: nat)
    requires |t| < |buf| && i < |buf|
    ensures i < |t| ==> BufferAfter(buf, ret, t)[i] == t[i]
    ensures i == |t| && ret >= 0 ==> BufferAfter(buf, ret, t)[i] == 0
    ensures i > |t| || (i == |t| && ret < 0) ==> BufferAfter(buf, ret, t)[i] == buf[i]
  {
  }

  lemma ZeroBehind(buf: seq<byte>, ret: int, t: seq<byte>)
    requires |t| < |buf|
    ensures var stored := t + buf[|t|..];
            BufferAfter(buf, ret, t) == if ret >= 0 then stored[|t| := 0] else stored
  {
  }

  // ----- many lines

  ghost predicate Positive(maxlens: seq<nat>) {
    forall i | 0 <= i < |maxlens| :: maxlens[i] >= 1
  }

  /** The results of calls in a row, one for each maxlen. */
  ghost function Lines(stream: seq<byte>, maxlens: seq<nat>, fails: bool): (r: seq<(int, seq<byte>)>)
    requires Positive(maxlens)
    ensures |r| == |maxlens|
    decreases |maxlens|
  {
    if maxlens == [] then []
    else
      var t := Taken(stream, maxlens[0] - 1);
      [(Returned(stream, maxlens[0], fails), t)] + Lines(stream[|t|..], maxlens[1..], fails)
  }

  /** Return value and buffer after each of these calls, made with one buffer that starts as buf. */
  ghost function Buffers(buf: seq<byte>, lines: seq<(int, seq<byte>)>): (r: seq<(int, seq<byte>)>)
    ensures |r| == |lines|
    decreases |lines|
  {
    if lines == [] then []
    else
      var after := BufferAfter(buf, lines[0].0, lines[0].1);
      [(lines[0].0, after)] + Buffers(after, lines[1..])
  }

  lemma BuffersStep(buf: seq<byte>, stream: seq<byte>, maxlens: seq<nat>, fails: bool)
    requires Positive(maxlens) && maxlens != []
    ensures var t, ret := Taken(stream, maxlens[0] - 1), Returned(stream, maxlens[0], fails);
            var after := BufferAfter(buf, ret, t);
            Buffers(buf, Lines(stream, maxlens, fails)) ==
            [(ret, after)] + Buffers(after, Lines(stream[|t|..], maxlens[1..], fails))
  {
    var t := Taken(stream, maxlens[0] - 1);
    assert Lines(stream, maxlens, fails)[1..] == Lines(stream[|t|..], maxlens[1..], fails);
  }

  function Concat(lines: seq<seq<byte>>): seq<byte> {
    if lines == [] then [] else lines[0] + Concat(lines[1..])
  }

  lemma {:induction false} ConcatSnoc(lines: seq<seq<byte>>, line: seq<byte>)
    ensures Concat(lines + [line]) == Concat(lines) + line
  {
    if lines == [] {
      assert [line][1..] == [];
    } else {
      ConcatSnoc(lines[1..], line);
      assert (lines + [line])[1..] == lines[1..] + [line];
    }
  }

  /** A line ends with its only newline. */
  ghost predicate IsLine(line: seq<byte>) {
    EndsLine(line) && forall i | 0 <= i < |line| - 1 :: line[i] != NEWLINE
  }

  lemma {:induction false} LineEndOfLine(line: seq<byte>, rest: seq<byte>, room: nat, i: nat)
    requires IsLine(line) && i < |line| <= room
    ensures LineEnd(line + rest, room, i) == |line|
    decreases |line| - i
  {
    if i < |line| - 1 { LineEndOfLine(line, rest, room, i + 1); }
  }

  lemma TakenLine(line: seq<byte>, rest: seq<byte>, maxlen: nat, fails: bool)
    requires IsLine(line) && |line| < maxlen
    ensures Taken(line + rest, maxlen - 1) == line && (line + rest)[|line|..] == rest
    ensures Returned(line + rest, maxlen, fails) == |line|
  {
    LineEndOfLine(line, rest, maxlen - 1, 0);
    assert (line + rest)[..|line|] == line;
  }

  /** Lines that fit come back unchanged, in order and one per call. */
  lemma {:induction false} RoundTrip(lines: seq<seq<byte>>, maxlens: seq<nat>, fails: bool)
    requires |maxlens| == |lines| && forall i | 0 <= i < |lines| :: IsLine(lines[i]) && |lines[i]| < maxlens[i]
    ensures var got := Lines(Concat(lines), maxlens, fails);
            forall i | 0 <= i < |lines| :: got[i] == (|lines[i]|, lines[i])
    decreases |lines|
  {
    if lines != [] {
      TakenLine(lines[0], Concat(lines[1..]), maxlens[0], fails);
      RoundTrip(lines[1..], maxlens[1..], fails);
    }
  }

  /** Nothing is lost or doubled: what the calls stored, put together, is a prefix of the stream. */
  lemma {:induction false} LinesConserve(stream: seq<byte>, maxlens: seq<nat>, fails: bool)
    requires Positive(maxlens)
    ensures Concat(Stored(Lines(stream, maxlens, fails))) <= stream
    decreases |maxlens|
  {
    if maxlens != [] {
      var t := Taken(stream, maxlens[0] - 1);
      LinesConserve(stream[|t|..], maxlens[1..], fails);
      StoredStep(stream, maxlens, fails);
      PrefixBehind(t, Concat(Stored(Lines(stream[|t|..], maxlens[1..], fails))), stream);
    }
  }

  lemma StoredStep(stream: seq<byte>, maxlens: seq<nat>, fails: bool)
    requires Positive(maxlens) && maxlens != []
    ensures var t := Taken(stream, maxlens[0] - 1);
            Stored(Lines(stream, maxlens, fails)) == [t] + Stored(Lines(stream[|t|..], maxlens[1..], fails))
  {
  }

  lemma PrefixBehind(t: seq<byte>, s: seq<byte>, stream: seq<byte>)
    requires t <= stream && s <= stream[|t|..]
    ensures t + s <= stream
  {
  }

  /** How many of the lines fit into `room` bytes. */
  function Fitting(lines: seq<seq<byte>>, room: nat): (n: nat)
    ensures n <= |lines|
  {
    if lines == [] || |lines[0]| > room then 0 else 1 + Fitting(lines[1..], room - |lines[0]|)
  }

  /** The first n lines fit exactly when there is room for all their bytes. */
  lemma {:induction false} FittingIff(lines: seq<seq<byte>>, room: nat, n: nat)
    requires n <= |lines|
    ensures n <= Fitting(lines, room) <==> |Concat(lines[..n])| <= room
  {
    if n > 0 {
      assert lines[..n][1..] == lines[1..][..n - 1];
      if |lines[0]| <= room { FittingIff(lines[1..], room - |lines[0]|, n - 1); }
    }
  }

  lemma FittingAll(lines: seq<seq<byte>>, room: nat)
    ensures Fitting(lines, room) == |lines| <==> |Concat(lines)| <= room
  {
    FittingIff(lines, room, |lines|);
    assert lines[..|lines|] == lines;
  }

  function Stored(results: seq<(int, seq<byte>)>): seq<seq<byte>> {
    seq(|results|, i requires 0 <= i < |results| => results[i].1)
  }
}

/** The loops themselves, over a descriptor that delivers and accepts bytes as it likes. */
module LineIO {
  import opened Bytes
  import opened LineSpec

  datatype ReadResult = Data(bytes: seq<byte>) | Eof | Interrupted | Failed

  /** A descriptor to read from: the bytes to come, how often reads are still interrupted, and
      whether the stream ends with an error instead of end of file. */
  class Source {
    var unread: seq<byte>
    var interrupts: nat
    const fails: bool

    constructor (bytes: seq<byte>, interrupts: nat, fails: bool)
      ensures unread == bytes && this.interrupts == interrupts && this.fails == fails
    {
      unread := bytes;
      this.interrupts := interrupts;
      this.fails := fails;
    }

    /** read: any non-empty piece of what is to come, up to n bytes. */
    method Read(n: nat) returns (r: ReadResult)
      requires n >= 1
      modifies this
      ensures match r
              case Data(bytes) =>
                1 <= |bytes| <= n && old(unread) == bytes + unread && interrupts == old(interrupts)
              case Eof => !fails && unread == old(unread) == [] && interrupts == old(interrupts)
              case Failed => fails && unread == old(unread) == [] && interrupts == old(interrupts)
              case Interrupted => unread == old(unread) && interrupts < old(interrupts)
    {
      if interrupts > 0 {
        if * {
          interrupts := interrupts - 1;
          return Interrupted;
        }
      }
      if unread == [] {
        return if fails then Failed else Eof;
      }
      var k: nat :| 1 <= k <= n && k <= |unread|;
      r := Data(unread[..k]);
      unread := unread[k..];
    }
  }

  /** The loop of the unbuffered readline, one read per byte; rc says how it stopped. */
  method CollectUnbuffered(src: Source, vptr: array<byte>, maxlen: nat, ghost stream: seq<byte>)
    returns (rc: int, n: nat, ptr: nat)
    requires src.unread == stream && 1 <= maxlen <= vptr.Length
    modifies src, vptr
    ensures ptr == LineEnd(stream, maxlen - 1, 0) && src.unread == stream[ptr..]
    ensures vptr[..] == stream[..ptr] + old(vptr[..])[ptr..]
    ensures if ptr > 0 && stream[ptr - 1] == NEWLINE then rc == 1 && n == ptr
            else n == ptr + 1 && rc == if n == maxlen then 1 else if src.fails then -1 else 0
  {
    n, ptr, rc := 1, 0, 1;
    while n < maxlen
      invariant 1 <= n <= maxlen && ptr == n - 1 <= |stream| && rc == 1
      invariant src.unread == stream[ptr..]
      invariant LineEnd(stream, maxlen - 1, 0) == LineEnd(stream, maxlen - 1, ptr)
      invariant ptr > 0 ==> stream[ptr - 1] != NEWLINE
      invariant forall i {:trigger vptr[i]} | 0 <= i < ptr :: vptr[i] == stream[i]
      invariant forall i | ptr <= i < vptr.Length :: vptr[i] == old(vptr[i])
      decreases maxlen - n, src.interrupts
    {
      var result := src.Read(1);
      match result {
        case Data(bytes) =>
          assert stream[ptr..] == bytes + src.unread && stream[ptr..][1..] == stream[ptr + 1..];
          assert src.unread == stream[ptr + 1..] && bytes[0] == stream[ptr];
          vptr[ptr] := bytes[0];
          ptr := ptr + 1;
          if bytes[0] == NEWLINE { break; }
          n := n + 1;
        case Interrupted =>
        case Failed =>
          rc := -1;
          return;
        case Eof =>
          rc := 0;
          return;
      }
    }
  }

  /** The unbuffered readline. */
  method ReadLineUnbuffered(src: Source, vptr: array<byte>, maxlen: nat) returns (ret: int)
    requires 1 <= maxlen <= vptr.Length
    modifies src, vptr
    ensures ret == Returned(old(src.unread), maxlen, src.fails)
    ensures var t := Taken(old(src.unread), maxlen - 1);
            src.unread == old(src.unread)[|t|..] && vptr[..] == BufferAfter(old(vptr[..]), ret, t)
  {
    ghost var stream := src.unread;
    var rc, n, ptr := CollectUnbuffered(src, vptr, maxlen, stream);
    ReturnedAt(stream, maxlen, src.fails, ptr);
    ZeroBehind(old(vptr[..]), if rc < 0 then -1 else 0, stream[..ptr]);
    if rc < 0 {
      return -1;
    }
    vptr[ptr] := 0;
    ret := if rc == 0 then n - 1 else n;
  }

  /** The per-thread read-ahead buffer of the thread-safe readline. */
  class Rline {
    var cnt: int
    var bufptr: nat
    const buf: array<byte>

    /** MAXLINE */
    static const MAXLINE := 1024

    /** The bytes read but not yet handed on. */
    ghost var ahead: seq<byte>

    ghost predicate Valid()
      reads this, buf
    {
      && buf.Length == MAXLINE && (cnt > 0 ==> bufptr + cnt <= MAXLINE)
      && |ahead| == (if cnt > 0 then cnt else 0)
      && forall i | bufptr <= i < bufptr + |ahead| :: buf[i] == ahead[i - bufptr]
    }

    ghost function ToCome(src: Source): seq<byte>
      reads this`ahead, src`unread
    {
      ahead + src.unread
    }

    /** What is to come is the stream from index `at` on. */
    ghost predicate Awaits(src: Source, stream: seq<byte>, at: nat)
      reads this`ahead, src`unread
    {
      && at + |ahead| + |src.unread| == |stream|
      && (forall i {:trigger ahead[i]} | 0 <= i < |ahead| :: ahead[i] == stream[at + i])
      && (forall i {:trigger src.unread[i]} | 0 <= i < |src.unread| :: src.unread[i] == stream[at + |ahead| + i])
    }

    lemma AwaitsAll(src: Source, stream: seq<byte>)
      requires ToCome(src) == stream
      ensures Awaits(src, stream, 0)
    {
    }

    lemma AwaitsRest(src: Source, stream: seq<byte>, at: nat)
      requires Awaits(src, stream, at)
      ensures at <= |stream| && ToCome(src) == stream[at..]
    {
    }

    /** calloc(1, sizeof(Rline)) */
    constructor ()
      ensures Valid() && ahead == [] && fresh(buf)
    {
      cnt, bufptr := 0, 0;
      buf := new byte[MAXLINE](_ => 0);
      ahead := [];
    }

    /** The refill at the top of my_read, restarted when interrupted. */
    method Refill(src: Source, ghost stream: seq<byte>, ghost at: nat) returns (rc: int)
      requires Valid() && cnt <= 0 && Awaits(src, stream, at)
      modifies this, buf, src
      ensures Valid() && Awaits(src, stream, at)
      ensures if at < |stream| then rc == 1 && cnt > 0 else rc == (if src.fails then -1 else 0) && cnt <= 0
      decreases src.interrupts
    {
      ahead := [];
      var r := src.Read(MAXLINE);
      match r {
        case Data(bytes) =>
          cnt := |bytes|;
          forall i | 0 <= i < |bytes| { buf[i] := bytes[i]; }
          bufptr := 0;
          ahead := bytes;
          assert forall i | 0 <= i < |bytes| :: bytes[i] == old(src.unread)[i];
          assert forall i | 0 <= i < |src.unread| :: src.unread[i] == old(src.unread)[|bytes| + i];
          rc := 1;
        case Interrupted =>
          cnt := -1;
          rc := Refill(src, stream, at);
        case Failed =>
          cnt := -1;
          rc := -1;
        case Eof =>
          cnt := 0;
          rc := 0;
      }
    }

    method Next() returns (c: byte)
      requires Valid() && cnt > 0
      modifies this
      ensures Valid() && c == old(ahead)[0] && ahead == old(ahead)[1..]
    {
      cnt := cnt - 1;
      c := buf[bufptr];
      bufptr := bufptr + 1;
      ahead := ahead[1..];
    }

    /** my_read: one byte, from the buffer if it has one.  Index `at` of the stream comes next. */
    method MyRead(src: Source, ghost stream: seq<byte>, ghost at: nat) returns (rc: int, c: byte)
      requires Valid() && Awaits(src, stream, at)
      modifies this, buf, src
      ensures Valid()
      ensures if at < |stream| then rc == 1 && c == stream[at] && Awaits(src, stream, at + 1)
              else rc == (if src.fails then -1 else 0) && Awaits(src, stream, at)
    {
      c := 0;
      if cnt <= 0 {
        rc := Refill(src, stream, at);
        if rc != 1 { return; }
      }
      c := Next();
      rc := 1;
    }

    /** The loop of the buffered readline: rc says how it stopped. */
    method Collect(src: Source, vptr: array<byte>, maxlen: nat, ghost stream: seq<byte>)
      returns (rc: int, n: nat, ptr: nat)
      requires Valid() && ToCome(src) == stream && 1 <= maxlen <= vptr.Length && vptr != buf
      modifies this, buf, src, vptr
      ensures Valid() && ptr == LineEnd(stream, maxlen - 1, 0) && ToCome(src) == stream[ptr..]
      ensures vptr[..] == stream[..ptr] + old(vptr[..])[ptr..]
      ensures if ptr > 0 && stream[ptr - 1] == NEWLINE then rc == 1 && n == ptr
              else n == ptr + 1 && rc == if n == maxlen then 1 else if src.fails then -1 else 0
    {
      AwaitsAll(src, stream);
      rc, n, ptr := Fill(src, vptr, maxlen, stream);
      AwaitsRest(src, stream, ptr);
    }

    method Fill(src: Source, vptr: array<byte>, maxlen: nat, ghost stream: seq<byte>)
      returns (rc: int, n: nat, ptr: nat)
      requires Valid() && Awaits(src, stream, 0) && 1 <= maxlen <= vptr.Length && vptr != buf
      modifies this, buf, src, vptr
      ensures Valid() && ptr == LineEnd(stream, maxlen - 1, 0) && Awaits(src, stream, ptr)
      ensures forall i {:trigger vptr[i]} | 0 <= i < ptr :: vptr[i] == stream[i]
      ensures forall i | ptr <= i < vptr.Length :: vptr[i] == old(vptr[i])
      ensures if ptr > 0 && stream[ptr - 1] == NEWLINE then rc == 1 && n == ptr
              else n == ptr + 1 && rc == if n == maxlen then 1 else if src.fails then -1 else 0
    {
      n, ptr, rc := 1, 0, 1;
      while n < maxlen
        invariant Valid() && 1 <= n <= maxlen && ptr == n - 1 <= |stream| && rc == 1 && Awaits(src, stream, ptr)
        invariant LineEnd(stream, maxlen - 1, 0) == LineEnd(stream, maxlen - 1, ptr)
        invariant ptr > 0 ==> stream[ptr - 1] != NEWLINE
        invariant forall i {:trigger vptr[i]} | 0 <= i < ptr :: vptr[i] == stream[i]
        invariant forall i | ptr <= i < vptr.Length :: vptr[i] == old(vptr[i])
      {
        var c;
        rc, c := MyRead(src, stream, ptr);
        if rc != 1 { return; }
        vptr[ptr] := c;
        ptr := ptr + 1;
        if c == NEWLINE { break; }
        n := n + 1;
      }
    }

    /** The buffered readline. */
    method ReadLine(src: Source, vptr: array<byte>, maxlen: nat) returns (ret: int)
      requires Valid() && 1 <= maxlen <= vptr.Length && vptr != buf
      modifies this, buf, src, vptr
      ensures Valid()
      ensures ret == Returned(old(ToCome(src)), maxlen, src.fails)
      ensures var t := Taken(old(ToCome(src)), maxlen - 1);
              ToCome(src) == old(ToCome(src))[|t|..] && vptr[..] == BufferAfter(old(vptr[..]), ret, t)
    {
      ghost var stream := ToCome(src);
      var rc, n, ptr := Collect(src, vptr, maxlen, stream);
      ReturnedAt(stream, maxlen, src.fails, ptr);
      ZeroBehind(old(vptr[..]), if rc < 0 then -1 else 0, stream[..ptr]);
      if rc < 0 {
        return -1;
      }
      vptr[ptr] := 0;
      ret := if rc == 0 then n - 1 else n;
    }
  }

  /** One call of each readline on the same bytes to come, into equal buffers. */
  method BothRead(tsd: Rline, src: Source, vptr: array<byte>, src': Source, vptr': array<byte>, maxlen: nat)
    returns (ret: int, ret': int)
    requires tsd.Valid() && src != src' && src.fails == src'.fails && tsd.ToCome(src) == src'.unread
    requires vptr != vptr' && tsd.buf != vptr && tsd.buf != vptr' && vptr[..] == vptr'[..]
    requires 1 <= maxlen <= vptr.Length
    modifies tsd, tsd.buf, src, vptr, src', vptr'
    ensures tsd.Valid() && ret == ret' == Returned(old(src'.unread), maxlen, src.fails)
    ensures var t := Taken(old(src'.unread), maxlen - 1);
            && tsd.ToCome(src) == src'.unread == old(src'.unread)[|t|..]
            && vptr[..] == vptr'[..] == BufferAfter(old(vptr[..]), ret, t)
  {
    assert vptr.Length == |vptr[..]| == vptr'.Length;
    ret := tsd.ReadLine(src, vptr, maxlen);
    ret' := ReadLineUnbuffered(src', vptr', maxlen);
  }

  /** One call after the other of each readline. */
  method AllRead(tsd: Rline, src: Source, vptr: array<byte>, src': Source, vptr': array<byte>, maxlens: seq<nat>)
    returns (buffered: seq<(int, seq<byte>)>, unbuffered: seq<(int, seq<byte>)>)
    requires tsd.Valid() && src != src' && src.fails == src'.fails && tsd.ToCome(src) == src'.unread
    requires vptr != vptr' && tsd.buf != vptr && tsd.buf != vptr' && vptr[..] == vptr'[..]
    requires Positive(maxlens) && forall i | 0 <= i < |maxlens| :: maxlens[i] <= vptr.Length
    modifies tsd, tsd.buf, src, vptr, src', vptr'
    ensures tsd.Valid() && buffered == unbuffered
    ensures buffered == Buffers(old(vptr[..]), Lines(old(src'.unread), maxlens, src.fails))
    decreases |maxlens|
  {
    if maxlens == [] { return [], []; }
    BuffersStep(vptr[..], src'.unread, maxlens, src.fails);
    var ret, ret' := BothRead(tsd, src, vptr, src', vptr', maxlens[0]);
    var first, first' := (ret, vptr[..]), (ret', vptr'[..]);
    buffered, unbuffered := AllRead(tsd, src, vptr, src', vptr', maxlens[1..]);
    buffered, unbuffered := [first] + buffered, [first'] + unbuffered;
  }

  /** The buffered readline refines the unbuffered one: over any sequence of calls, however the
      two descriptors cut the same bytes and interrupt, return values and buffers are the same,
      and they are those of the lines of the stream. */
  method Agree(bytes: seq<byte>, fails: bool, interrupts: nat, interrupts': nat, size: nat, maxlens: seq<nat>)
    returns (buffered: seq<(int, seq<byte>)>, unbuffered: seq<(int, seq<byte>)>)
    requires Positive(maxlens) && forall i | 0 <= i < |maxlens| :: maxlens[i] <= size
    ensures buffered == unbuffered == Buffers(seq(size, _ => 0), Lines(bytes, maxlens, fails))
  {
    var src := new Source(bytes, interrupts, fails);
    var src' := new Source(bytes, interrupts', fails);
    var tsd := new Rline();
    var vptr, vptr' := new byte[size](_ => 0), new byte[size](_ => 0);
    assert vptr[..] == vptr'[..] == seq(size, _ => 0);
    buffered, unbuffered := AllRead(tsd, src, vptr, src', vptr', maxlens);
  }

  // ----- writing

  datatype WriteResult = Wrote(count: nat) | WriteInterrupted | WriteFailed

  function Min(a: nat, b: nat): nat {
    if a <= b then a else b
  }

  /** A descriptor to write to: the bytes that arrived, how often writes are still interrupted,
      and how many bytes it takes in all before it refuses. */
  class Sink {
    var received: seq<byte>
    var interrupts: nat
    const limit: nat

    constructor (interrupts: nat, limit: nat)
      ensures received == [] && this.interrupts == interrupts && this.limit == limit
    {
      received := [];
      this.interrupts := interrupts;
      this.limit := limit;
    }

    function Room(): nat
      reads this
    {
      if |received| < limit then limit - |received| else 0
    }

    /** write: takes any number of the bytes while there is room; then it fails or takes none. */
    method Write(bytes: seq<byte>) returns (r: WriteResult)
      requires bytes != []
      modifies this
      ensures match r
              case Wrote(count) =>
                && count <= |bytes| && count <= old(Room()) && (count == 0 ==> old(Room()) == 0)
                && received == old(received) + bytes[..count] && interrupts == old(interrupts)
              case WriteInterrupted => received == old(received) && interrupts < old(interrupts)
              case WriteFailed => received == old(received) && interrupts == old(interrupts) && Room() == 0
    {
      if interrupts > 0 {
        if * {
          interrupts := interrupts - 1;
          return WriteInterrupted;
        }
      }
      if Room() == 0 {
        if * { return WriteFailed; }
        return Wrote(0);
      }
      var count: nat :| 1 <= count <= |bytes| && count <= Room();
      received := received + bytes[..count];
      r := Wrote(count);
    }
  }

  /** writen: all the bytes arrive if there is room for them, otherwise those there is room for,
      and then it returns -1. */
  method Writen(fd: Sink, vptr: array<byte>, n: nat) returns (ret: int)
    requires n <= vptr.Length
    modifies fd
    ensures fd.received == old(fd.received) + vptr[..Min(n, old(fd.Room()))]
    ensures n <= old(fd.Room()) ==> fd.received == old(fd.received) + vptr[..n]
    ensures n > old(fd.Room()) ==> fd.received == old(fd.received) + vptr[..old(fd.Room())]
    ensures ret == if n <= old(fd.Room()) then n else -1
  {
    var nleft, ptr: nat := n, 0;
    while nleft > 0
      invariant ptr + nleft == n && fd.received == old(fd.received) + vptr[..ptr]
      invariant ptr <= old(fd.Room())
      decreases nleft, fd.interrupts
    {
      var r := fd.Write(vptr[ptr..n]);
      var written := 0;
      match r {
        case Wrote(count) =>
          if count == 0 { return -1; }
          written := count;
        case WriteInterrupted =>
        case WriteFailed => return -1;
      }
      assert vptr[..ptr] + vptr[ptr..n][..written] == vptr[..ptr + written];
      nleft := nleft - written;
      ptr := ptr + written;
    }
    ret := n;
  }

  // ----- both ends

  /** Sends the lines with writen, one call each, as long as the calls succeed: those that fit. */
  method SendLines(fd: Sink, lines: seq<seq<byte>>) returns (sent: nat, ghost part: seq<byte>)
    modifies fd
    ensures sent == Fitting(lines, old(fd.Room()))
    ensures fd.received == old(fd.received) + Concat(lines[..sent]) + part
    ensures if sent < |lines| then part <= lines[sent] && |Concat(lines[..sent])| + |part| == old(fd.Room())
            else part == []
  {
    sent, part := 0, [];
    assert lines[0..] == lines;
    while sent < |lines|
      invariant 0 <= sent <= |lines| && fd.received == old(fd.received) + Concat(lines[..sent]) && part == []
      invariant |Concat(lines[..sent])| + fd.Room() == old(fd.Room())
      invariant Fitting(lines, old(fd.Room())) == sent + Fitting(lines[sent..], fd.Room())
    {
      var line := lines[sent];
      var vptr := new byte[|line|](j requires 0 <= j < |line| => line[j]);
      assert vptr[..] == line;
      ghost var room := fd.Room();
      var ret := Writen(fd, vptr, vptr.Length);
      if ret < 0 {
        part := line[..room];
        return;
      }
      ConcatSnoc(lines[..sent], line);
      assert lines[..sent + 1] == lines[..sent] + [line] && lines[sent..][1..] == lines[sent + 1..];
      sent := sent + 1;
    }
  }

  /** Reads lines that are known to come next. */
  method ReadLines(tsd: Rline, src: Source, maxlen: nat, lines: seq<seq<byte>>, ghost rest: seq<byte>)
    returns (got: seq<seq<byte>>)
    requires tsd.Valid() && maxlen >= 1 && forall line | line in lines :: IsLine(line) && |line| < maxlen
    requires tsd.ToCome(src) == Concat(lines) + rest
    modifies tsd, tsd.buf, src
    ensures tsd.Valid() && tsd.ToCome(src) == rest && got == lines
  {
    var vptr := new byte[maxlen](_ => 0);
    got := [];
    assert lines[0..] == lines;
    for i := 0 to |lines|
      invariant tsd.Valid() && tsd.ToCome(src) == Concat(lines[i..]) + rest && got == lines[..i]
    {
      assert lines[i..][1..] == lines[i + 1..] && lines[i] in lines;
      assert Concat(lines[i..]) + rest == lines[i] + (Concat(lines[i + 1..]) + rest);
      TakenLine(lines[i], Concat(lines[i + 1..]) + rest, maxlen, src.fails);
      var ret := tsd.ReadLine(src, vptr, maxlen);
      assert vptr[..ret] == lines[i];
      got := got + [vptr[..ret]];
    }
  }

  /** Lines that fit, sent with writen and read with the buffered readline, come back unchanged
      and in order, however the writes and reads are cut and interrupted: all of them if the
      descriptor takes all their bytes, otherwise as many as it takes. */
  method SendAndRead(lines: seq<seq<byte>>, maxlen: nat, limit: nat, interrupts: nat, interrupts': nat)
    returns (got: seq<seq<byte>>)
    requires maxlen >= 1 && forall line | line in lines :: IsLine(line) && |line| < maxlen
    ensures got == lines[..Fitting(lines, limit)]
    ensures |Concat(lines)| <= limit ==> got == lines
  {
    var fd := new Sink(interrupts, limit);
    var sent, part := SendLines(fd, lines);
    assert fd.received == Concat(lines[..sent]) + part;
    var src := new Source(fd.received, interrupts', false);
    var tsd := new Rline();
    got := ReadLines(tsd, src, maxlen, lines[..sent], part);
    FittingAll(lines, limit);
    assert lines[..|lines|] == lines;
  }
}
