/** unpv13e/lib/readline.c, which reads through a buffer, and unpv13e/server/readline.c, which reads one
    byte at a time, on the same byte stream. */
module ReadLine {
  import opened Unp
  import opened SeqFacts

  const NEWLINE := '\n'
  const NUL := 0 as char

  // ----- what a call stores -----

  /** How many bytes a call stores when it has room for `room` of them: up to and with a newline. */
  function LineLength(s: string, room: nat): (n: nat)
    ensures n <= |s| && n <= room
  {
    if room == 0 || s == [] then 0
    else if s[0] == NEWLINE then 1
    else 1 + LineLength(s[1..], room - 1)
  }

  function Room(maxlen: nat): nat {
    if maxlen == 0 then 0 else maxlen - 1
  }

  function Line(s: string, maxlen: nat): string {
    s[..LineLength(s, Room(maxlen))]
  }

  function Rest(s: string, maxlen: nat): string {
    s[LineLength(s, Room(maxlen))..]
  }

  /** The loop ran out of room: neither a newline nor the end of the stream stopped it. */
  predicate RanOut(s: string, maxlen: nat) {
    LineLength(s, Room(maxlen)) == Room(maxlen) && NEWLINE !in Line(s, maxlen)
  }

  /** The end of the stream stopped it. */
  predicate Ended(s: string, maxlen: nat) {
    LineLength(s, Room(maxlen)) == |s| < Room(maxlen) && NEWLINE !in s
  }

  /** What the buffered readline returns: one more than it stored when the room ran out. */
  function BufferedValue(s: string, maxlen: nat): nat {
    |Line(s, maxlen)| + if RanOut(s, maxlen) then 1 else 0
  }

  /** What the plain one returns: also one more at an end of file after some data. */
  function PlainValue(s: string, maxlen: nat): nat {
    if maxlen > 1 && s == "" then 0
    else |Line(s, maxlen)| + if RanOut(s, maxlen) || Ended(s, maxlen) then 1 else 0
  }

  /** The value is the number of bytes stored exactly when the room did not run out and, for the plain
      version, the stream did not end after some data. */
  lemma {:induction false} ValueIsCountIff(s: string, maxlen: nat)
    ensures BufferedValue(s, maxlen) == |Line(s, maxlen)| <==> !RanOut(s, maxlen)
    ensures PlainValue(s, maxlen) == |Line(s, maxlen)| <==> !RanOut(s, maxlen) && (s == "" || !Ended(s, maxlen))
  {
  }

  /** Reading "ab" into two bytes stores one and returns 2. */
  lemma RoomRanOutExample()
    ensures Line("ab", 2) == "a" && BufferedValue("ab", 2) == 2 && PlainValue("ab", 2) == 2
  {
    assert LineLength("ab", 1) == 1 + LineLength("ab"[1..], 0);
    assert "ab"[..1] == "a";
  }

  /** Reading "a" into three bytes stores one; the plain version returns 2. */
  lemma EndOfFileExample()
    ensures Line("a", 3) == "a" && BufferedValue("a", 3) == 1 && PlainValue("a", 3) == 2
  {
    assert "a"[1..] == "";
    assert LineLength("a", 2) == 1 + LineLength("", 1) == 1;
    assert "a"[..1] == "a";
  }

  /** Reading two lines into five bytes stores the first with its newline and returns 2, in both. */
  lemma NewlineExample()
    ensures Line("a\nb\n", 5) == "a\n" && Rest("a\nb\n", 5) == "b\n"
    ensures BufferedValue("a\nb\n", 5) == 2 && PlainValue("a\nb\n", 5) == 2
  {
    var s := "a\nb\n";
    assert s[1..][0] == '\n';
    assert LineLength(s, 4) == 1 + LineLength(s[1..], 3) == 2;
    assert s[..2] == "a\n" && s[2..] == "b\n" && s[1] == NEWLINE;
  }

  /** A newline can only be the last byte of a line. */
  lemma {:induction false} LineShape(s: string, room: nat)
    ensures var n := LineLength(s, room);
            && (forall j :: 0 <= j < n - 1 ==> s[j] != NEWLINE)
            && (n < room && n < |s| ==> n > 0 && s[n - 1] == NEWLINE)
  {
    if room > 0 && s != [] && s[0] != NEWLINE {
      LineShape(s[1..], room - 1);
      var n := LineLength(s, room);
      forall j | 0 <= j < n - 1 ensures s[j] != NEWLINE {
        assert j > 0 ==> s[1..][j - 1] == s[j];
      }
    }
  }

  /** Reading one more byte that is not a newline. */
  lemma {:induction false} LineGoesOn(s: string, room: nat, k: nat)
    requires k <= room && k <= |s| && forall j :: 0 <= j < k ==> s[j] != NEWLINE
    ensures k == room || k == |s| ==> LineLength(s, room) == k
    ensures k < room && k < |s| && s[k] == NEWLINE ==> LineLength(s, room) == k + 1
    decreases k
  {
    if k > 0 {
      assert forall j :: 0 <= j < k - 1 ==> s[1..][j] == s[j + 1];
      assert k < |s| ==> s[1..][k - 1] == s[k];
      LineGoesOn(s[1..], room - 1, k - 1);
    }
  }

  // ----- the stream -----

  /** A descriptor whose reads never fail; `split` decides how much each read returns. */
  class Stream {
    var rest: string
    var calls: nat
    const split: nat -> nat

    constructor (bytes: string, how: nat -> nat)
      ensures rest == bytes && split == how
    {
      rest, calls, split := bytes, 0, how;
    }

    /** read: any nonempty part of what is there and fits; nothing at the end. */
    method Read(max: nat) returns (bytes: string)
      requires max > 0
      modifies this
      ensures bytes + rest == old(rest) && |bytes| <= max && (bytes == [] <==> old(rest) == [])
    {
      if rest == [] {
        bytes := [];
      } else {
        var most := if max < |rest| then max else |rest|;
        var n := 1 + split(calls) % most;
        bytes, rest, calls := rest[..n], rest[n..], calls + 1;
      }
    }
  }

  /** The buffered reader with its static buffer. */
  class Buffered {
    const fd: Stream
    const readBuf: array<char>
    var readCnt: nat
    var readPtr: nat

    ghost predicate Valid()
      reads this
    {
      readBuf.Length == MAX_LINE && readPtr + readCnt <= MAX_LINE
    }

    /** Everything not yet handed out: the buffer, then the stream. */
    ghost function Unread(): string
      reads this, readBuf, fd
      requires Valid()
    {
      readBuf[readPtr..readPtr + readCnt] + fd.rest
    }

    constructor (s: Stream)
      ensures Valid() && fd == s && fresh(readBuf) && Unread() == s.rest
    {
      fd, readBuf, readCnt, readPtr := s, new char[MAX_LINE], 0, 0;
    }

    method Refill()
      requires Valid() && readCnt == 0
      modifies this, readBuf, fd
      ensures Valid() && Unread() == old(Unread()) && (readCnt == 0 <==> old(Unread()) == [])
    {
      var bytes := fd.Read(MAX_LINE);
      for i := 0 to |bytes|
        invariant forall j :: 0 <= j < i ==> readBuf[j] == bytes[j]
        modifies readBuf
      {
        readBuf[i] := bytes[i];
      }
      readCnt := |bytes|;
      if readCnt > 0 {
        readPtr := 0;
      }
      assert readBuf[readPtr..readPtr + readCnt] == bytes;
    }

    /** my_read: one byte out of the buffer, refilled when it is empty; rc is 0 at the end. */
    method MyRead() returns (rc: nat, c: char)
      requires Valid()
      modifies this, readBuf, fd
      ensures Valid()
      ensures if old(Unread()) == [] then rc == 0 && Unread() == []
              else rc == 1 && c == old(Unread())[0] && Unread() == old(Unread())[1..]
    {
      c := NUL;
      ghost var s := Unread();
      if readCnt == 0 {
        Refill();
        if readCnt == 0 {
          return 0, c;
        }
      }
      assert Unread() == s;
      c := readBuf[readPtr];
      readCnt, readPtr := readCnt - 1, readPtr + 1;
      assert readBuf[readPtr - 1..readPtr + readCnt] == [c] + readBuf[readPtr..readPtr + readCnt];
      rc := 1;
    }

    /** readline: stores the next line and a null byte. The value returned is the number of bytes
        stored, and one more when the room ran out. */
    method Readline(vptr: array<char>, maxlen: nat) returns (n: nat)
      requires Valid() && vptr.Length >= Room(maxlen) + 1 && vptr != readBuf
      modifies this, readBuf, fd, vptr
      ensures Valid() && Unread() == Rest(old(Unread()), maxlen)
      ensures var line := Line(old(Unread()), maxlen);
              && vptr[..|line| + 1] == line + [NUL]
              && n == BufferedValue(old(Unread()), maxlen)
    {
      hide LineLength, Unread, Valid;
      ghost var s := Unread();
      var ptr := 0;
      n := 1;
      while n < maxlen
        invariant Valid() && n == ptr + 1 && ptr <= Room(maxlen) && ptr <= |s|
        invariant Unread() == s[ptr..] && vptr[..ptr] == s[..ptr]
        invariant forall j :: 0 <= j < ptr ==> s[j] != NEWLINE
        decreases maxlen - n
      {
        LineGoesOn(s, Room(maxlen), ptr);
        var rc, c := MyRead();
        if rc == 1 {
          vptr[ptr] := c;
          ptr := ptr + 1;
          if c == NEWLINE {
            break;
          }
        } else {
          vptr[ptr] := NUL;
          return n - 1;
        }
        n := n + 1;
      }
      LineGoesOn(s, Room(maxlen), if n < maxlen then n - 1 else ptr);
      vptr[ptr] := NUL;
    }

    /** readlinebuf: the bytes that are in the buffer and not yet handed out. */
    method ReadlineBuf() returns (bytes: string)
      requires Valid()
      ensures |bytes| == readCnt && bytes + fd.rest == Unread()
    {
      bytes := readBuf[readPtr..readPtr + readCnt];
    }
  }

  /** unpv13e/server/readline.c: the same loop, reading one byte at a time. The value returned is one
      more than the number of bytes stored also when the stream ended after some data. */
  method PlainReadline(fd: Stream, vptr: array<char>, maxlen: nat) returns (n: nat)
    requires vptr.Length >= Room(maxlen) + 1
    modifies fd, vptr
    ensures fd.rest == Rest(old(fd.rest), maxlen)
    ensures var line := Line(old(fd.rest), maxlen);
            && vptr[..|line|] == line
            && (n > 0 ==> vptr[|line|] == NUL)
            && n == PlainValue(old(fd.rest), maxlen)
  {
    ghost var s := fd.rest;
    var ptr := 0;
    n := 1;
    while n < maxlen
      invariant n == ptr + 1 && ptr <= Room(maxlen) && ptr <= |s|
      invariant fd.rest == s[ptr..] && vptr[..ptr] == s[..ptr]
      invariant forall j :: 0 <= j < ptr ==> s[j] != NEWLINE
      decreases maxlen - n
    {
      LineGoesOn(s, Room(maxlen), ptr);
      var bytes := fd.Read(1);
      if |bytes| == 1 {
        assert bytes + fd.rest == s[ptr..];
        vptr[ptr] := bytes[0];
        ptr := ptr + 1;
        if bytes[0] == NEWLINE {
          break;
        }
      } else if n == 1 {
        return 0;
      } else {
        break;
      }
      n := n + 1;
    }
    LineGoesOn(s, Room(maxlen), if n < maxlen && ptr == n then n - 1 else ptr);
    vptr[ptr] := NUL;
  }

  // ----- successive calls -----

  /** The strings that successive calls store. */
  function Lines(s: string, maxlens: seq<nat>): seq<string> {
    if maxlens == [] then [] else [Line(s, maxlens[0])] + Lines(Rest(s, maxlens[0]), maxlens[1..])
  }

  function RestAfter(s: string, maxlens: seq<nat>): string {
    if maxlens == [] then s else RestAfter(Rest(s, maxlens[0]), maxlens[1..])
  }

  function Joined(lines: seq<string>): string {
    if lines == [] then [] else lines[0] + Joined(lines[1..])
  }

  /** Stored strings and what is unread always make up the stream. */
  lemma {:induction false} NothingLost(s: string, maxlens: seq<nat>)
    ensures Joined(Lines(s, maxlens)) + RestAfter(s, maxlens) == s
  {
    if maxlens != [] {
      hide Line, Rest;
      var line, rest := Line(s, maxlens[0]), Rest(s, maxlens[0]);
      var more := Lines(rest, maxlens[1..]);
      LineThenRest(s, maxlens[0]);
      NothingLost(rest, maxlens[1..]);
      JoinedMore(line, more);
      hide Joined, Lines, RestAfter;
      Regroup(line, Joined(more), RestAfter(rest, maxlens[1..]));
    }
  }

  lemma {:induction false} JoinedMore(line: string, more: seq<string>)
    ensures Joined([line] + more) == line + Joined(more)
  {
    assert ([line] + more)[1..] == more;
  }

  lemma {:induction false} LineThenRest(s: string, maxlen: nat)
    ensures Line(s, maxlen) + Rest(s, maxlen) == s
  {
  }

  /** Any number of calls of the buffered readline store the lines of the stream, however it is split. */
  method BufferedLines(r: Buffered, maxlens: seq<nat>) returns (ghost stored: seq<string>)
    requires r.Valid()
    modifies r, r.readBuf, r.fd
    ensures r.Valid() && r.Unread() == RestAfter(old(r.Unread()), maxlens)
    ensures stored == Lines(old(r.Unread()), maxlens)
    decreases |maxlens|
  {
    if maxlens == [] {
      return [];
    }
    ghost var size := |Line(r.Unread(), maxlens[0])|;
    var vptr := new char[Room(maxlens[0]) + 1];
    var n := r.Readline(vptr, maxlens[0]);
    ghost var line := vptr[..size + 1][..size];
    ghost var more := BufferedLines(r, maxlens[1..]);
    stored := [line] + more;
  }

  /** So do as many calls of the plain one. */
  method PlainLines(fd: Stream, maxlens: seq<nat>) returns (ghost stored: seq<string>)
    modifies fd
    ensures fd.rest == RestAfter(old(fd.rest), maxlens)
    ensures stored == Lines(old(fd.rest), maxlens)
    decreases |maxlens|
  {
    if maxlens == [] {
      return [];
    }
    ghost var size := |Line(fd.rest, maxlens[0])|;
    var vptr := new char[Room(maxlens[0]) + 1];
    var n := PlainReadline(fd, vptr, maxlens[0]);
    ghost var line := vptr[..size];
    ghost var more := PlainLines(fd, maxlens[1..]);
    stored := [line] + more;
  }
}
