/** Hexadecimal groups, dotted quads and the parsers of unpv13e/libfree/inet_pton.c as functions. */
module InetText {
  import opened SeqFacts
  import opened Wrappers
  import opened Decimal

  predicate IsByte(b: int) {
    0 <= b < 256
  }

  predicate AllBytes(s: seq<int>) {
    forall i :: 0 <= i < |s| ==> IsByte(s[i])
  }

  // ----- hexadecimal -----

  predicate IsHex(c: char) {
    IsDigit(c) || 'a' <= c <= 'f' || 'A' <= c <= 'F'
  }

  /** `pch - xdigits` in either alphabet. */
  function HexDigit(c: char): (d: nat)
    requires IsHex(c)
    ensures d < 16
  {
    if IsDigit(c) then DigitValue(c)
    else if 'a' <= c <= 'f' then c as int - 'a' as int + 10
    else c as int - 'A' as int + 10
  }

  predicate AllHex(s: string) {
    forall i :: 0 <= i < |s| ==> IsHex(s[i])
  }

  /** `val` after reading s, from the value acc. */
  function HexFrom(s: string, acc: nat): nat
    requires AllHex(s)
  {
    if s == [] then acc else HexFrom(s[1..], acc * 16 + HexDigit(s[0]))
  }

  function HexValue(s: string): nat
    requires AllHex(s)
  {
    HexFrom(s, 0)
  }

  /** A group that inet_pton6 takes: any number of hex digits with a 16-bit value. */
  predicate IsGroup(s: string) {
    s != [] && AllHex(s) && HexValue(s) <= 0xffff
  }

  function WordBytes(v: nat): (b: seq<int>)
    requires v <= 0xffff
    ensures |b| == 2 && AllBytes(b)
  {
    [v / 256, v % 256]
  }

  // ----- inet_pton4 -----

  predicate AllGroups(gs: seq<string>) {
    forall i :: 0 <= i < |gs| ==> IsGroup(gs[i])
  }

  /** The loop of inet_pton4 from a given point: `done` are the finished octets, `cur` is *tp. */
  function Quad(s: string, done: seq<int>, cur: nat, sawDigit: bool): Option<seq<int>> {
    if s == [] then
      if |done| + (if sawDigit then 1 else 0) < 4 then None else Some(done + [cur])
    else if IsDigit(s[0]) then
      var n := cur * 10 + DigitValue(s[0]);
      if n > 255 then None
      else if !sawDigit && |done| + 1 > 4 then None
      else Quad(s[1..], done, n, true)
    else if s[0] == '.' && sawDigit then
      if |done| + 1 == 4 then None else Quad(s[1..], done + [cur], 0, false)
    else None
  }

  function Pton4(s: string): Option<seq<int>> {
    Quad(s, [], 0, false)
  }

  /** An octet that inet_pton4 takes: any number of digits with a value below 256. */
  predicate IsOctet(s: string) {
    s != [] && AllDigits(s) && ScanDigits(s, 0).0 <= 255
  }

  predicate AllOctets(os: seq<string>) {
    forall i :: 0 <= i < |os| ==> IsOctet(os[i])
  }

  function JoinDots(os: seq<string>): string {
    if os == [] then "" else if |os| == 1 then os[0] else os[0] + ("." + JoinDots(os[1..]))
  }

  function OctetValues(os: seq<string>): seq<int> {
    if os == [] then [] else [ScanDigits(os[0], 0).0] + OctetValues(os[1..])
  }

  /** The text is four octets separated by dots. */
  ghost predicate IsDottedQuad(s: string, os: seq<string>) {
    |os| == 4 && AllOctets(os) && s == JoinDots(os)
  }

  // ----- inet_pton6 -----

  /** The loop state of inet_pton6: bytes stored, index of the "::" or -1, and the group being read. */
  datatype Scan = Scan(out: seq<int>, colon: int, saw: bool, val: nat)

  /** The loop of inet_pton6; `tok` is the text from curtok on, None is `return (0)`. */
  function ScanGroups(s: string, tok: string, st: Scan): Option<Scan> {
    if s == [] then Some(st)
    else if IsHex(s[0]) then
      var v := st.val * 16 + HexDigit(s[0]);
      if v > 0xffff then None else ScanGroups(s[1..], tok, st.(saw := true, val := v))
    else if s[0] == ':' then
      if !st.saw then
        if st.colon >= 0 then None else ScanGroups(s[1..], s[1..], st.(colon := |st.out|))
      else if |st.out| + 2 > 16 || st.val > 0xffff then None
      else ScanGroups(s[1..], s[1..], st.(out := st.out + WordBytes(st.val), saw := false, val := 0))
    else if s[0] == '.' && |st.out| + 4 <= 16 && Pton4(tok).Some? then
      Some(st.(out := st.out + Pton4(tok).value, saw := false))
    else None
  }

  /** The bytes after the shift of inet_pton.c:205-218: the tail moves to the end, and when there is
      no room to move (16 bytes already) it is zeroed where it stands. */
  function Shifted(out: seq<int>, colon: nat): (r: seq<int>)
    requires colon <= |out| <= 16
    ensures |r| == 16
  {
    if |out| == 16 then out[..colon] + Repeated(0, 16 - colon)
    else out[..colon] + Repeated(0, 16 - |out|) + out[colon..]
  }

  /** After the loop. */
  function Finish(st: Scan): Option<seq<int>> {
    if st.saw && (|st.out| + 2 > 16 || st.val > 0xffff) then None
    else
      var out := if st.saw then st.out + WordBytes(st.val) else st.out;
      if st.colon >= 0 then
        if st.colon <= |out| <= 16 then Some(Shifted(out, st.colon)) else None
      else if |out| == 16 then Some(out) else None
  }

  const FRESH := Scan([], -1, false, 0)

  function Pton6(s: string): Option<seq<int>> {
    if s != [] && s[0] == ':' && (|s| == 1 || s[1] != ':') then None
    else
      var body := if s != [] && s[0] == ':' then s[1..] else s;
      var r := ScanGroups(body, body, FRESH);
      if r.None? then None else Finish(r.value)
  }

  // ----- inet_pton4 accepts exactly the dotted quads -----

  /** Digits are read into the current octet. */
  lemma {:induction false} QuadDigits(d: string, rest: string, done: seq<int>, cur: nat, saw: bool)
    requires AllDigits(d) && d != [] && |done| < 4
    requires ScanDigits(d, cur).0 <= 255
    ensures Quad(d + rest, done, cur, saw) == Quad(rest, done, ScanDigits(d, cur).0, true)
  {
    var s := d + rest;
    var n := cur * 10 + DigitValue(d[0]);
    assert s[1..] == d[1..] + rest;
    ScanGrows(d[1..], n);
    if |d| > 1 {
      QuadDigits(d[1..], rest, done, n, true);
    } else {
      assert s[1..] == rest;
    }
  }

  lemma {:induction false} ScanGrows(s: string, acc: nat)
    ensures ScanDigits(s, acc).0 >= acc
  {
    if s != [] && IsDigit(s[0]) {
      ScanGrows(s[1..], acc * 10 + DigitValue(s[0]));
    }
  }

  lemma {:induction false} QuadDot(rest: string, done: seq<int>, cur: nat)
    requires |done| < 3
    ensures Quad("." + rest, done, cur, true) == Quad(rest, done + [cur], 0, false)
  {
    assert ("." + rest)[1..] == rest;
  }

  lemma {:induction false} QuadEnd(done: seq<int>, cur: nat)
    requires |done| == 3
    ensures Quad([], done, cur, true) == Some(done + [cur])
  {
  }

  lemma {:induction false} QuadJoin(os: seq<string>, done: seq<int>)
    requires AllOctets(os) && |os| >= 1 && |done| + |os| == 4
    ensures Quad(JoinDots(os), done, 0, false) == Some(done + OctetValues(os))
  {
    hide Quad;
    var v := ScanDigits(os[0], 0).0;
    if |os| == 1 {
      assert os[0] + [] == os[0];
      QuadDigits(os[0], [], done, 0, false);
      QuadEnd(done, v);
      assert OctetValues(os) == [v] + OctetValues(os[1..]) == [v];
    } else {
      var rest := JoinDots(os[1..]);
      QuadDigits(os[0], "." + rest, done, 0, false);
      QuadDot(rest, done, v);
      QuadJoin(os[1..], done + [v]);
      Regroup(done, [v], OctetValues(os[1..]));
    }
  }

  /** What a successful run of the loop has read: the rest of the current octet, then octets. */
  ghost predicate HasRead(s: string, done: seq<int>, cur: nat, saw: bool, first: string, os: seq<string>) {
    && AllDigits(first) && (!saw ==> first != []) && ScanDigits(first, cur).0 <= 255
    && AllOctets(os) && |done| + 1 + |os| == 4
    && s == first + (if os == [] then "" else "." + JoinDots(os))
    && Quad(s, done, cur, saw) == Some(done + [ScanDigits(first, cur).0] + OctetValues(os))
  }

  lemma {:induction false} ReadDigit(s: string, done: seq<int>, cur: nat, saw: bool, more: string, os: seq<string>)
    requires s != [] && IsDigit(s[0]) && |done| < 4 && cur * 10 + DigitValue(s[0]) <= 255
    requires HasRead(s[1..], done, cur * 10 + DigitValue(s[0]), true, more, os)
    ensures HasRead(s, done, cur, saw, [s[0]] + more, os)
  {
    hide JoinDots, OctetValues, AllOctets;
    var first := [s[0]] + more;
    assert first[1..] == more;
    assert s == [s[0]] + s[1..];
    Regroup([s[0]], more, if os == [] then "" else "." + JoinDots(os));
  }

  lemma {:induction false} ReadDot(s: string, done: seq<int>, cur: nat, f: string, more: seq<string>)
    requires s != [] && s[0] == '.' && |done| < 3 && cur <= 255
    requires HasRead(s[1..], done + [cur], 0, false, f, more)
    ensures HasRead(s, done, cur, true, [], [f] + more)
  {
    var os := [f] + more;
    QuadShapeDot(s, f, more);
    assert os[1..] == more;
    assert s == [] + ("." + JoinDots(os));
    assert done + [cur] + [ScanDigits(f, 0).0] + OctetValues(more) == done + [cur] + OctetValues(os);
  }

  lemma {:induction false} QuadShape(s: string, done: seq<int>, cur: nat, saw: bool)
    returns (first: string, os: seq<string>)
    requires |done| < 4 && cur <= 255 && Quad(s, done, cur, saw).Some?
    ensures HasRead(s, done, cur, saw, first, os)
  {
    if s == [] {
      first, os := [], [];
      assert done + [cur] + [] == done + [cur];
    } else if IsDigit(s[0]) {
      var more;
      more, os := QuadShape(s[1..], done, cur * 10 + DigitValue(s[0]), true);
      ReadDigit(s, done, cur, saw, more, os);
      first := [s[0]] + more;
    } else {
      var f, more := QuadShape(s[1..], done + [cur], 0, false);
      ReadDot(s, done, cur, f, more);
      first, os := [], [f] + more;
    }
  }

  lemma {:induction false} QuadShapeDot(s: string, f: string, more: seq<string>)
    requires s != [] && s[0] == '.' && s[1..] == f + (if more == [] then "" else "." + JoinDots(more))
    ensures s == "." + JoinDots([f] + more)
  {
    assert s == "." + s[1..];
    assert ([f] + more)[1..] == more;
    if more == [] {
      assert f + "" == f;
    }
  }

  /** inet_pton4 returns 1 exactly for the dotted quads, with their octets. */
  lemma {:induction false} Pton4Exact(s: string, q: seq<int>)
    ensures Pton4(s) == Some(q) <==> exists os :: IsDottedQuad(s, os) && q == OctetValues(os)
  {
    if Pton4(s) == Some(q) {
      var f, more := QuadShape(s, [], 0, false);
      var os := [f] + more;
      assert os[1..] == more;
      assert s == f + ("." + JoinDots(more)) == JoinDots(os);
      assert [] + [ScanDigits(f, 0).0] + OctetValues(more) == OctetValues(os);
      assert IsDottedQuad(s, os);
    }
    if os :| IsDottedQuad(s, os) && q == OctetValues(os) {
      QuadJoin(os, []);
      assert [] + OctetValues(os) == OctetValues(os);
    }
  }

  /** Four bytes come out of every accepted quad. */
  lemma {:induction false} Pton4Bytes(s: string)
    ensures Pton4(s).Some? ==> |Pton4(s).value| == 4 && AllBytes(Pton4(s).value)
  {
    if Pton4(s).Some? {
      var f, os := QuadShape(s, [], 0, false);
      OctetBytes(os);
    }
  }

  lemma {:induction false} OctetBytes(os: seq<string>)
    requires AllOctets(os)
    ensures |OctetValues(os)| == |os| && AllBytes(OctetValues(os))
  {
    if os != [] {
      OctetBytes(os[1..]);
    }
  }
}
