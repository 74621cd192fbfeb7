/** The address texts of the RFC, and where inet_pton6 departs from them. */
module InetRfc {
  import opened SeqFacts
  import opened Wrappers
  import opened Decimal
  import opened InetText
  import opened InetGrammar

  // ----- the grammar: section 2.2 of RFC 1884 and of RFC 4291 -----

  /** One to four hexadecimal digits. */
  predicate IsH16(s: string) {
    1 <= |s| <= 4 && AllHex(s)
  }

  predicate AllH16(gs: seq<string>) {
    forall i :: 0 <= i < |gs| ==> IsH16(gs[i])
  }

  /** One to three decimal digits with a value up to 255. */
  predicate IsDecOctet(s: string) {
    1 <= |s| <= 3 && AllDigits(s) && ScanDigits(s, 0).0 <= 255
  }

  /** The last piece: sixteen bits in hexadecimal, or thirty-two as a dotted quad. */
  datatype Ending = HexEnd(group: string) | QuadEnd(octets: seq<string>)

  /** x:x:x:x:x:x:x:x, or with "::" in front of the ending or at the very end. */
  datatype RfcForm =
    | Full(groups: seq<string>, end: Ending)
    | Compressed(left: seq<string>, groups: seq<string>, end: Ending)
    | Trailing(left: seq<string>)

  predicate IsEnding(e: Ending) {
    match e
    case HexEnd(g) => IsH16(g)
    case QuadEnd(os) => |os| == 4 && forall i :: 0 <= i < 4 ==> IsDecOctet(os[i])
  }

  /** How many of the eight 16-bit pieces an ending stands for. */
  function Pieces(e: Ending): nat {
    if e.HexEnd? then 1 else 2
  }

  /** Eight pieces, or fewer with a "::" that stands for at least one. */
  predicate IsRfc(f: RfcForm) {
    match f
    case Full(gs, e) => AllH16(gs) && IsEnding(e) && |gs| + Pieces(e) == 8
    case Compressed(l, gs, e) => AllH16(l) && AllH16(gs) && IsEnding(e) && |l| + |gs| + Pieces(e) <= 7
    case Trailing(l) => AllH16(l) && |l| <= 7
  }

  function Joined(parts: seq<string>): string {
    if parts == [] then "" else if |parts| == 1 then parts[0] else parts[0] + (":" + Joined(parts[1..]))
  }

  function EndText(e: Ending): string {
    match e
    case HexEnd(g) => g
    case QuadEnd(os) => JoinDots(os)
  }

  function RfcText(f: RfcForm): string {
    match f
    case Full(gs, e) => Joined(gs + [EndText(e)])
    case Compressed(l, gs, e) => Joined(l) + ("::" + Joined(gs + [EndText(e)]))
    case Trailing(l) => Joined(l) + "::"
  }

  /** The text is one of the RFC. */
  ghost predicate IsRfcText(s: string) {
    exists f :: IsRfc(f) && RfcText(f) == s
  }

  function GroupBytes(g: string): (b: seq<int>)
    requires IsH16(g)
    ensures |b| == 2
  {
    ShortGroup(g);
    WordBytes(HexValue(g))
  }

  function AllGroupBytes(gs: seq<string>): (b: seq<int>)
    requires AllH16(gs)
    ensures |b| == 2 * |gs|
  {
    if gs == [] then [] else GroupBytes(gs[0]) + AllGroupBytes(gs[1..])
  }

  function EndBytes(e: Ending): seq<int>
    requires IsEnding(e)
  {
    match e
    case HexEnd(g) => GroupBytes(g)
    case QuadEnd(os) => OctetValues(os)
  }

  /** The sixteen bytes the text stands for: the "::" is filled with zeros. */
  function RfcBytes(f: RfcForm): seq<int>
    requires IsRfc(f)
  {
    match f
    case Full(gs, e) => AllGroupBytes(gs) + EndBytes(e)
    case Compressed(l, gs, e) =>
      AllGroupBytes(l) + Repeated(0, 16 - 2 * (|l| + |gs| + Pieces(e))) + (AllGroupBytes(gs) + EndBytes(e))
    case Trailing(l) => AllGroupBytes(l) + Repeated(0, 16 - 2 * |l|)
  }

  lemma {:induction false} HexBound(s: string, acc: nat)
    requires AllHex(s)
    ensures |s| == 0 ==> HexFrom(s, acc) == acc
    ensures |s| == 1 ==> HexFrom(s, acc) <= 16 * acc + 0xf
    ensures |s| == 2 ==> HexFrom(s, acc) <= 256 * acc + 0xff
    ensures |s| == 3 ==> HexFrom(s, acc) <= 4096 * acc + 0xfff
    ensures |s| == 4 ==> HexFrom(s, acc) <= 65536 * acc + 0xffff
  {
    if 1 <= |s| <= 4 {
      HexBound(s[1..], acc * 16 + HexDigit(s[0]));
    }
  }

  lemma {:induction false} ShortGroup(g: string)
    requires IsH16(g)
    ensures IsGroup(g)
  {
    HexBound(g, 0);
  }

  // ----- what inet_pton6 accepts beyond it -----

  /** A colon at the end that is not part of "::". */
  predicate Dangling(a: Address) {
    a.last.Nothing? && !(a.gap && a.g2 == [])
  }

  /** A "::" although all sixteen bytes are written out. */
  predicate FullWithGap(a: Address)
    requires WellFormed(a)
  {
    a.gap && |AllOut(a)| == 16
  }

  /** A group of more than four digits. */
  predicate LongGroup(a: Address) {
    || (exists i :: 0 <= i < |a.g1| && |a.g1[i]| > 4)
    || (exists i :: 0 <= i < |a.g2| && |a.g2[i]| > 4)
    || (a.last.Group? && |a.last.text| > 4)
  }

  /** An octet of more than three digits. */
  ghost predicate LongOctet(a: Address) {
    a.last.Dotted? && exists os, i :: IsDottedQuad(a.last.text, os) && 0 <= i < 4 && |os[i]| > 3
  }

  /** A text that inet_pton6 accepts, with one of the four departures from the RFC. */
  ghost predicate Departs(a: Address, s: string) {
    && WellFormed(a) && Fits(a) && Text(a) == s
    && (Dangling(a) || FullWithGap(a) || LongGroup(a) || LongOctet(a))
  }

  // ----- each text has one structure -----

  /** The text up to the first separator is determined. */
  lemma {:induction false} FirstSeparator(c: char, g: string, r: string, h: string, q: string)
    requires c !in g && c !in h && g + ([c] + r) == h + ([c] + q)
    ensures g == h && r == q
  {
    var s := g + ([c] + r);
    assert s[|g|] == c && s[|h|] == c;
    assert forall i :: 0 <= i < |g| ==> s[i] == g[i];
    assert forall i :: 0 <= i < |h| ==> s[i] == h[i];
    assert |g| == |h|;
    assert g == s[..|g|] == h && r == s[|g| + 1..] == q;
  }

  lemma {:induction false} OctetsUnique(os: seq<string>, ps: seq<string>)
    requires AllOctets(os) && AllOctets(ps) && |os| == |ps| >= 1 && JoinDots(os) == JoinDots(ps)
    ensures os == ps
  {
    assert IsOctet(os[0]) && IsOctet(ps[0]);
    if |os| > 1 {
      FirstSeparator('.', os[0], JoinDots(os[1..]), ps[0], JoinDots(ps[1..]));
      OctetsUnique(os[1..], ps[1..]);
      assert os == [os[0]] + os[1..] && ps == [ps[0]] + ps[1..];
    } else {
      assert os == [os[0]] && ps == [ps[0]];
    }
  }

  /** The shape of a dotted text: digits and dots, at least one of them. */
  lemma {:induction false} QuadChars(t: string) returns (os: seq<string>)
    requires Pton4(t).Some?
    ensures IsDottedQuad(t, os) && ':' !in t && '.' in t && t != []
  {
    Pton4Exact(t, Pton4(t).value);
    os :| IsDottedQuad(t, os) && Pton4(t).value == OctetValues(os);
    NoColon(os);
    assert t == os[0] + ("." + JoinDots(os[1..]));
    assert t[|os[0]|] == '.';
  }

  lemma {:induction false} NoColon(os: seq<string>)
    requires AllOctets(os)
    ensures ':' !in JoinDots(os)
  {
    if os != [] {
      assert IsOctet(os[0]);
      NoColon(os[1..]);
    }
  }

  predicate GoodLast(last: Last) {
    (last.Group? ==> IsGroup(last.text)) && (last.Dotted? ==> Pton4(last.text).Some?)
  }

  lemma {:induction false} LastChars(last: Last)
    requires GoodLast(last)
    ensures ':' !in LastText(last)
    ensures last.Nothing? <==> LastText(last) == ""
    ensures last.Dotted? <==> '.' in LastText(last)
  {
    if last.Dotted? {
      var os := QuadChars(last.text);
    }
  }

  lemma {:induction false} LastUnique(x: Last, y: Last)
    requires GoodLast(x) && GoodLast(y) && LastText(x) == LastText(y)
    ensures x == y
  {
    LastChars(x);
    LastChars(y);
  }

  lemma {:induction false} TailUnique(gs: seq<string>, x: Last, hs: seq<string>, y: Last)
    requires AllGroups(gs) && AllGroups(hs) && GoodLast(x) && GoodLast(y)
    requires Terminated(gs) + LastText(x) == Terminated(hs) + LastText(y)
    ensures gs == hs && x == y
  {
    LastChars(x);
    LastChars(y);
    if gs == [] && hs == [] {
      Empty(LastText(x));
      Empty(LastText(y));
      LastUnique(x, y);
    } else if gs == [] {
      PeelGroup(hs, LastText(y));
    } else if hs == [] {
      PeelGroup(gs, LastText(x));
    } else {
      PeelGroup(gs, LastText(x));
      PeelGroup(hs, LastText(y));
      FirstSeparator(':', gs[0], Terminated(gs[1..]) + LastText(x), hs[0], Terminated(hs[1..]) + LastText(y));
      TailUnique(gs[1..], x, hs[1..], y);
      assert gs == [gs[0]] + gs[1..] && hs == [hs[0]] + hs[1..];
    }
  }

  /** The first group and its colon, in front of whatever follows. */
  lemma {:induction false} PeelGroup(gs: seq<string>, rest: string)
    requires gs != [] && AllGroups(gs)
    ensures Terminated(gs) + rest == gs[0] + ([':'] + (Terminated(gs[1..]) + rest))
    ensures ':' !in gs[0] && gs[0] != [] && ':' in Terminated(gs) + rest
  {
    assert IsGroup(gs[0]);
    var t := Terminated(gs[1..]);
    assert Terminated(gs) == gs[0] + ([':'] + t);
    assert (Terminated(gs) + rest)[|gs[0]|] == ':';
  }

  lemma {:induction false} GapUnique(gs: seq<string>, x: string, hs: seq<string>, y: string)
    requires AllGroups(gs) && AllGroups(hs)
    requires Terminated(gs) + ([':'] + x) == Terminated(hs) + ([':'] + y)
    ensures gs == hs && x == y
  {
    HeadOf(gs, [':'] + x);
    HeadOf(hs, [':'] + y);
    if gs == [] {
      Empty([':'] + x);
      Empty([':'] + y);
      assert ([':'] + x)[1..] == x && ([':'] + y)[1..] == y;
    } else {
      PeelGroup(gs, [':'] + x);
      PeelGroup(hs, [':'] + y);
      FirstSeparator(':', gs[0], Terminated(gs[1..]) + ([':'] + x), hs[0], Terminated(hs[1..]) + ([':'] + y));
      GapUnique(gs[1..], x, hs[1..], y);
      assert gs == [gs[0]] + gs[1..] && hs == [hs[0]] + hs[1..];
    }
  }

  /** Groups start with a digit, so a leading colon means that there are none. */
  lemma {:induction false} HeadOf(gs: seq<string>, rest: string)
    requires AllGroups(gs) && rest != []
    ensures Terminated(gs) + rest != [] && (gs != [] ==> (Terminated(gs) + rest)[0] != ':')
    ensures gs == [] ==> (Terminated(gs) + rest)[0] == rest[0]
  {
    if gs != [] {
      TerminatedHead(gs);
    }
  }

  /** A text with a "::" is none without. */
  lemma {:induction false} GapIsNoTail(gs: seq<string>, x: string, hs: seq<string>, y: Last)
    requires AllGroups(gs) && AllGroups(hs) && GoodLast(y)
    ensures Terminated(gs) + ([':'] + x) != Terminated(hs) + LastText(y)
  {
    LastChars(y);
    HeadOf(gs, [':'] + x);
    if hs == [] {
      Empty(LastText(y));
      assert (Terminated(gs) + ([':'] + x))[|Terminated(gs)|] == ':';
    } else if gs == [] {
      PeelGroup(hs, LastText(y));
    } else {
      PeelGroup(gs, [':'] + x);
      PeelGroup(hs, LastText(y));
      GapIsNoTail(gs[1..], x, hs[1..], y);
      if Terminated(gs) + ([':'] + x) == Terminated(hs) + LastText(y) {
        FirstSeparator(':', gs[0], Terminated(gs[1..]) + ([':'] + x), hs[0], Terminated(hs[1..]) + LastText(y));
      }
    }
  }

  lemma {:induction false} BodyUnique(a: Address, b: Address)
    requires WellFormed(a) && WellFormed(b) && Body(a) == Body(b)
    ensures a == b
  {
    var x, y := Terminated(a.g2) + LastText(a.last), Terminated(b.g2) + LastText(b.last);
    assert Mark(true) == [':'];
    BodyParts(a);
    BodyParts(b);
    if a.gap && b.gap {
      GapUnique(a.g1, x, b.g1, y);
      TailUnique(a.g2, a.last, b.g2, b.last);
    } else if a.gap {
      GapIsNoTail(a.g1, x, b.g1, b.last);
    } else if b.gap {
      GapIsNoTail(b.g1, y, a.g1, a.last);
    } else {
      TailUnique(a.g1, a.last, b.g1, b.last);
    }
  }

  lemma {:induction false} BodyParts(a: Address)
    requires WellFormed(a)
    ensures GoodLast(a.last)
    ensures a.gap ==> Body(a) == Terminated(a.g1) + ([':'] + (Terminated(a.g2) + LastText(a.last)))
    ensures !a.gap ==> Body(a) == Terminated(a.g1) + LastText(a.last)
  {
    Empty(LastText(a.last));
  }

  /** The grammar of inet_pton6 is unambiguous. */
  lemma {:induction false} AddressUnique(a: Address, b: Address)
    requires WellFormed(a) && WellFormed(b) && Text(a) == Text(b)
    ensures a == b
  {
    BodyHead(a);
    BodyHead(b);
    if a.gap && a.g1 == [] {
      assert Text(a)[1..] == Body(a);
    }
    if b.gap && b.g1 == [] {
      assert Text(b)[1..] == Body(b);
    }
    hide Body, WellFormed;
    BodyUnique(a, b);
  }

  // ----- the texts of the RFC as addresses -----

  function LastOf(e: Ending): Last {
    match e
    case HexEnd(g) => Group(g)
    case QuadEnd(os) => Dotted(JoinDots(os))
  }

  function AddressOf(f: RfcForm): Address {
    match f
    case Full(gs, e) => Address(gs, false, [], LastOf(e))
    case Compressed(l, gs, e) => Address(l, true, gs, LastOf(e))
    case Trailing(l) => Address(l, true, [], Nothing)
  }

  lemma {:induction false} JoinedTerminated(gs: seq<string>, t: string)
    ensures Joined(gs + [t]) == Terminated(gs) + t
  {
    if gs == [] {
      Empty(t);
      assert gs + [t] == [t];
    } else {
      assert (gs + [t])[1..] == gs[1..] + [t];
      JoinedTerminated(gs[1..], t);
      Regroup(gs[0], ":" + Terminated(gs[1..]), t);
      Regroup(":", Terminated(gs[1..]), t);
    }
  }

  lemma {:induction false} JoinedColon(gs: seq<string>)
    requires gs != []
    ensures Terminated(gs) == Joined(gs) + ":"
  {
    var n := |gs| - 1;
    assert gs == gs[..n] + [gs[n]];
    JoinedTerminated(gs[..n], gs[n]);
    TerminatedSnoc(gs[..n], gs[n]);
    Regroup(Terminated(gs[..n]), gs[n], ":");
  }

  lemma {:induction false} ShortGroups(gs: seq<string>)
    requires AllH16(gs)
    ensures AllGroups(gs) && Bytes(gs) == AllGroupBytes(gs)
  {
    forall i | 0 <= i < |gs| ensures IsGroup(gs[i]) {
      ShortGroup(gs[i]);
    }
    if gs != [] {
      ShortGroups(gs[1..]);
    }
  }

  lemma {:induction false} EndingQuad(os: seq<string>)
    requires IsEnding(QuadEnd(os))
    ensures IsDottedQuad(JoinDots(os), os) && Pton4(JoinDots(os)) == Some(OctetValues(os)) && |OctetValues(os)| == 4
    ensures forall ps :: IsDottedQuad(JoinDots(os), ps) ==> ps == os
  {
    assert IsDottedQuad(JoinDots(os), os);
    Pton4Exact(JoinDots(os), OctetValues(os));
    OctetBytes(os);
    forall ps | IsDottedQuad(JoinDots(os), ps) ensures ps == os {
      OctetsUnique(os, ps);
    }
  }

  /** An ending of the RFC is one that inet_pton6 reads, with the same bytes and no departure. */
  lemma {:induction false} EndingReads(e: Ending)
    requires IsEnding(e)
    ensures GoodLast(LastOf(e)) && LastBytes(LastOf(e)) == EndBytes(e) && |EndBytes(e)| == 2 * Pieces(e)
    ensures EndText(e) == LastText(LastOf(e)) && !LastOf(e).Nothing?
    ensures LastOf(e).Group? ==> |LastOf(e).text| <= 4
    ensures LastOf(e).Dotted? ==> forall os, i :: IsDottedQuad(LastOf(e).text, os) && 0 <= i < 4 ==> |os[i]| <= 3
  {
    match e
    case HexEnd(g) => ShortGroup(g);
    case QuadEnd(os) => EndingQuad(os);
  }

  lemma {:induction false} RfcTextIs(f: RfcForm)
    requires IsRfc(f)
    ensures Text(AddressOf(f)) == RfcText(f)
  {
    match f
    case Full(gs, e) =>
      EndingReads(e);
      JoinedTerminated(gs, EndText(e));
      Empty(EndText(e));
    case Compressed(l, gs, e) =>
      EndingReads(e);
      JoinedTerminated(gs, EndText(e));
      GapText(l, Joined(gs + [EndText(e)]));
    case Trailing(l) =>
      Empty("");
      GapText(l, "");
      assert Joined(l) + ("::" + "") == Joined(l) + "::";
  }

  lemma {:induction false} GapText(l: seq<string>, rest: string)
    ensures Joined(l) + ("::" + rest) == (if l == [] then ":" else "") + (Terminated(l) + (":" + rest))
  {
    assert "::" + rest == ":" + (":" + rest);
    if l == [] {
      Empty(":" + rest);
      Empty("::" + rest);
    } else {
      JoinedColon(l);
      Regroup(Joined(l), ":", ":" + rest);
      Empty(Joined(l) + ("::" + rest));
    }
  }

  lemma {:induction false} NoDeparture(f: RfcForm)
    requires IsRfc(f)
    ensures var a := AddressOf(f);
            WellFormed(a) && Fits(a) && !Dangling(a) && !FullWithGap(a) && !LongGroup(a) && !LongOctet(a)
  {
    hide Pton4, IsDottedQuad, IsGroup;
    match f
    case Full(gs, e) =>
      ShortGroups(gs);
      EndingReads(e);
    case Compressed(l, gs, e) =>
      ShortGroups(l);
      ShortGroups(gs);
      EndingReads(e);
    case Trailing(l) =>
      ShortGroups(l);
  }

  /** Every text of the RFC is accepted, with the bytes it stands for. */
  lemma {:induction false} RfcFormsAccepted(f: RfcForm)
    requires IsRfc(f)
    ensures Pton6(RfcText(f)) == Some(RfcBytes(f))
  {
    var a := AddressOf(f);
    NoDeparture(f);
    RfcTextIs(f);
    Pton6Reads(a);
    RfcValue(f);
  }

  lemma {:induction false} RfcValue(f: RfcForm)
    requires IsRfc(f) && WellFormed(AddressOf(f)) && Fits(AddressOf(f))
    ensures Value(AddressOf(f)) == RfcBytes(f)
  {
    var a := AddressOf(f);
    var out, m := AllOut(a), 2 * |a.g1|;
    Regroup(Bytes(a.g1), Bytes(a.g2), LastBytes(a.last));
    ShortGroups(a.g1);
    hide Pton4, IsGroup, OctetValues;
    match f
    case Full(gs, e) =>
      EndingReads(e);
      Empty(EndBytes(e));
    case Compressed(l, gs, e) =>
      ShortGroups(gs);
      EndingReads(e);
      assert out[..m] == Bytes(l) && out[m..] == Bytes(gs) + EndBytes(e);
    case Trailing(l) =>
      assert out == Bytes(l) && out[..m] == Bytes(l) && out[m..] == [];
      Empty(AllGroupBytes(l) + Repeated(0, 16 - 2 * |l|));
  }

  /** Without a departure, the last piece is an ending of the RFC. */
  lemma {:induction false} EndingOf(a: Address) returns (e: Ending)
    requires WellFormed(a) && !LongGroup(a) && !LongOctet(a) && !a.last.Nothing?
    ensures IsEnding(e) && LastOf(e) == a.last
  {
    if a.last.Group? {
      e := HexEnd(a.last.text);
    } else {
      var os := QuadChars(a.last.text);
      e := QuadEnd(os);
      forall i | 0 <= i < 4 ensures IsDecOctet(os[i]) {
        assert IsOctet(os[i]);
      }
    }
  }

  lemma {:induction false} FormOf(a: Address) returns (f: RfcForm)
    requires WellFormed(a) && Fits(a)
    requires !Dangling(a) && !FullWithGap(a) && !LongGroup(a) && !LongOctet(a)
    ensures IsRfc(f) && AddressOf(f) == a
  {
    assert forall i :: 0 <= i < |a.g1| ==> IsGroup(a.g1[i]);
    assert forall i :: 0 <= i < |a.g2| ==> IsGroup(a.g2[i]);
    if a.last.Nothing? {
      f := Trailing(a.g1);
    } else {
      var e := EndingOf(a);
      EndingReads(e);
      hide Pton4, IsDottedQuad, LongOctet;
      f := if a.gap then Compressed(a.g1, a.g2, e) else Full(a.g1, e);
    }
  }

  /** The comment says that inet_pton6 returns 1 for a valid RFC address and 0 otherwise. It never
      refuses one; and for every text, it accepts it although it is none exactly when the text has a
      dangling colon, a "::" in a full address, a group too long or an octet too long. */
  lemma {:induction false} AcceptsBeyondRfcIff(s: string)
    ensures IsRfcText(s) ==> Pton6(s).Some?
    ensures Pton6(s).Some? && !IsRfcText(s) <==> exists a :: Departs(a, s)
  {
    hide WellFormed, Fits, Text, Dangling, LongGroup, LongOctet, IsRfc, RfcText, Pton6;
    if a :| Departs(a, s) {
      Pton6Reads(a);
      forall f | IsRfc(f) && RfcText(f) == s ensures false {
        NoDeparture(f);
        RfcTextIs(f);
        AddressUnique(a, AddressOf(f));
      }
    }
    if Pton6(s).Some? && !IsRfcText(s) {
      var a := RecoverAddress(s, Pton6(s).value);
      if !Departs(a, s) {
        var f := FormOf(a);
        RfcTextIs(f);
      }
    }
    if IsRfcText(s) {
      var f :| IsRfc(f) && RfcText(f) == s;
      RfcFormsAccepted(f);
    }
  }

  /** The comment says that "::" in a full address is ignored. That is so exactly when the bytes
      after it are zero; otherwise the shift loses them. */
  lemma {:induction false} GapInFullAddressIgnoredIff(a: Address)
    requires WellFormed(a) && FullWithGap(a)
    ensures Pton6(Text(a)) == Some(AllOut(a)) <==> forall i :: 2 * |a.g1| <= i < 16 ==> AllOut(a)[i] == 0
  {
    Pton6Reads(a);
    ShiftKeepsIff(AllOut(a), 2 * |a.g1|);
    hide Pton6, Text, AllOut, Shifted;
  }

  lemma {:induction false} ShiftKeepsIff(out: seq<int>, m: nat)
    requires |out| == 16 && m <= 16
    ensures Shifted(out, m) == out <==> forall i :: m <= i < 16 ==> out[i] == 0
  {
    assert Shifted(out, m) == out[..m] + Repeated(0, 16 - m);
    assert Shifted(out, m) == out ==> forall i :: m <= i < 16 ==> out[i] == Repeated(0, 16 - m)[i - m];
    assert (forall i :: m <= i < 16 ==> out[i] == 0) ==> out[..m] + Repeated(0, 16 - m) == out;
  }

  // ----- one text for each departure -----

  lemma {:induction false} Terminates(g: string, gs: seq<string>)
    ensures Terminated([g] + gs) == g + (":" + Terminated(gs))
  {
    assert ([g] + gs)[1..] == gs;
  }

  lemma {:induction false} OneDigitGroups(gs: seq<string>)
    requires forall i :: 0 <= i < |gs| ==> |gs[i]| == 1 && IsHex(gs[i][0])
    ensures AllGroups(gs)
  {
    forall i | 0 <= i < |gs| ensures IsGroup(gs[i]) {
      ShortGroup(gs[i]);
    }
  }

  /** "::1:" is accepted. */
  lemma DanglingExample()
    ensures Pton6("::1:").Some? && !IsRfcText("::1:")
  {
    var a := Address([], true, ["1"], Nothing);
    OneDigitGroups(a.g2);
    Terminates("1", []);
    assert ["1"] + [] == ["1"];
    assert Text(a) == "::1:";
    hide Text, Pton6, IsRfcText, IsGroup, AllGroups;
    assert Departs(a, "::1:");
    AcceptsBeyondRfcIff("::1:");
  }

  const EIGHT_WITH_GAP := Address(["1", "2", "3", "4"], true, ["5", "6", "7"], Group("8"))

  lemma EightWithGapFacts()
    ensures WellFormed(EIGHT_WITH_GAP) && FullWithGap(EIGHT_WITH_GAP) && Fits(EIGHT_WITH_GAP)
    ensures AllOut(EIGHT_WITH_GAP)[15] == 8
  {
    OneDigitGroups(EIGHT_WITH_GAP.g1);
    OneDigitGroups(EIGHT_WITH_GAP.g2);
    OneDigitGroups(["8"]);
    assert IsGroup(["8"][0]);
    hide IsGroup, AllGroups;
    assert HexValue("8") == 8;
    assert AllOut(EIGHT_WITH_GAP)[15] == LastBytes(EIGHT_WITH_GAP.last)[1];
  }

  /** "1:2:3:4::5:6:7:8" is accepted. */
  lemma FullWithGapExample()
    ensures Pton6("1:2:3:4::5:6:7:8").Some? && !IsRfcText("1:2:3:4::5:6:7:8")
  {
    EightWithGapFacts();
    FullWithGapText(EIGHT_WITH_GAP);
    hide Text, Pton6, IsRfcText, WellFormed, Fits, FullWithGap;
    assert Departs(EIGHT_WITH_GAP, "1:2:3:4::5:6:7:8");
    AcceptsBeyondRfcIff("1:2:3:4::5:6:7:8");
  }

  /** And it loses its last four groups. */
  lemma GapLosesTheTail()
    ensures WellFormed(EIGHT_WITH_GAP) && Pton6("1:2:3:4::5:6:7:8").Some?
    ensures Pton6("1:2:3:4::5:6:7:8") != Some(AllOut(EIGHT_WITH_GAP))
  {
    EightWithGapFacts();
    FullWithGapText(EIGHT_WITH_GAP);
    Pton6Reads(EIGHT_WITH_GAP);
    hide Text, Pton6, WellFormed, Fits;
    GapInFullAddressIgnoredIff(EIGHT_WITH_GAP);
  }

  lemma {:induction false} FullWithGapText(a: Address)
    requires a == Address(["1", "2", "3", "4"], true, ["5", "6", "7"], Group("8"))
    ensures Text(a) == "1:2:3:4::5:6:7:8"
  {
    Terminates("4", []);
    Terminates("3", ["4"]);
    Terminates("2", ["3", "4"]);
    Terminates("1", ["2", "3", "4"]);
    Terminates("7", []);
    Terminates("6", ["7"]);
    Terminates("5", ["6", "7"]);
    assert ["4"] + [] == ["4"] && ["7"] + [] == ["7"];
    assert a.g1 == ["1"] + ["2", "3", "4"] && a.g2 == ["5"] + ["6", "7"];
    assert ["2"] + ["3", "4"] == ["2", "3", "4"] && ["3"] + ["4"] == ["3", "4"] && ["6"] + ["7"] == ["6", "7"];
    hide Terminated;
    assert Terminated([]) == "" by {
      TerminatedNone();
    }
    assert Terminated(a.g1) == "1:2:3:4:" && Terminated(a.g2) == "5:6:7:";
  }

  lemma TerminatedNone()
    ensures Terminated([]) == ""
  {
  }

  /** A "::" in front of one last piece always fits. */
  lemma {:induction false} LastAlone(last: Last)
    requires GoodLast(last) && !last.Nothing?
    ensures var a := Address([], true, [], last);
            WellFormed(a) && Fits(a) && Text(a) == "::" + last.text
  {
    LastAloneFits(last);
    var a := Address([], true, [], last);
    BodyParts(a);
    TerminatedNone();
    hide Terminated, WellFormed, Fits, LastText;
    Empty(last.text);
    Empty([':'] + last.text);
    assert ":" + (":" + last.text) == "::" + last.text;
  }

  lemma {:induction false} LastAloneFits(last: Last)
    requires GoodLast(last) && !last.Nothing?
    ensures var a := Address([], true, [], last); WellFormed(a) && Fits(a) && LastText(last) == last.text
  {
    hide Pton4, IsGroup, AllBytes, Terminated;
    if last.Dotted? {
      Pton4Bytes(last.text);
    }
  }

  lemma {:induction false} LongGroupDeparts(g: string)
    requires IsGroup(g) && |g| > 4
    ensures Pton6("::" + g).Some? && !IsRfcText("::" + g)
  {
    LastAlone(Group(g));
    hide WellFormed, Fits, Text, Pton6, IsRfcText;
    assert Departs(Address([], true, [], Group(g)), "::" + g);
    AcceptsBeyondRfcIff("::" + g);
  }

  lemma {:induction false} LongOctetDeparts(os: seq<string>)
    requires |os| == 4 && AllOctets(os) && |os[0]| > 3
    ensures Pton6("::" + JoinDots(os)).Some? && !IsRfcText("::" + JoinDots(os))
  {
    var t := JoinDots(os);
    Pton4Exact(t, OctetValues(os));
    assert IsDottedQuad(t, os);
    hide JoinDots, Pton4, AllOctets, OctetValues;
    LastAlone(Dotted(t));
    hide WellFormed, Fits, Text, Pton6, IsRfcText;
    assert LongOctet(Address([], true, [], Dotted(t)));
    assert Departs(Address([], true, [], Dotted(t)), "::" + t);
    AcceptsBeyondRfcIff("::" + t);
  }

  /** "::00001" is accepted. */
  lemma LongGroupExample()
    ensures Pton6("::00001").Some? && !IsRfcText("::00001")
  {
    assert HexFrom("00001", 0) == HexFrom("0001", 0) == HexFrom("001", 0) == HexFrom("01", 0) == HexFrom("1", 0) == 1;
    assert IsGroup("00001");
    hide *;
    LongGroupDeparts("00001");
    assert "::" + "00001" == "::00001";
  }

  /** "::0001.2.3.4" is accepted. */
  lemma LongOctetExample()
    ensures Pton6("::0001.2.3.4").Some? && !IsRfcText("::0001.2.3.4")
  {
    hide *;
    var os := ["0001", "2", "3", "4"];
    LongOctetQuad(os);
    LongOctetDeparts(os);
    assert "::" + "0001.2.3.4" == "::0001.2.3.4";
  }

  lemma {:induction false} LongOctetQuad(os: seq<string>)
    requires os == ["0001", "2", "3", "4"]
    ensures AllOctets(os) && JoinDots(os) == "0001.2.3.4"
  {
    assert ScanDigits("0001", 0) == ScanDigits("001", 0) == ScanDigits("01", 0) == ScanDigits("1", 0);
    assert forall i :: 0 <= i < 4 ==> IsOctet(os[i]);
    JoinedExample(os);
  }

  lemma {:induction false} JoinedExample(os: seq<string>)
    requires os == ["0001", "2", "3", "4"]
    ensures JoinDots(os) == "0001.2.3.4"
  {
    var os1, os2 := ["2", "3", "4"], ["3", "4"];
    assert os[1..] == os1 && os1[1..] == os2 && os2[1..] == ["4"];
    assert JoinDots(os2) == "3" + ("." + "4");
    assert JoinDots(os1) == "2" + ("." + JoinDots(os2));
    assert JoinDots(os) == "0001" + ("." + JoinDots(os1));
    hide JoinDots;
    assert "3" + ("." + "4") == "3.4";
    assert "2" + ("." + "3.4") == "2.3.4";
    assert "0001" + ("." + "2.3.4") == "0001.2.3.4";
  }

  /** The hexadecimal digits and their values, in either case. */
  lemma HexDigitsAre(c: char)
    ensures IsHex(c) <==> c in "0123456789abcdef" || c in "0123456789ABCDEF"
    ensures IsHex(c) ==> c in ["0123456789abcdef"[HexDigit(c)], "0123456789ABCDEF"[HexDigit(c)]]
  {
    if IsHex(c) {
      HexDigitAt(c);
    }
    var lower, upper := "0123456789abcdef", "0123456789ABCDEF";
    assert forall i :: 0 <= i < 16 ==> IsHex(lower[i]) && IsHex(upper[i]);
  }

  lemma HexDigitAt(c: char)
    requires IsHex(c)
    ensures c == "0123456789abcdef"[HexDigit(c)] || c == "0123456789ABCDEF"[HexDigit(c)]
  {
  }

  lemma MixedCaseGroup()
    ensures IsGroup("aB01") && HexValue("aB01") == 0xab01
  {
    var g := "aB01";
    assert g[1..] == "B01" && g[1..][1..] == "01" && g[1..][1..][1..] == "1";
    assert HexFrom("1", 0xab0) == 0xab01;
    assert HexFrom("01", 0xab) == 0xab01;
    assert HexFrom("B01", 0xa) == 0xab01;
  }

  lemma FourteenZeros(a: int, b: int)
    ensures Shifted([a, b], 0) == [0, 0, 0, 0, 0, 0, 0, 0, 0, 0, 0, 0, 0, 0, a, b]
  {
  }

  /** "::aB01": the high byte of a group comes first, and the group stands at the end. */
  lemma BytesExample()
    ensures Pton6("::aB01") == Some([0, 0, 0, 0, 0, 0, 0, 0, 0, 0, 0, 0, 0, 0, 0xab, 0x01])
  {
    MixedCaseGroup();
    FourteenZeros(0xab, 0x01);
    var a := Address([], true, [], Group("aB01"));
    LastAlone(a.last);
    Pton6Reads(a);
    assert "::" + "aB01" == "::aB01";
    hide IsGroup, HexValue, Shifted, Text, Pton6, Fits;
    assert AllOut(a) == [] + [] + WordBytes(0xab01);
    assert AllOut(a) == [0xab, 0x01];
    assert Value(a) == Shifted([0xab, 0x01], 0);
  }
}
