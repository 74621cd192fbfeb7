/** The text printed by unpv13e/libfree/inet_ntop.c, and that inet_pton6 reads it back. */
module InetPrinter {
  import opened SeqFacts
  import opened Wrappers
  import opened Decimal
  import opened InetText
  import opened InetGrammar

  predicate IsAddress(src: seq<int>) {
    |src| == 16 && AllBytes(src)
  }

  function Word(src: seq<int>, i: nat): (w: nat)
    requires IsAddress(src) && i < 8
    ensures w <= 0xffff
  {
    src[2 * i] * 256 + src[2 * i + 1]
  }

  function Words(src: seq<int>): (w: seq<int>)
    requires IsAddress(src)
    ensures |w| == 8 && forall i :: 0 <= i < 8 ==> w[i] == Word(src, i)
  {
    seq(8, i requires 0 <= i < 8 => Word(src, i))
  }

  // ----- "%x" and "%u" -----

  function HexChar(d: nat): (c: char)
    requires d < 16
    ensures IsHex(c) && HexDigit(c) == d
  {
    if d < 10 then DigitChar(d) else ('a' as int + d - 10) as char
  }

  function HexText(n: nat): (s: string)
    ensures |s| > 0 && AllHex(s)
  {
    if n < 16 then [HexChar(n)] else HexText(n / 16) + [HexChar(n % 16)]
  }

  lemma {:induction false} HexTextValue(n: nat)
    ensures HexValue(HexText(n)) == n
  {
    if n < 16 {
      assert HexFrom(HexText(n)[1..], HexDigit(HexText(n)[0])) == n;
    } else {
      HexTextValue(n / 16);
      HexSnoc(HexText(n / 16), HexChar(n % 16), 0);
    }
  }

  lemma HexTextLength(n: nat)
    requires n <= 0xffff
    ensures |HexText(n)| <= 4
  {
    assert n / 16 / 16 / 16 < 16;
    assert |HexText(n / 16 / 16 / 16)| == 1;
    assert |HexText(n / 16 / 16)| <= 2;
    assert |HexText(n / 16)| <= 3;
  }

  function QuadText(b: seq<int>): string
    requires |b| == 4 && AllBytes(b)
  {
    JoinDots([Numeral(b[0]), Numeral(b[1]), Numeral(b[2]), Numeral(b[3])])
  }

  lemma NumeralOctet(n: nat)
    requires n < 256
    ensures IsOctet(Numeral(n)) && ScanDigits(Numeral(n), 0).0 == n && |Numeral(n)| <= 3
  {
    ScanNumeral(n, []);
    assert Numeral(n) + [] == Numeral(n);
    assert |Numeral(n / 10 / 10)| == 1;
    assert |Numeral(n / 10)| <= 2;
  }

  /** A printed quad reads back as its bytes and fits `sizeof "255.255.255.255"`. */
  lemma {:induction false} QuadRoundTrip(b: seq<int>)
    requires |b| == 4 && AllBytes(b)
    ensures Pton4(QuadText(b)) == Some(b) && |QuadText(b)| <= 15
  {
    var os := [Numeral(b[0]), Numeral(b[1]), Numeral(b[2]), Numeral(b[3])];
    forall i | 0 <= i < 4 ensures IsOctet(os[i]) && ScanDigits(os[i], 0).0 == b[i] && |os[i]| <= 3 {
      NumeralOctet(b[i]);
    }
    QuadJoin(os, []);
    QuadValues(os, b);
    assert [] + OctetValues(os) == b;
    var o3 := os[1..][1..][1..];
    assert o3 == [os[3]] && JoinDots(o3) == os[3];
    assert |JoinDots(os[1..][1..])| <= 7;
    assert |JoinDots(os[1..])| <= 11;
  }

  lemma {:induction false} QuadValues(os: seq<string>, b: seq<int>)
    requires |os| == |b| && AllOctets(os) && forall i :: 0 <= i < |os| ==> ScanDigits(os[i], 0).0 == b[i]
    ensures OctetValues(os) == b
  {
    if os != [] {
      QuadValues(os[1..], b[1..]);
      assert b == [b[0]] + b[1..];
    }
  }

  // ----- the run that "::" replaces -----

  predicate ZeroRun(w: seq<int>, b: int, l: int) {
    0 <= b && 1 <= l && b + l <= |w| && forall i :: b <= i < b + l ==> w[i] == 0
  }

  /** The leftmost longest run of at least two zero words, or -1 when there is none
      (sections 4.2.2 and 4.2.3 of RFC 5952). */
  ghost predicate IsBest(w: seq<int>, base: int, len: int) {
    if base == -1 then forall b, l :: ZeroRun(w, b, l) ==> l < 2
    else ZeroRun(w, base, len) && len >= 2
         && forall b, l :: ZeroRun(w, b, l) ==> l < len || (l == len && base <= b)
  }

  /** There is only one answer. */
  lemma {:induction false} BestIsUnique(w: seq<int>, b1: int, l1: int, b2: int, l2: int)
    requires IsBest(w, b1, l1) && IsBest(w, b2, l2)
    ensures b1 == b2 && (b1 != -1 ==> l1 == l2)
  {
    if b1 != -1 {
      assert ZeroRun(w, b1, l1);
    }
    if b2 != -1 {
      assert ZeroRun(w, b2, l2);
    }
  }

  // ----- the text -----

  predicate InRun(base: int, len: int, i: int) {
    base != -1 && base <= i < base + len
  }

  /** The word at 6 starts an embedded IPv4 address (inet_ntop.c:180-181). */
  predicate IsEmbedded(src: seq<int>, base: int, len: int, i: int)
    requires IsAddress(src)
  {
    i == 6 && base == 0 && (len == 6 || (len == 5 && Word(src, 5) == 0xffff))
  }

  /** What the formatting loop writes from word i on. */
  function TextFrom(src: seq<int>, base: int, len: int, i: nat): string
    requires IsAddress(src) && i <= 8
    decreases 8 - i
  {
    if i == 8 then (if base != -1 && base + len == 8 then ":" else "")
    else if InRun(base, len, i) then
      (if i == base then ":" else "") + TextFrom(src, base, len, i + 1)
    else
      (if i != 0 then ":" else "") +
      (if IsEmbedded(src, base, len, i) then QuadText(src[12..16])
       else HexText(Word(src, i)) + TextFrom(src, base, len, i + 1))
  }

  /** The text and its terminator fit the 46 bytes of tmp. */
  lemma {:induction false} TextFits(src: seq<int>, base: int, len: int, i: nat)
    requires IsAddress(src) && i <= 8
    ensures |TextFrom(src, base, len, i)| <= 5 * (8 - i) + 6
    ensures i == 0 ==> |TextFrom(src, base, len, i)| + 1 <= 46
    decreases 8 - i
  {
    if i < 8 {
      TextFits(src, base, len, i + 1);
      HexTextLength(Word(src, i));
      QuadRoundTrip(src[12..16]);
    }
  }

  // ----- the text as an address -----

  function HexTexts(src: seq<int>, i: nat, j: nat): (gs: seq<string>)
    requires IsAddress(src) && i <= j <= 8
    ensures |gs| == j - i
    decreases j - i
  {
    if i == j then [] else [HexText(Word(src, i))] + HexTexts(src, i + 1, j)
  }

  lemma {:induction false} WordText(src: seq<int>, i: nat)
    requires IsAddress(src) && i < 8
    ensures IsGroup(HexText(Word(src, i)))
    ensures WordBytes(HexValue(HexText(Word(src, i)))) == src[2 * i..2 * i + 2]
  {
    HexTextValue(Word(src, i));
    WordSplits(src, i);
    hide HexText, Word, HexValue;
  }

  lemma {:induction false} WordSplits(src: seq<int>, i: nat)
    requires IsAddress(src) && i < 8
    ensures Word(src, i) <= 0xffff && WordBytes(Word(src, i)) == src[2 * i..2 * i + 2]
  {
    assert IsByte(src[2 * i]) && IsByte(src[2 * i + 1]);
  }

  lemma {:induction false} HexTextsBytes(src: seq<int>, i: nat, j: nat)
    requires IsAddress(src) && i <= j <= 8
    ensures AllGroups(HexTexts(src, i, j)) && Bytes(HexTexts(src, i, j)) == src[2 * i..2 * j]
    decreases j - i
  {
    if i < j {
      WordText(src, i);
      HexTextsBytes(src, i + 1, j);
      assert HexTexts(src, i, j)[1..] == HexTexts(src, i + 1, j);
      assert src[2 * i..2 * j] == src[2 * i..2 * i + 2] + src[2 * (i + 1)..2 * j];
    }
  }

  /** The address whose text is printed. */
  function Printed(src: seq<int>, base: int, len: int): Address
    requires IsAddress(src) && (base == -1 || (0 <= base && 2 <= len && base + len <= 8))
  {
    if base == -1 then Address(HexTexts(src, 0, 7), false, [], Group(HexText(Word(src, 7))))
    else if IsEmbedded(src, base, len, 6) then
      Address([], true, HexTexts(src, len, 6), Dotted(QuadText(src[12..16])))
    else if base + len == 8 then Address(HexTexts(src, 0, base), true, [], Nothing)
    else Address(HexTexts(src, 0, base), true, HexTexts(src, base + len, 7), Group(HexText(Word(src, 7))))
  }

  /** From a word outside the run up to the end of a stretch of such words. */
  lemma {:induction false} TextOfGroups(src: seq<int>, base: int, len: int, i: nat, j: nat)
    requires IsAddress(src) && i <= j <= 8
    requires forall k :: i <= k < j ==> !InRun(base, len, k) && !IsEmbedded(src, base, len, k)
    requires i > 0
    ensures TextFrom(src, base, len, i) == Separated(HexTexts(src, i, j)) + TextFrom(src, base, len, j)
    decreases j - i
  {
    var end := TextFrom(src, base, len, j);
    if i == j {
      Empty(end);
    } else {
      TextOfGroups(src, base, len, i + 1, j);
      assert HexTexts(src, i, j)[1..] == HexTexts(src, i + 1, j);
      var g, more := HexText(Word(src, i)), Separated(HexTexts(src, i + 1, j));
      Regroup(g, more, end);
      Regroup(":", g + more, end);
    }
  }

  /** Groups each preceded by a colon, as the loop writes them. */
  function Separated(gs: seq<string>): string {
    if gs == [] then "" else ":" + (gs[0] + Separated(gs[1..]))
  }

  lemma {:induction false} SeparatedTerminated(gs: seq<string>)
    ensures Separated(gs) + ":" == ":" + Terminated(gs)
  {
    if gs != [] {
      SeparatedTerminated(gs[1..]);
      calc {
        Separated(gs) + ":";
      ==  { Regroup(":", gs[0] + Separated(gs[1..]), ":"); Regroup(gs[0], Separated(gs[1..]), ":"); }
        ":" + (gs[0] + (Separated(gs[1..]) + ":"));
      ==
        ":" + Terminated(gs);
      }
    }
  }

  /** A stretch of plain words up to j, after which the loop writes a colon and `rest`. */
  lemma {:induction false} PlainStretch(src: seq<int>, base: int, len: int, i: nat, j: nat, rest: string)
    requires IsAddress(src) && 0 < i <= j <= 8
    requires forall k :: i <= k < j ==> !InRun(base, len, k) && !IsEmbedded(src, base, len, k)
    requires TextFrom(src, base, len, j) == ":" + rest
    ensures TextFrom(src, base, len, i) == ":" + (Terminated(HexTexts(src, i, j)) + rest)
  {
    var gs := HexTexts(src, i, j);
    TextOfGroups(src, base, len, i, j);
    SeparatedTerminated(gs);
    Regroup(Separated(gs), ":", rest);
    Regroup(":", Terminated(gs), rest);
  }

  lemma {:induction false} PlainStart(src: seq<int>, base: int, len: int, j: nat, rest: string)
    requires IsAddress(src) && 0 < j <= 8
    requires forall k :: 0 <= k < j ==> !InRun(base, len, k) && !IsEmbedded(src, base, len, k)
    requires TextFrom(src, base, len, j) == ":" + rest
    ensures TextFrom(src, base, len, 0) == Terminated(HexTexts(src, 0, j)) + rest
  {
    PlainStretch(src, base, len, 1, j, rest);
    var g, more := HexText(Word(src, 0)), Terminated(HexTexts(src, 1, j));
    assert HexTexts(src, 0, j)[1..] == HexTexts(src, 1, j);
    assert TextFrom(src, base, len, 0) == "" + (g + TextFrom(src, base, len, 1));
    Empty(g + TextFrom(src, base, len, 1));
    Regroup(":", more, rest);
    Regroup(g, ":" + more, rest);
  }

  lemma {:induction false} SkipRun(src: seq<int>, base: int, len: int, i: nat)
    requires IsAddress(src) && 0 <= base < i <= base + len <= 8
    ensures TextFrom(src, base, len, i) == TextFrom(src, base, len, base + len)
    decreases base + len - i
  {
    if i < base + len {
      SkipRun(src, base, len, i + 1);
      Empty(TextFrom(src, base, len, i + 1));
    }
  }

  lemma {:induction false} LastWord(src: seq<int>, base: int, len: int)
    requires IsAddress(src) && !InRun(base, len, 7) && (base == -1 || base + len != 8)
    ensures TextFrom(src, base, len, 7) == ":" + HexText(Word(src, 7))
  {
    Empty(HexText(Word(src, 7)));
  }

  /** What follows the run. */
  lemma {:induction false} AfterRun(src: seq<int>, base: int, len: int)
    requires IsAddress(src) && 0 <= base && 2 <= len && base + len <= 8
    ensures var a := Printed(src, base, len);
            TextFrom(src, base, len, base + len) == ":" + (Terminated(a.g2) + LastText(a.last))
  {
    if IsEmbedded(src, base, len, 6) {
      PlainStretch(src, base, len, len, 6, QuadText(src[12..16]));
    } else if base + len == 8 {
      assert ":" + ("" + "") == ":";
    } else {
      LastWord(src, base, len);
      PlainStretch(src, base, len, base + len, 7, HexText(Word(src, 7)));
    }
  }

  /** The formatting loop writes the text of the address. */
  lemma {:induction false} PrintedText(src: seq<int>, base: int, len: int)
    requires IsAddress(src) && (base == -1 || (0 <= base && 2 <= len && base + len <= 8))
    ensures TextFrom(src, base, len, 0) == Text(Printed(src, base, len))
  {
    var a := Printed(src, base, len);
    if base == -1 {
      LastWord(src, base, len);
      PlainStart(src, base, len, 7, HexText(Word(src, 7)));
      Empty(LastText(a.last));
    } else {
      AfterRun(src, base, len);
      SkipRun(src, base, len, base + 1);
      if base > 0 {
        PlainStart(src, base, len, base, TextFrom(src, base, len, base + len));
      } else {
        Empty(Mark(a.gap) + (Terminated(a.g2) + LastText(a.last)));
      }
    }
  }

  // ----- its value -----

  /** The groups and the end after the run are well formed and hold the bytes from e on. */
  ghost predicate HoldsFrom(src: seq<int>, g2: seq<string>, last: Last, e: nat)
    requires IsAddress(src) && e <= 16
  {
    && AllGroups(g2) && (last.Group? ==> IsGroup(last.text))
    && (last.Dotted? ==> Pton4(last.text).Some?)
    && Bytes(g2) + LastBytes(last) == src[e..]
  }

  lemma {:induction false} EmbeddedTail(src: seq<int>, len: nat)
    requires IsAddress(src) && len <= 6
    ensures HoldsFrom(src, HexTexts(src, len, 6), Dotted(QuadText(src[12..16])), 2 * len)
  {
    HexTextsBytes(src, len, 6);
    QuadRoundTrip(src[12..16]);
    Slices(src, 2 * len, 12, 16);
  }

  lemma {:induction false} PlainTail(src: seq<int>, end: nat)
    requires IsAddress(src) && end <= 7
    ensures HoldsFrom(src, HexTexts(src, end, 7), Group(HexText(Word(src, 7))), 2 * end)
  {
    WordText(src, 7);
    HexTextsBytes(src, end, 7);
    Slices(src, 2 * end, 14, 16);
  }

  lemma {:induction false} PrintedTail(src: seq<int>, base: int, len: int)
    requires IsAddress(src) && 0 <= base && 2 <= len && base + len <= 8
    ensures var a := Printed(src, base, len); HoldsFrom(src, a.g2, a.last, 2 * (base + len))
  {
    if IsEmbedded(src, base, len, 6) {
      EmbeddedTail(src, len);
    } else if base + len == 8 {
      assert src[16..] == [];
    } else {
      PlainTail(src, base + len);
    }
  }

  lemma {:induction false} PrintedHead(src: seq<int>, base: int, len: int)
    requires IsAddress(src) && 0 <= base && 2 <= len && base + len <= 8
    ensures var a := Printed(src, base, len);
            && a.gap && |a.g1| == base && AllGroups(a.g1) && Bytes(a.g1) == src[..2 * base]
  {
    HexTextsBytes(src, 0, base);
  }

  lemma {:induction false} PrintedPlain(src: seq<int>)
    requires IsAddress(src)
    ensures var a := Printed(src, -1, 0); WellFormed(a) && !a.gap && AllOut(a) == src
  {
    WordText(src, 7);
    HexTextsBytes(src, 0, 7);
    Empty(src[0..14]);
    Slices(src, 0, 14, 16);
    assert src[0..16] == src;
  }

  lemma {:induction false} ZeroWordsAreZeroBytes(src: seq<int>, base: int, len: int)
    requires IsAddress(src) && ZeroRun(Words(src), base, len)
    ensures src[2 * base..2 * (base + len)] == Repeated(0, 2 * len)
  {
    forall k | 2 * base <= k < 2 * (base + len) ensures src[k] == 0 {
      assert Words(src)[k / 2] == Word(src, k / 2) == 0;
    }
  }

  /** Shifting the tail behind the zeros rebuilds the address. */
  lemma {:induction false} FilledBack(src: seq<int>, m: nat, e: nat)
    requires |src| == 16 && m < e <= 16 && src[m..e] == Repeated(0, e - m)
    ensures Shifted(src[..m] + src[e..], m) == src
  {
    var out := src[..m] + src[e..];
    assert out[..m] == src[..m] && out[m..] == src[e..];
    assert src == src[..m] + src[m..e] + src[e..];
  }

  lemma {:induction false} PrintedValue(src: seq<int>, base: int, len: int)
    requires IsAddress(src) && IsBest(Words(src), base, len)
    ensures var a := Printed(src, base, len); WellFormed(a) && Fits(a) && Value(a) == src
  {
    var a := Printed(src, base, len);
    if base == -1 {
      PrintedPlain(src);
    } else {
      PrintedHead(src, base, len);
      PrintedTail(src, base, len);
      ZeroWordsAreZeroBytes(src, base, len);
      var m, e := 2 * base, 2 * (base + len);
      Regroup(Bytes(a.g1), Bytes(a.g2), LastBytes(a.last));
      FilledBack(src, m, e);
    }
  }

  /** For every address, inet_pton6 reads what inet_ntop6 prints as the same sixteen bytes. */
  lemma {:induction false} RoundTrip(src: seq<int>, base: int, len: int)
    requires IsAddress(src) && IsBest(Words(src), base, len)
    ensures Pton6(TextFrom(src, base, len, 0)) == Some(src)
  {
    PrintedText(src, base, len);
    PrintedValue(src, base, len);
    Pton6Reads(Printed(src, base, len));
  }
}
