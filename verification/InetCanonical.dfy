/** The text of inet_ntop6 from the sixteen bytes alone: where "::" stands, which addresses end in a
    dotted quad, and which characters are used. */
module InetCanonical {
  import opened SeqFacts
  import opened Decimal
  import opened InetText
  import opened InetGrammar
  import opened InetRfc
  import opened InetPrinter

  // ----- "%u" and "%x" -----

  /** No leading zero. */
  lemma {:induction false} NumeralPlain(n: nat)
    ensures n > 0 ==> Numeral(n)[0] != '0'
    ensures n == 0 ==> Numeral(n) == "0"
  {
    if n >= 10 {
      NumeralPlain(n / 10);
    }
  }

  /** The digits of "%x", in lower case. */
  predicate IsPlainHex(s: string) {
    forall i :: 0 <= i < |s| ==> '0' <= s[i] <= '9' || 'a' <= s[i] <= 'f'
  }

  /** Lower case and no leading zero; with HexTextValue this leaves one text for each number. */
  lemma {:induction false} HexPlain(n: nat)
    ensures IsPlainHex(HexText(n))
    ensures n > 0 ==> HexText(n)[0] != '0'
    ensures n == 0 ==> HexText(n) == "0"
  {
    if n >= 16 {
      HexPlain(n / 16);
    }
  }

  lemma FourFs()
    ensures HexText(0xffff) == "ffff"
  {
    assert HexText(15) == "f";
    assert HexText(0xff) == "f" + "f" == "ff";
    assert HexText(0xfff) == "ff" + "f" == "fff";
    assert HexText(0xffff) == "fff" + "f" == "ffff";
  }

  // ----- groups with colons between them -----

  function Hexes(words: seq<int>): (gs: seq<string>)
    requires forall i :: 0 <= i < |words| ==> words[i] >= 0
    ensures |gs| == |words| && forall i :: 0 <= i < |gs| ==> gs[i] == HexText(words[i])
  {
    seq(|words|, i requires 0 <= i < |words| => HexText(words[i]))
  }

  lemma {:induction false} HexTextsAre(src: seq<int>, i: nat, j: nat)
    requires IsAddress(src) && i <= j <= 8
    ensures HexTexts(src, i, j) == Hexes(Words(src)[i..j])
    decreases j - i
  {
    if i < j {
      HexTextsAre(src, i + 1, j);
      var w := Words(src);
      assert w[i..j] == [w[i]] + w[i + 1..j];
      assert w[i] == Word(src, i);
    }
  }

  // ----- embedded IPv4 addresses -----

  /** ::a.b.c.d with a nonzero first half, or ::ffff:a.b.c.d. */
  predicate EmbedsQuad(w: seq<int>)
    requires |w| == 8
  {
    || ((forall i :: 0 <= i < 6 ==> w[i] == 0) && w[6] != 0)
    || ((forall i :: 0 <= i < 5 ==> w[i] == 0) && w[5] == 0xffff)
  }

  lemma {:induction false} EmbeddedIff(src: seq<int>, base: int, len: int)
    requires IsAddress(src) && IsBest(Words(src), base, len)
    ensures IsEmbedded(src, base, len, 6) <==> EmbedsQuad(Words(src))
    ensures EmbedsQuad(Words(src)) ==> base == 0 && len == if Words(src)[5] == 0 then 6 else 5
  {
    var w := Words(src);
    assert w[5] == Word(src, 5);
    if EmbedsQuad(w) {
      if w[5] == 0 {
        assert ZeroRun(w, 0, 6);
        assert base != -1 && ZeroRun(w, base, len) && len >= 6;
        assert base + len <= 6 || base > 6;
      } else {
        assert ZeroRun(w, 0, 5);
        assert base != -1 && ZeroRun(w, base, len) && len >= 5;
        assert base + len <= 5 || base > 5;
      }
    }
    assert ZeroRun(w, 0, 7) ==> base != -1 && len >= 7;
  }

  function Dots(b: seq<int>): string
    requires |b| == 4 && AllBytes(b)
  {
    Numeral(b[0]) + "." + Numeral(b[1]) + "." + Numeral(b[2]) + "." + Numeral(b[3])
  }

  lemma {:induction false} QuadIsDots(b: seq<int>)
    requires |b| == 4 && AllBytes(b)
    ensures QuadText(b) == Dots(b)
  {
    var os := [Numeral(b[0]), Numeral(b[1]), Numeral(b[2]), Numeral(b[3])];
    assert os[1..][1..][1..] == [os[3]];
    assert JoinDots(os[1..][1..]) == os[2] + ("." + os[3]);
    assert JoinDots(os[1..]) == os[1] + ("." + (os[2] + ("." + os[3])));
    assert JoinDots(os) == os[0] + ("." + (os[1] + ("." + (os[2] + ("." + os[3])))));
    hide Numeral, JoinDots;
  }

  // ----- the text -----

  /** The text that stands for these bytes, with their leftmost longest run of zero words given. */
  function CanonicalText(src: seq<int>, base: int, len: int): string
    requires IsAddress(src) && (base == -1 || (0 <= base && 2 <= len && base + len <= 8))
  {
    var w := Words(src);
    if EmbedsQuad(w) then (if w[5] == 0 then "::" else "::ffff:") + Dots(src[12..16])
    else if base == -1 then Joined(Hexes(w))
    else Joined(Hexes(w[..base])) + ("::" + Joined(Hexes(w[base + len..])))
  }

  lemma {:induction false} TwoColons(middle: string, end: string)
    ensures ":" + ("" + (":" + (middle + end))) == ("::" + middle) + end
  {
  }

  /** What stands between the two colons and the quad. */
  lemma {:induction false} BeforeQuad(src: seq<int>, len: int)
    requires IsAddress(src) && (len == 6 || (len == 5 && Words(src)[5] == 0xffff))
    ensures "::" + Terminated(HexTexts(src, len, 6)) == if len == 6 then "::" else "::ffff:"
  {
    FourFs();
    var g2 := HexTexts(src, len, 6);
    if len == 5 {
      assert Word(src, 5) == Words(src)[5];
      assert g2 == ["ffff"] && g2[1..] == [];
      assert Terminated(g2) == "ffff" + (":" + "") == "ffff:";
    }
    hide HexTexts, Terminated, HexText;
  }

  lemma {:induction false} EmbeddedText(src: seq<int>, base: int, len: int)
    requires IsAddress(src) && IsBest(Words(src), base, len) && EmbedsQuad(Words(src))
    ensures Text(Printed(src, base, len)) == CanonicalText(src, base, len)
  {
    EmbeddedIff(src, base, len);
    BeforeQuad(src, len);
    QuadIsDots(src[12..16]);
    TwoColons(Terminated(HexTexts(src, len, 6)), QuadText(src[12..16]));
    hide HexTexts, HexText, Dots, QuadText, IsBest, Words;
  }

  lemma {:induction false} PlainText(src: seq<int>)
    requires IsAddress(src)
    ensures forall len :: Text(Printed(src, -1, len)) == Joined(Hexes(Words(src)))
  {
    var w, last := Words(src), HexText(Word(src, 7));
    HexTextsAre(src, 0, 7);
    JoinedTerminated(HexTexts(src, 0, 7), last);
    assert HexTexts(src, 0, 7) + [last] == Hexes(w);
    Empty(last);
  }

  /** The words behind the run, joined. */
  lemma {:induction false} TailText(src: seq<int>, end: nat)
    requires IsAddress(src) && end <= 8
    ensures Joined(Hexes(Words(src)[end..])) ==
            if end == 8 then "" else Terminated(HexTexts(src, end, 7)) + HexText(Word(src, 7))
  {
    if end < 8 {
      var w, last := Words(src), HexText(Word(src, 7));
      HexTextsAre(src, end, 7);
      JoinedTerminated(HexTexts(src, end, 7), last);
      assert HexTexts(src, end, 7) + [last] == Hexes(w[end..]);
    }
  }

  /** The words before the run, and the two colons. */
  lemma {:induction false} HeadText(src: seq<int>, base: nat, rest: string)
    requires IsAddress(src) && base <= 8
    ensures (if base == 0 then ":" else "") + (Terminated(HexTexts(src, 0, base)) + (":" + rest))
         == Joined(Hexes(Words(src)[..base])) + ("::" + rest)
  {
    var g1 := HexTexts(src, 0, base);
    HexTextsAre(src, 0, base);
    assert Words(src)[0..base] == Words(src)[..base];
    if base > 0 {
      JoinedColon(g1);
    }
  }

  lemma {:induction false} CompressedText(src: seq<int>, base: int, len: int)
    requires IsAddress(src) && 0 <= base && 2 <= len && base + len <= 8 && !IsEmbedded(src, base, len, 6)
    ensures Text(Printed(src, base, len))
         == Joined(Hexes(Words(src)[..base])) + ("::" + Joined(Hexes(Words(src)[base + len..])))
  {
    var a := Printed(src, base, len);
    var rest := Terminated(a.g2) + LastText(a.last);
    TailText(src, base + len);
    HeadText(src, base, rest);
    AfterGap(src, base, len);
    assert a.g1 == HexTexts(src, 0, base) && a.gap && (a.g1 == [] <==> base == 0);
    Empty(Body(a));
    hide Printed, HexTexts, Terminated, Joined, Hexes, Words, LastText;
    assert Body(a) == Terminated(a.g1) + (":" + rest);
  }

  /** What is printed behind the gap. */
  lemma {:induction false} AfterGap(src: seq<int>, base: int, len: int)
    requires IsAddress(src) && 0 <= base && 2 <= len && base + len <= 8 && !IsEmbedded(src, base, len, 6)
    ensures Terminated(Printed(src, base, len).g2) + LastText(Printed(src, base, len).last)
         == if base + len == 8 then "" else Terminated(HexTexts(src, base + len, 7)) + HexText(Word(src, 7))
  {
  }

  /** For every address: the leftmost longest run of two or more zero words is "::", every other word is
      plain lower-case hexadecimal with a colon between neighbours, and the last two words are a dotted
      quad exactly for ::a.b.c.d with a nonzero first half and for ::ffff:a.b.c.d. */
  lemma {:induction false} TextIsCanonical(src: seq<int>, base: int, len: int)
    requires IsAddress(src) && IsBest(Words(src), base, len)
    ensures TextFrom(src, base, len, 0) == CanonicalText(src, base, len)
  {
    PrintedText(src, base, len);
    EmbeddedIff(src, base, len);
    if EmbedsQuad(Words(src)) {
      EmbeddedText(src, base, len);
    } else if base == -1 {
      PlainText(src);
    } else {
      CompressedText(src, base, len);
    }
  }

  // ----- its characters -----

  /** Lower-case hexadecimal digits and colons. */
  predicate HexAndColons(s: string) {
    forall c :: c in s ==> '0' <= c <= '9' || 'a' <= c <= 'f' || c == ':'
  }

  lemma {:induction false} JoinedChars(gs: seq<string>)
    requires forall i :: 0 <= i < |gs| ==> IsPlainHex(gs[i])
    ensures HexAndColons(Joined(gs))
  {
    if |gs| > 1 {
      JoinedChars(gs[1..]);
    }
  }

  lemma {:induction false} HexesChars(words: seq<int>)
    requires forall i :: 0 <= i < |words| ==> words[i] >= 0
    ensures HexAndColons(Joined(Hexes(words)))
  {
    forall i | 0 <= i < |words| ensures IsPlainHex(Hexes(words)[i]) {
      HexPlain(words[i]);
    }
    JoinedChars(Hexes(words));
  }

  lemma {:induction false} DotsChars(b: seq<int>)
    requires |b| == 4 && AllBytes(b)
    ensures '.' in Dots(b) && forall c :: c in Dots(b) ==> '0' <= c <= '9' || c == '.'
  {
    var s := Dots(b);
    assert s[|Numeral(b[0])|] == '.';
    assert forall n: nat, c :: c in Numeral(n) ==> IsDigit(c);
  }

  /** The characters of a text with its two colons in the middle. */
  lemma {:induction false} AroundGap(a: string, b: string)
    requires HexAndColons(a) && HexAndColons(b)
    ensures HexAndColons(a + ("::" + b))
  {
  }

  lemma {:induction false} CanonicalChars(src: seq<int>, base: int, len: int)
    requires IsAddress(src) && (base == -1 || (0 <= base && 2 <= len && base + len <= 8)) && !EmbedsQuad(Words(src))
    ensures HexAndColons(CanonicalText(src, base, len))
  {
    var w := Words(src);
    HexesChars(w);
    if base != -1 {
      HexesChars(w[..base]);
      HexesChars(w[base + len..]);
      AroundGap(Joined(Hexes(w[..base])), Joined(Hexes(w[base + len..])));
    }
    hide Joined, Hexes, HexAndColons;
  }

  lemma {:induction false} PrefixedQuadChars(prefix: string, b: seq<int>)
    requires |b| == 4 && AllBytes(b) && HexAndColons(prefix)
    ensures '.' in prefix + Dots(b)
    ensures forall c :: c in prefix + Dots(b) ==> '0' <= c <= '9' || 'a' <= c <= 'f' || c == ':' || c == '.'
  {
    DotsChars(b);
    hide Dots;
  }

  /** A dot is printed exactly for an embedded IPv4 address, and no upper-case letter ever. */
  lemma {:induction false} DotIffEmbedded(src: seq<int>, base: int, len: int)
    requires IsAddress(src) && IsBest(Words(src), base, len)
    ensures '.' in TextFrom(src, base, len, 0) <==> EmbedsQuad(Words(src))
    ensures forall c :: c in TextFrom(src, base, len, 0) ==> '0' <= c <= '9' || 'a' <= c <= 'f' || c == ':' || c == '.'
  {
    TextIsCanonical(src, base, len);
    hide TextFrom, Words, IsBest;
    if EmbedsQuad(Words(src)) {
      EmbeddedChars(src, base, len);
    } else {
      CanonicalChars(src, base, len);
      HasNoDot(CanonicalText(src, base, len));
    }
  }

  lemma {:induction false} EmbeddedChars(src: seq<int>, base: int, len: int)
    requires IsAddress(src) && (base == -1 || (0 <= base && 2 <= len && base + len <= 8)) && EmbedsQuad(Words(src))
    ensures '.' in CanonicalText(src, base, len)
    ensures forall c :: c in CanonicalText(src, base, len) ==> '0' <= c <= '9' || 'a' <= c <= 'f' || c == ':' || c == '.'
  {
    PrefixedQuadChars(if Words(src)[5] == 0 then "::" else "::ffff:", src[12..16]);
    hide Dots, HexAndColons, Words;
  }

  lemma {:induction false} HasNoDot(s: string)
    requires HexAndColons(s)
    ensures '.' !in s && forall c :: c in s ==> '0' <= c <= '9' || 'a' <= c <= 'f' || c == ':'
  {
  }

  // ----- it is a text of the RFC -----

  lemma {:induction false} ShortHexTexts(src: seq<int>, i: nat, j: nat)
    requires IsAddress(src) && i <= j <= 8
    ensures forall k :: 0 <= k < j - i ==> |HexTexts(src, i, j)[k]| <= 4
    decreases j - i
  {
    if i < j {
      HexTextLength(Word(src, i));
      ShortHexTexts(src, i + 1, j);
    }
  }

  lemma {:induction false} ShortOctets(b: seq<int>)
    requires |b| == 4 && AllBytes(b)
    ensures forall os, i :: IsDottedQuad(QuadText(b), os) && 0 <= i < 4 ==> |os[i]| <= 3
  {
    var ps := [Numeral(b[0]), Numeral(b[1]), Numeral(b[2]), Numeral(b[3])];
    forall i | 0 <= i < 4 ensures IsOctet(ps[i]) && |ps[i]| <= 3 {
      NumeralOctet(b[i]);
    }
    forall os | IsDottedQuad(QuadText(b), os) ensures os == ps {
      OctetsUnique(os, ps);
    }
  }

  lemma {:induction false} NoLongPart(src: seq<int>, base: int, len: int)
    requires IsAddress(src) && (base == -1 || (0 <= base && 2 <= len && base + len <= 8))
    ensures var a := Printed(src, base, len); !LongGroup(a) && !LongOctet(a) && !Dangling(a)
  {
    HexTextLength(Word(src, 7));
    ShortOctets(src[12..16]);
    ShortHexTexts(src, 0, 7);
    if base != -1 {
      ShortHexTexts(src, 0, base);
      if IsEmbedded(src, base, len, 6) {
        ShortHexTexts(src, len, 6);
      } else if base + len < 8 {
        ShortHexTexts(src, base + len, 7);
      }
    }
    hide HexTexts, HexText, QuadText, IsDottedQuad;
  }

  /** A run that "::" stands for leaves fewer than sixteen bytes written out. */
  lemma {:induction false} NotFull(src: seq<int>, base: int, len: int)
    requires IsAddress(src) && IsBest(Words(src), base, len)
    ensures var a := Printed(src, base, len); WellFormed(a) && !FullWithGap(a)
  {
    PrintedValue(src, base, len);
    if base != -1 {
      PrintedHead(src, base, len);
      PrintedTail(src, base, len);
      var a := Printed(src, base, len);
      assert |Bytes(a.g2) + LastBytes(a.last)| == 16 - 2 * (base + len);
    }
  }

  /** Whatever is printed is a text of the RFC. */
  lemma {:induction false} PrintedIsRfc(src: seq<int>, base: int, len: int)
    requires IsAddress(src) && IsBest(Words(src), base, len)
    ensures IsRfcText(TextFrom(src, base, len, 0))
  {
    PrintedText(src, base, len);
    PrintedValue(src, base, len);
    NoLongPart(src, base, len);
    NotFull(src, base, len);
    hide Printed, WellFormed, Fits, LongGroup, LongOctet, Dangling, FullWithGap, IsBest, TextFrom, Text;
    var f := FormOf(Printed(src, base, len));
    RfcTextIs(f);
  }
}
