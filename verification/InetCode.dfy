/** inet_pton4, inet_pton6, inet_ntop4 and inet_ntop6 as the loops over buffers that they are. */
module InetCode {
  import opened SeqFacts
  import opened Wrappers
  import opened Decimal
  import opened InetText
  import opened InetGrammar
  import opened InetPrinter
  import opened InetCanonical

  method InetPton4(src: string) returns (dst: Option<seq<int>>)
    ensures dst == Pton4(src)
  {
    var tmp := new int[4](_ => 0);
    var tp, octets, sawDigit := 0, 0, false;
    var i := 0;
    while i < |src|
      invariant 0 <= i <= |src| && 0 <= tp < 4
      invariant octets == tp + (if sawDigit then 1 else 0)
      invariant 0 <= tmp[tp] <= 255 && (!sawDigit ==> tmp[tp] == 0)
      invariant Quad(src[i..], tmp[..tp], tmp[tp], sawDigit) == Pton4(src)
    {
      var ch := src[i];
      ghost var rest := src[i..];
      assert rest[1..] == src[i + 1..];
      i := i + 1;
      if IsDigit(ch) {
        var n := tmp[tp] * 10 + DigitValue(ch);
        if n > 255 {
          return None;
        }
        ghost var done := tmp[..tp];
        tmp[tp] := n;
        assert tmp[..tp] == done;
        if !sawDigit {
          octets := octets + 1;
          if octets > 4 {
            return None;
          }
          sawDigit := true;
        }
      } else if ch == '.' && sawDigit {
        if octets == 4 {
          return None;
        }
        ghost var done := tmp[..tp] + [tmp[tp]];
        tp := tp + 1;
        tmp[tp] := 0;
        assert tmp[..tp] == done;
        sawDigit := false;
      } else {
        return None;
      }
    }
    if octets < 4 {
      return None;
    }
    assert tmp[..] == tmp[..tp] + [tmp[tp]];
    dst := Some(tmp[..]);
  }

  /** The shift of inet_pton.c:210-217, in place: the bytes tmp[colonp..tp] go to the end. */
  method ShiftTail(tmp: array<int>, colonp: nat, tp: nat)
    requires tmp.Length == 16 && colonp <= tp <= 16
    requires forall j :: tp <= j < 16 ==> tmp[j] == 0
    modifies tmp
    ensures tmp[..] == Shifted(old(tmp[..tp]), colonp)
  {
    ghost var out := tmp[..tp];
    var n := tp - colonp;
    var i := 1;
    while i <= n
      invariant 1 <= i <= n + 1
      invariant forall j :: 0 <= j < tp - (i - 1) ==> tmp[j] == out[j]
      invariant forall j :: tp - (i - 1) <= j < 16 - (i - 1) ==> tmp[j] == 0
      invariant forall j :: 16 - (i - 1) <= j < 16 ==> tmp[j] == if tp == 16 then 0 else out[j - (16 - tp)]
    {
      tmp[16 - i] := tmp[colonp + n - i];
      tmp[colonp + n - i] := 0;
      i := i + 1;
    }
    assert forall j :: 0 <= j < 16 ==> tmp[j] == Shifted(out, colonp)[j];
  }

  /** Storing a finished group as two bytes. */
  method StoreWord(tmp: array<int>, tp: nat, val: nat)
    requires tmp.Length == 16 && tp + 2 <= 16 && val <= 0xffff
    requires forall j :: tp <= j < 16 ==> tmp[j] == 0
    modifies tmp
    ensures tmp[..tp + 2] == old(tmp[..tp]) + WordBytes(val)
    ensures forall j :: tp + 2 <= j < 16 ==> tmp[j] == 0
  {
    tmp[tp] := val / 256;
    tmp[tp + 1] := val % 256;
  }

  /** The end of inet_pton6 after the loop, on the stored bytes. */
  method FinishAddress(tmp: array<int>, tp0: nat, colonp: int, sawXdigit: bool, val: nat)
    returns (dst: Option<seq<int>>)
    requires tmp.Length == 16 && tp0 <= 16 && val <= 0xffff && -1 <= colonp <= tp0
    requires forall j :: tp0 <= j < 16 ==> tmp[j] == 0
    modifies tmp
    ensures dst == Finish(Scan(old(tmp[..tp0]), colonp, sawXdigit, val))
  {
    var tp := tp0;
    if sawXdigit {
      if tp + 2 > 16 {
        return None;
      }
      StoreWord(tmp, tp, val);
      tp := tp + 2;
    }
    if colonp != -1 {
      ShiftTail(tmp, colonp, tp);
      tp := 16;
    }
    if tp != 16 {
      return None;
    }
    assert tmp[..16] == tmp[..];
    dst := Some(tmp[..]);
  }

  method InetPton6(src: string) returns (dst: Option<seq<int>>)
    ensures dst == Pton6(src)
  {
    var tmp := new int[16](_ => 0);
    var tp, colonp, saw, val := 0, -1, false, 0;
    var i := 0;
    if src != [] && src[0] == ':' {
      i := 1;
      if |src| == 1 || src[1] != ':' {
        return None;
      }
    }
    var curtok := i;
    ghost var all := ScanGroups(src[i..], src[i..], FRESH);
    assert src[0..] == src;
    assert Pton6(src) == if all.None? then None else Finish(all.value);
    assert tmp[..tp] == [];
    while i < |src|
      invariant 0 <= curtok <= i <= |src| && 0 <= tp <= 16 && -1 <= colonp <= tp && 0 <= val <= 0xffff
      invariant forall j :: tp <= j < 16 ==> tmp[j] == 0
      invariant ScanGroups(src[i..], src[curtok..], Scan(tmp[..tp], colonp, saw, val)) == all
    {
      var ch := src[i];
      ghost var rest := src[i..];
      assert rest[0] == ch && rest[1..] == src[i + 1..];
      i := i + 1;
      if IsHex(ch) {
        val := val * 16 + HexDigit(ch);
        if val > 0xffff {
          return None;
        }
        saw := true;
        continue;
      }
      if ch == ':' {
        curtok := i;
        if !saw {
          if colonp != -1 {
            return None;
          }
          colonp := tp;
          continue;
        }
        if tp + 2 > 16 {
          return None;
        }
        StoreWord(tmp, tp, val);
        tp := tp + 2;
        saw, val := false, 0;
        continue;
      }
      if ch == '.' && tp + 4 <= 16 {
        var quad := InetPton4(src[curtok..]);
        if quad.Some? {
          StoreQuad(tmp, tp, src[curtok..], quad.value);
          tp := tp + 4;
          saw := false;
          assert all == Some(Scan(tmp[..tp], colonp, saw, val));
          dst := FinishAddress(tmp, tp, colonp, saw, val);
          return;
        }
      }
      return None;
    }
    assert src[i..] == [];
    dst := FinishAddress(tmp, tp, colonp, saw, val);
  }

  /** inet_pton4 writing its four bytes at tp. */
  method StoreQuad(tmp: array<int>, tp: nat, text: string, quad: seq<int>)
    requires tmp.Length == 16 && tp + 4 <= 16 && Pton4(text) == Some(quad)
    requires forall j :: tp <= j < 16 ==> tmp[j] == 0
    modifies tmp
    ensures tmp[..tp + 4] == old(tmp[..tp]) + quad
    ensures forall j :: tp + 4 <= j < 16 ==> tmp[j] == 0
  {
    Pton4Bytes(text);
    for k := 0 to 4
      invariant forall j :: 0 <= j < tp ==> tmp[j] == old(tmp[j])
      invariant forall j :: 0 <= j < k ==> tmp[tp + j] == quad[j]
      invariant forall j :: tp + 4 <= j < 16 ==> tmp[j] == 0
    {
      tmp[tp + k] := quad[k];
    }
  }

  /** inet_ntop4; `written` counts the bytes that strcpy stores. They fit the size that was given except
      when the text is exactly that long: the test forgets the terminator. */
  method InetNtop4(src: seq<int>, size: nat) returns (dst: Option<string>, written: nat)
    requires |src| == 4 && AllBytes(src)
    ensures dst == if |QuadText(src)| > size then None else Some(QuadText(src))
    ensures dst.Some? ==> dst.value == Dots(src)
    ensures written == if dst.Some? then |QuadText(src)| + 1 else 0
    ensures written <= size <==> |QuadText(src)| != size
  {
    var tmp := QuadText(src);
    QuadIsDots(src);
    if |tmp| > size {
      return None, 0;
    }
    dst, written := Some(tmp), |tmp| + 1;
  }

  /** 0.0.0.0 into seven bytes: the call succeeds and writes eight. */
  method OneByteTooMany() returns (dst: Option<string>, written: nat)
    ensures dst == Some("0.0.0.0") && written == 8
  {
    var zero := [0, 0, 0, 0];
    ghost var os := ["0", "0", "0", "0"];
    assert Numeral(0) == "0";
    assert os[1..][1..][1..] == ["0"];
    assert JoinDots(os[1..][1..]) == "0.0";
    assert JoinDots(os[1..]) == "0.0.0";
    assert QuadText(zero) == JoinDots(os) == "0.0.0.0";
    dst, written := InetNtop4(zero, 7);
  }

  /** The words of the address (inet_ntop.c:138-140). */
  method LoadWords(src: seq<int>) returns (words: array<int>)
    requires IsAddress(src)
    ensures fresh(words) && words[..] == Words(src)
  {
    words := new int[8](_ => 0);
    var i := 0;
    while i < 16
      invariant 0 <= i <= 16
      invariant forall k :: 0 <= k < 8 ==>
        words[k] == if 2 * k + 1 < i then Word(src, k) else if 2 * k < i then src[2 * k] * 256 else 0
    {
      words[i / 2] := words[i / 2] + (if i % 2 == 0 then src[i] * 256 else src[i]);
      i := i + 1;
    }
  }

  /** Every zero run that ends by n is no better than (base, len), and (base, len) is one. */
  ghost predicate BestBy(w: seq<int>, n: int, base: int, len: int) {
    && (base != -1 ==> ZeroRun(w, base, len) && base + len <= n)
    && forall b, l :: ZeroRun(w, b, l) && b + l <= n ==> base != -1 && (l < len || (l == len && base <= b))
  }

  /** Taking a finished run into account (inet_ntop.c:151-152). */
  lemma {:induction false} BetterRun(w: seq<int>, base: int, len: int, curBase: int, i: int)
    requires BestBy(w, curBase, base, len) && 0 <= curBase < i <= |w|
    requires ZeroRun(w, curBase, i - curBase) && (curBase == 0 || w[curBase - 1] != 0)
    ensures if base == -1 || i - curBase > len then BestBy(w, i, curBase, i - curBase) else BestBy(w, i, base, len)
  {
    assert forall b, l :: ZeroRun(w, b, l) && b + l <= i && b + l > curBase ==> curBase <= b;
  }

  /** The leftmost longest zero run (inet_ntop.c:141-162). */
  method FindBest(words: array<int>) returns (base: int, len: int)
    ensures IsBest(words[..], base, len)
  {
    ghost var w := words[..];
    base, len := -1, 0;
    var curBase, curLen := -1, 0;
    for i := 0 to words.Length
      invariant w == words[..]
      invariant curBase == -1 ==> (i == 0 || w[i - 1] != 0) && BestBy(w, i, base, len)
      invariant curBase != -1 ==>
        && ZeroRun(w, curBase, curLen) && curBase + curLen == i
        && (curBase == 0 || w[curBase - 1] != 0) && BestBy(w, curBase, base, len)
    {
      if words[i] == 0 {
        if curBase == -1 {
          curBase, curLen := i, 1;
        } else {
          curLen := curLen + 1;
        }
      } else {
        if curBase != -1 {
          BetterRun(w, base, len, curBase, i);
          if base == -1 || curLen > len {
            base, len := curBase, curLen;
          }
          curBase := -1;
        }
        assert w[i] != 0;
        assert forall b, l :: ZeroRun(w, b, l) && b + l <= i + 1 ==> b + l <= i;
      }
    }
    if curBase != -1 {
      BetterRun(w, base, len, curBase, words.Length);
      if base == -1 || curLen > len {
        base, len := curBase, curLen;
      }
    }
    if base != -1 && len < 2 {
      base := -1;
    }
  }

  function Separator(i: nat): string {
    if i != 0 then ":" else ""
  }

  /** One turn of the formatting loop, after `tmp` has been written. */
  lemma {:induction false} FormatStep(src: seq<int>, base: int, len: int, i: nat, tmp: string)
    requires IsAddress(src) && i < 8
    ensures var all := tmp + TextFrom(src, base, len, i);
            if InRun(base, len, i) then (tmp + if i == base then ":" else "") + TextFrom(src, base, len, i + 1) == all
            else if IsEmbedded(src, base, len, i) then tmp + Separator(i) + QuadText(src[12..16]) == all
            else tmp + Separator(i) + HexText(Word(src, i)) + TextFrom(src, base, len, i + 1) == all
  {
    var rest := TextFrom(src, base, len, i + 1);
    if InRun(base, len, i) {
      Regroup(tmp, if i == base then ":" else "", rest);
    } else if IsEmbedded(src, base, len, i) {
      Regroup(tmp, Separator(i), QuadText(src[12..16]));
    } else {
      Regroup(tmp + Separator(i), HexText(Word(src, i)), rest);
      Regroup(tmp, Separator(i), HexText(Word(src, i)) + rest);
    }
  }

  /** The body of the formatting loop; `last` is its break. */
  method FormatWord(src: seq<int>, words: array<int>, base: int, len: int, i: nat, tmp: string)
    returns (out: string, last: bool)
    requires IsAddress(src) && words[..] == Words(src) && i < 8
    requires |tmp| + |TextFrom(src, base, len, i)| + 1 <= 46
    ensures tmp + TextFrom(src, base, len, i) == if last then out else out + TextFrom(src, base, len, i + 1)
    ensures last ==> base == -1 || base + len != 8
  {
    FormatStep(src, base, len, i, tmp);
    assert words[i] == Words(src)[i] && words[5] == Words(src)[5];
    if base != -1 && base <= i < base + len {
      return tmp + (if i == base then ":" else ""), false;
    }
    out := tmp + (if i != 0 then ":" else "");
    if i == 6 && base == 0 && (len == 6 || (len == 5 && words[5] == 0xffff)) {
      var quad, written := InetNtop4(src[12..16], 46 - |out|);
      assert written <= 46 - |out|;
      return out + quad.value, true;
    }
    return out + HexText(words[i]), false;
  }

  /** The formatting loop (inet_ntop.c:167-192). */
  method FormatWords(src: seq<int>, words: array<int>, base: int, len: int) returns (tmp: string)
    requires IsAddress(src) && words[..] == Words(src)
    ensures tmp == TextFrom(src, base, len, 0)
  {
    tmp := "";
    var i, last := 0, false;
    ghost var all := TextFrom(src, base, len, 0);
    Empty(all);
    TextFits(src, base, len, 0);
    while i < 8 && !last
      invariant 0 <= i <= 8
      invariant !last ==> tmp + TextFrom(src, base, len, i) == all
      invariant last ==> tmp == all && (base == -1 || base + len != 8)
      decreases 8 - i, !last
    {
      tmp, last := FormatWord(src, words, base, len, i, tmp);
      i := if last then i else i + 1;
    }
    if base != -1 && base + len == 8 {
      tmp := tmp + ":";
    } else {
      Empty(tmp);
    }
  }

  /** inet_ntop6: the text of the address with its leftmost longest zero run compressed. */
  method InetNtop6(src: seq<int>, size: nat) returns (dst: Option<string>, ghost base: int, ghost len: int)
    requires IsAddress(src)
    ensures IsBest(Words(src), base, len)
    ensures dst == if |TextFrom(src, base, len, 0)| + 1 > size then None else Some(TextFrom(src, base, len, 0))
    ensures dst.Some? ==> dst.value == CanonicalText(src, base, len)
    ensures size >= 46 ==> dst.Some?
  {
    var words := LoadWords(src);
    var b, l := FindBest(words);
    base, len := b, l;
    TextFits(src, b, l, 0);
    TextIsCanonical(src, b, l);
    var tmp := FormatWords(src, words, b, l);
    if |tmp| + 1 > size {
      return None, b, l;
    }
    dst := Some(tmp);
  }

  /** Printing into a 46-byte buffer and parsing gives the address back. */
  method PrintThenParse(src: seq<int>) returns (r: Option<seq<int>>)
    requires IsAddress(src)
    ensures r == Some(src)
  {
    var text, base, len := InetNtop6(src, 46);
    RoundTrip(src, base, len);
    r := InetPton6(text.value);
  }
}
