/** Exactly which texts inet_pton6 accepts, and what it makes of them. */
module InetGrammar {
  import opened SeqFacts
  import opened Wrappers
  import opened Decimal
  import opened InetText

  /** How an address text ends: after a colon, with a group, or with a dotted quad. */
  datatype Last = Nothing | Group(text: string) | Dotted(text: string)

  /** groups ":" ... ["::"] groups ":" ... last. Without a gap g2 is empty. */
  datatype Address = Address(g1: seq<string>, gap: bool, g2: seq<string>, last: Last)

  function Terminated(gs: seq<string>): string {
    if gs == [] then "" else gs[0] + (":" + Terminated(gs[1..]))
  }

  function LastText(last: Last): string {
    if last.Nothing? then "" else last.text
  }

  function Mark(gap: bool): string {
    if gap then ":" else ""
  }

  /** The text from the point where the loop starts. */
  function Body(a: Address): string {
    Terminated(a.g1) + (Mark(a.gap) + (Terminated(a.g2) + LastText(a.last)))
  }

  /** A leading "::" has a colon of its own; elsewhere the first colon ends a group. */
  function Text(a: Address): string {
    if a.gap && a.g1 == [] then ":" + Body(a) else Body(a)
  }

  predicate WellFormed(a: Address) {
    && AllGroups(a.g1) && AllGroups(a.g2) && (!a.gap ==> a.g2 == [])
    && (a.last.Group? ==> IsGroup(a.last.text))
    && (a.last.Dotted? ==> Pton4(a.last.text).Some?)
  }

  function Bytes(gs: seq<string>): (b: seq<int>)
    requires AllGroups(gs)
    ensures |b| == 2 * |gs|
  {
    if gs == [] then [] else WordBytes(HexValue(gs[0])) + Bytes(gs[1..])
  }

  function LastBytes(last: Last): seq<int>
    requires last.Group? ==> IsGroup(last.text)
    requires last.Dotted? ==> Pton4(last.text).Some?
  {
    match last
    case Nothing => []
    case Group(g) => WordBytes(HexValue(g))
    case Dotted(t) => Pton4(t).value
  }

  function AllOut(a: Address): seq<int>
    requires WellFormed(a)
  {
    Bytes(a.g1) + Bytes(a.g2) + LastBytes(a.last)
  }

  /** Sixteen bytes without "::", at most sixteen with it. */
  predicate Fits(a: Address)
    requires WellFormed(a)
  {
    if a.gap then |AllOut(a)| <= 16 else |AllOut(a)| == 16
  }

  /** The bytes the address stands for. */
  function Value(a: Address): seq<int>
    requires WellFormed(a) && Fits(a)
  {
    if a.gap then Shifted(AllOut(a), 2 * |a.g1|) else AllOut(a)
  }

  lemma {:induction false} ColonHead(s: string)
    requires s != [] && s[0] == ':'
    ensures s == ":" + s[1..]
  {
  }

  // ----- reading groups -----

  lemma {:induction false} HexGrows(s: string, acc: nat)
    requires AllHex(s)
    ensures HexFrom(s, acc) >= acc
  {
    if s != [] {
      HexGrows(s[1..], acc * 16 + HexDigit(s[0]));
    }
  }

  /** Reading hex digits only accumulates the value. */
  lemma {:induction false} ScanHex(g: string, rest: string, tok: string, st: Scan)
    requires AllHex(g) && g != [] && HexFrom(g, st.val) <= 0xffff
    ensures ScanGroups(g + rest, tok, st) == ScanGroups(rest, tok, st.(saw := true, val := HexFrom(g, st.val)))
  {
    var s := g + rest;
    var v := st.val * 16 + HexDigit(g[0]);
    assert s[1..] == g[1..] + rest;
    HexGrows(g[1..], v);
    if |g| > 1 {
      ScanHex(g[1..], rest, tok, st.(saw := true, val := v));
    } else {
      assert s[1..] == rest;
    }
  }

  /** A group and its colon store two bytes, when there is room. */
  lemma {:induction false} ScanGroup(g: string, rest: string, st: Scan)
    requires IsGroup(g) && !st.saw && st.val == 0
    ensures var s := g + (":" + rest);
            ScanGroups(s, s, st) ==
            if |st.out| + 2 > 16 then None
            else ScanGroups(rest, rest, st.(out := st.out + WordBytes(HexValue(g))))
  {
    var s := g + (":" + rest);
    ScanHex(g, ":" + rest, s, st);
    assert (":" + rest)[1..] == rest;
  }

  lemma {:induction false} ScanTerminated(gs: seq<string>, rest: string, st: Scan)
    requires AllGroups(gs) && !st.saw && st.val == 0 && |st.out| <= 16
    ensures var s := Terminated(gs) + rest;
            ScanGroups(s, s, st) ==
            if |st.out| + 2 * |gs| > 16 then None
            else ScanGroups(rest, rest, st.(out := st.out + Bytes(gs)))
  {
    if gs == [] {
      Empty(rest);
      assert st.out + Bytes(gs) == st.out;
    } else {
      var more := Terminated(gs[1..]) + rest;
      Regroup(gs[0], ":" + Terminated(gs[1..]), rest);
      Regroup(":", Terminated(gs[1..]), rest);
      ScanGroup(gs[0], more, st);
      if |st.out| + 2 <= 16 {
        var st1 := st.(out := st.out + WordBytes(HexValue(gs[0])));
        ScanTerminated(gs[1..], rest, st1);
        Regroup(st.out, WordBytes(HexValue(gs[0])), Bytes(gs[1..]));
      }
    }
  }

  // ----- reading the end -----

  /** The digits of a decimal octet, taken as hex on the way to its dot, never overflow a group. */
  ghost predicate DigitsFit(dec: nat, hex: nat) {
    && (dec == 0 ==> hex == 0) && (dec < 10 ==> hex <= 9) && (dec < 100 ==> hex <= 153) && (dec < 1000 ==> hex <= 2457)
  }

  lemma {:induction false} OctetFits(d: string, dec: nat, hex: nat)
    requires AllDigits(d) && DigitsFit(dec, hex) && ScanDigits(d, dec).0 <= 255
    ensures AllHex(d) && HexFrom(d, hex) <= 2457
  {
    if d != [] {
      ScanGrows(d[1..], dec * 10 + DigitValue(d[0]));
      OctetFits(d[1..], dec * 10 + DigitValue(d[0]), hex * 16 + DigitValue(d[0]));
    } else {
      ScanGrows(d, dec);
    }
  }

  lemma {:induction false} ScanDotted(t: string, st: Scan)
    requires Pton4(t).Some? && !st.saw && st.val == 0
    ensures |st.out| + 4 > 16 ==> ScanGroups(t, t, st).None?
    ensures |st.out| + 4 <= 16 ==>
              exists v: nat :: ScanGroups(t, t, st) == Some(Scan(st.out + Pton4(t).value, st.colon, false, v))
  {
    Pton4Exact(t, Pton4(t).value);
    var os :| IsDottedQuad(t, os);
    var rest := "." + JoinDots(os[1..]);
    assert t == os[0] + rest;
    OctetFits(os[0], 0, 0);
    ScanHex(os[0], rest, t, st);
  }

  ghost predicate Ends(r: Option<Scan>, out: seq<int>, colon: int, last: Last)
    requires last.Group? ==> IsGroup(last.text)
    requires last.Dotted? ==> Pton4(last.text).Some?
  {
    if last.Dotted? then
      if |out| + 4 > 16 then r.None? else exists v: nat :: r == Some(Scan(out + LastBytes(last), colon, false, v))
    else r == Some(Scan(out, colon, last.Group?, if last.Group? then HexValue(last.text) else 0))
  }

  lemma {:induction false} ScanLast(last: Last, st: Scan)
    requires last.Group? ==> IsGroup(last.text)
    requires last.Dotted? ==> Pton4(last.text).Some?
    requires !st.saw && st.val == 0
    ensures Ends(ScanGroups(LastText(last), LastText(last), st), st.out, st.colon, last)
  {
    match last
    case Nothing =>
    case Group(g) =>
      assert g + [] == g;
      ScanHex(g, [], g, st);
    case Dotted(t) =>
      ScanDotted(t, st);
      if |st.out| + 4 <= 16 {
        var v: nat :| ScanGroups(t, t, st) == Some(Scan(st.out + Pton4(t).value, st.colon, false, v));
        assert ScanGroups(LastText(last), LastText(last), st) == Some(Scan(st.out + LastBytes(last), st.colon, false, v));
      }
  }

  // ----- reading a whole address -----

  lemma {:induction false} ScanGap(rest: string, st: Scan)
    requires !st.saw && st.colon == -1
    ensures ScanGroups(":" + rest, ":" + rest, st) == ScanGroups(rest, rest, st.(colon := |st.out|))
  {
    assert (":" + rest)[1..] == rest;
  }

  ghost predicate Reads(r: Option<Scan>, a: Address)
    requires WellFormed(a)
  {
    if 2 * |a.g1| + 2 * |a.g2| > 16 then r.None?
    else Ends(r, Bytes(a.g1) + Bytes(a.g2), if a.gap then 2 * |a.g1| else -1, a.last)
  }

  lemma {:induction false} ScanBody(a: Address)
    requires WellFormed(a)
    ensures Reads(ScanGroups(Body(a), Body(a), FRESH), a)
  {
    var tail := Terminated(a.g2) + LastText(a.last);
    var rest := Mark(a.gap) + tail;
    ScanTerminated(a.g1, rest, FRESH);
    if 2 * |a.g1| <= 16 {
      assert FRESH.out + Bytes(a.g1) == Bytes(a.g1);
      var st1 := FRESH.(out := Bytes(a.g1));
      if a.gap {
        ScanGap(tail, st1);
        var st2 := st1.(colon := 2 * |a.g1|);
        ScanTerminated(a.g2, LastText(a.last), st2);
        ScanLast(a.last, st2.(out := Bytes(a.g1) + Bytes(a.g2)));
      } else {
        assert rest == LastText(a.last);
        assert Bytes(a.g1) + Bytes(a.g2) == Bytes(a.g1);
        ScanLast(a.last, st1);
      }
    }
  }

  lemma {:induction false} FinishReads(r: Option<Scan>, a: Address)
    requires WellFormed(a) && Reads(r, a)
    ensures (if r.None? then None else Finish(r.value)) == (if Fits(a) then Some(Value(a)) else None)
  {
    if a.last.Dotted? {
      Pton4Bytes(a.last.text);
    }
    var out := Bytes(a.g1) + Bytes(a.g2);
    if a.last.Nothing? {
      assert out + [] == out;
    }
  }

  lemma {:induction false} TerminatedHead(gs: seq<string>)
    requires AllGroups(gs) && gs != []
    ensures Terminated(gs) != [] && IsHex(Terminated(gs)[0])
  {
  }

  lemma {:induction false} BodyHead(a: Address)
    requires WellFormed(a)
    ensures (Body(a) != [] && Body(a)[0] == ':') <==> (a.gap && a.g1 == [])
  {
    if a.g1 != [] {
      TerminatedHead(a.g1);
    } else if !a.gap {
      assert Body(a) == LastText(a.last);
      if a.last.Dotted? {
        Pton4Exact(a.last.text, Pton4(a.last.text).value);
        var os :| IsDottedQuad(a.last.text, os);
        assert a.last.text[0] == os[0][0];
      }
    }
  }

  /** On every address text the parser returns its value when it fits, and 0 otherwise. */
  lemma {:induction false} Pton6Reads(a: Address)
    requires WellFormed(a)
    ensures Pton6(Text(a)) == if Fits(a) then Some(Value(a)) else None
  {
    BodyHead(a);
    ScanBody(a);
    FinishReads(ScanGroups(Body(a), Body(a), FRESH), a);
    if a.gap && a.g1 == [] {
      assert Text(a)[1..] == Body(a);
    }
  }

  // ----- nothing else is accepted -----

  lemma {:induction false} HexSnoc(s: string, c: char, acc: nat)
    requires AllHex(s) && IsHex(c)
    ensures AllHex(s + [c]) && HexFrom(s + [c], acc) == HexFrom(s, acc) * 16 + HexDigit(c)
  {
    if s != [] {
      assert (s + [c])[1..] == s[1..] + [c];
      HexSnoc(s[1..], c, acc * 16 + HexDigit(s[0]));
    }
  }

  lemma {:induction false} TerminatedSnoc(gs: seq<string>, g: string)
    ensures Terminated(gs + [g]) == Terminated(gs) + (g + ":")
  {
    if gs == [] {
      assert gs + [g] == [g] && [g][1..] == [];
      assert Terminated([g]) == g + (":" + Terminated([]));
    } else {
      assert (gs + [g])[1..] == gs[1..] + [g];
      TerminatedSnoc(gs[1..], g);
    }
  }

  lemma {:induction false} BytesSnoc(gs: seq<string>, g: string)
    requires AllGroups(gs) && IsGroup(g)
    ensures AllGroups(gs + [g]) && Bytes(gs + [g]) == Bytes(gs) + WordBytes(HexValue(g))
  {
    if gs == [] {
      assert gs + [g] == [g] && [g][1..] == [];
    } else {
      assert (gs + [g])[1..] == gs[1..] + [g];
      BytesSnoc(gs[1..], g);
    }
  }

  /** The loop state after reading the groups of `a` and the digits `cur` of the next one. */
  ghost predicate HasScanned(a: Address, cur: string, st: Scan) {
    && WellFormed(a) && a.last.Nothing?
    && st.out == Bytes(a.g1) + Bytes(a.g2) && |st.out| <= 16
    && st.colon == (if a.gap then 2 * |a.g1| else -1)
    && AllHex(cur) && st.val == HexValue(cur) <= 0xffff && st.saw == (cur != [])
  }

  /** One more finished group, after the gap when there is one. */
  function WithGroup(a: Address, g: string): Address {
    if a.gap then a.(g2 := a.g2 + [g]) else a.(g1 := a.g1 + [g])
  }

  lemma {:induction false} WithGroupText(a: Address, g: string)
    requires WellFormed(a) && a.last.Nothing?
    ensures Body(WithGroup(a, g)) == Body(a) + (g + ":")
  {
    var end := Terminated(a.g2) + "";
    if a.gap {
      TerminatedSnoc(a.g2, g);
      assert Terminated(a.g2 + [g]) + "" == end + (g + ":");
    } else {
      TerminatedSnoc(a.g1, g);
      assert Body(a) == Terminated(a.g1);
    }
  }

  lemma {:induction false} WithGroupScanned(a: Address, g: string, st: Scan)
    requires HasScanned(a, g, st) && g != [] && |st.out| + 2 <= 16
    ensures HasScanned(WithGroup(a, g), [], Scan(st.out + WordBytes(st.val), st.colon, false, 0))
  {
    if a.gap {
      BytesSnoc(a.g2, g);
      assert st.out + WordBytes(st.val) == Bytes(a.g1) + (Bytes(a.g2) + WordBytes(st.val));
    } else {
      BytesSnoc(a.g1, g);
      assert st.out == Bytes(a.g1);
      assert Bytes(a.g1 + [g]) + Bytes([]) == Bytes(a.g1 + [g]);
    }
  }

  lemma {:induction false} WithGapScanned(a: Address, st: Scan)
    requires HasScanned(a, [], st) && !a.gap
    ensures HasScanned(a.(gap := true), [], st.(colon := |st.out|))
    ensures Body(a.(gap := true)) == Body(a) + ":"
  {
  }

  lemma {:induction false} EndText(a: Address, last: Last)
    requires a.last.Nothing?
    ensures Body(a.(last := last)) == Body(a) + LastText(last)
  {
    var t := LastText(last);
    Empty(Terminated(a.g2));
    Regroup(Mark(a.gap), Terminated(a.g2), t);
    Regroup(Terminated(a.g1), Mark(a.gap) + Terminated(a.g2), t);
  }

  lemma {:induction false} LastScanned(a: Address, cur: string, st: Scan, last: Last)
    requires HasScanned(a, cur, st)
    requires last == if cur == [] then Nothing else Group(cur)
    ensures WellFormed(a.(last := last)) && Reads(Some(st), a.(last := last))
    ensures Body(a.(last := last)) == Body(a) + cur
  {
    EndText(a, last);
  }

  lemma {:induction false} QuadScanned(a: Address, cur: string, st: Scan, t: string)
    requires HasScanned(a, cur, st) && Pton4(t).Some? && |st.out| + 4 <= 16
    ensures WellFormed(a.(last := Dotted(t)))
    ensures Reads(Some(st.(out := st.out + Pton4(t).value, saw := false)), a.(last := Dotted(t)))
  {
    var a' := a.(last := Dotted(t));
    assert Some(st.(out := st.out + Pton4(t).value, saw := false))
        == Some(Scan(Bytes(a'.g1) + Bytes(a'.g2) + LastBytes(a'.last), st.colon, false, st.val));
  }

  /** The loop from this point on reads the address r. */
  ghost predicate Recovered(s: string, a: Address, cur: string, st: Scan, r: Address) {
    WellFormed(r) && Reads(ScanGroups(s, cur + s, st), r) && Body(r) == Body(a) + (cur + s)
  }

  lemma {:induction false} RecoverHex(s: string, a: Address, cur: string, st: Scan, r: Address)
    requires s != [] && IsHex(s[0]) && st.val * 16 + HexDigit(s[0]) <= 0xffff
    requires Recovered(s[1..], a, cur + [s[0]], st.(saw := true, val := st.val * 16 + HexDigit(s[0])), r)
    ensures Recovered(s, a, cur, st, r)
  {
    hide Body, Reads, WellFormed;
    assert s == [s[0]] + s[1..];
    Regroup(cur, [s[0]], s[1..]);
  }

  lemma {:induction false} RecoverGap(s: string, a: Address, st: Scan, r: Address)
    requires s != [] && s[0] == ':' && HasScanned(a, [], st) && !a.gap
    requires Recovered(s[1..], a.(gap := true), [], st.(colon := |st.out|), r)
    ensures Recovered(s, a, [], st, r)
  {
    WithGapScanned(a, st);
    Empty(s[1..]);
    Empty(s);
    ColonHead(s);
    Regroup(Body(a), ":", s[1..]);
  }

  lemma {:induction false} RecoverGroup(s: string, a: Address, cur: string, st: Scan, r: Address)
    requires s != [] && s[0] == ':' && HasScanned(a, cur, st) && cur != [] && |st.out| + 2 <= 16
    requires Recovered(s[1..], WithGroup(a, cur), [], Scan(st.out + WordBytes(st.val), st.colon, false, 0), r)
    ensures Recovered(s, a, cur, st, r)
  {
    WithGroupText(a, cur);
    Empty(s[1..]);
    ColonHead(s);
    Regroup(Body(a), cur + ":", s[1..]);
    Regroup(cur, ":", s[1..]);
  }

  /** A loop that does not return 0 has read an address. */
  lemma {:induction false} Recover(s: string, a: Address, cur: string, st: Scan) returns (r: Address)
    requires HasScanned(a, cur, st) && ScanGroups(s, cur + s, st).Some?
    ensures Recovered(s, a, cur, st, r)
    decreases |s|
  {
    if s == [] {
      assert cur + s == cur;
      var last := if cur == [] then Nothing else Group(cur);
      LastScanned(a, cur, st, last);
      r := a.(last := last);
    } else if IsHex(s[0]) {
      HexSnoc(cur, s[0], 0);
      assert cur + s == (cur + [s[0]]) + s[1..];
      r := Recover(s[1..], a, cur + [s[0]], st.(saw := true, val := st.val * 16 + HexDigit(s[0])));
      RecoverHex(s, a, cur, st, r);
    } else if s[0] == ':' && cur == [] {
      WithGapScanned(a, st);
      Empty(s[1..]);
      r := Recover(s[1..], a.(gap := true), [], st.(colon := |st.out|));
      RecoverGap(s, a, st, r);
    } else if s[0] == ':' {
      WithGroupScanned(a, cur, st);
      Empty(s[1..]);
      r := Recover(s[1..], WithGroup(a, cur), [], Scan(st.out + WordBytes(st.val), st.colon, false, 0));
      RecoverGroup(s, a, cur, st, r);
    } else {
      QuadScanned(a, cur, st, cur + s);
      EndText(a, Dotted(cur + s));
      r := a.(last := Dotted(cur + s));
    }
  }

  ghost predicate Denotes(a: Address, s: string, b: seq<int>) {
    WellFormed(a) && Fits(a) && Text(a) == s && Value(a) == b
  }

  /** inet_pton6 returns 1 with the bytes b exactly for the address texts that denote b. */
  lemma {:induction false} Pton6Exact(s: string, b: seq<int>)
    ensures Pton6(s) == Some(b) <==> exists a :: Denotes(a, s, b)
  {
    if a :| Denotes(a, s, b) {
      Pton6Reads(a);
    }
    if Pton6(s) == Some(b) {
      var a := RecoverAddress(s, b);
    }
  }

  lemma {:induction false} RecoverBody(body: string) returns (a: Address)
    requires ScanGroups(body, body, FRESH).Some?
    ensures WellFormed(a) && Body(a) == body && Reads(ScanGroups(body, body, FRESH), a)
  {
    var none := Address([], false, [], Nothing);
    Empty(body);
    a := Recover(body, none, [], FRESH);
    assert Body(none) == [];
  }

  lemma {:induction false} RecoverAddress(s: string, b: seq<int>) returns (a: Address)
    requires Pton6(s) == Some(b)
    ensures Denotes(a, s, b)
  {
    var body := if s != [] && s[0] == ':' then s[1..] else s;
    a := RecoverBody(body);
    FinishReads(ScanGroups(body, body, FRESH), a);
    BodyHead(a);
    if s != [] && s[0] == ':' {
      ColonHead(s);
    }
  }
}
