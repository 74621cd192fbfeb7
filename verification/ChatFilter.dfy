/** hw2/110550158_hw2/hw2_chat_server.cpp: filter_message, which masks keywords in a chat message. */
module ChatFilter {
  import opened SeqFacts

  function Lower(c: char): char {
    if 'A' <= c <= 'Z' then c - 'A' + 'a' else c
  }

  predicate IsAlpha(c: char) {
    'A' <= c <= 'Z' || 'a' <= c <= 'z'
  }

  /** Keyword w stands at p in s, in any letter case. */
  predicate OccursAt(s: string, w: string, p: int) {
    0 <= p && p + |w| <= |s| && forall j :: 0 <= j < |w| ==> Lower(s[p + j]) == Lower(w[j])
  }

  predicate KeywordAt(keywords: seq<string>, s: string, p: int) {
    exists k :: 0 <= k < |keywords| && OccursAt(s, keywords[k], p)
  }

  /** No keyword stands anywhere in s. */
  ghost predicate Clean(keywords: seq<string>, s: string) {
    forall p :: 0 <= p < |s| ==> !KeywordAt(keywords, s, p)
  }

  /** Like those of the server: not empty and without the masking character. */
  predicate Maskable(w: string) {
    w != [] && '*' !in w
  }

  const FILTERED_KEYWORDS: seq<string> := ["superpie", "hello", "starburst stream", "domain expansion", "=="]

  // ----- string::find -----

  /** The first place at or after i where w stands, or -1. */
  function Find(s: string, w: string, i: nat): (p: int)
    ensures p == -1 || (i <= p && OccursAt(s, w, p))
    ensures forall q :: i <= q && (p == -1 || q < p) ==> !OccursAt(s, w, q)
    decreases |s| - i
  {
    if OccursAt(s, w, i) then i
    else if i < |s| then Find(s, w, i + 1)
    else -1
  }

  // ----- the loop as a function -----

  /** The condition of the if: a match here, or a later one that does not continue a word. */
  predicate Hits(s: string, w: string, i: nat) {
    var p := Find(s, w, i);
    p != -1 && (p == i || !IsAlpha(s[p - 1]))
  }

  /** The first keyword from k on that hits, or none. */
  function FirstHit(keywords: seq<string>, s: string, i: nat, k: nat): (h: nat)
    requires k <= |keywords|
    ensures k <= h <= |keywords| && (h < |keywords| ==> Hits(s, keywords[h], i))
    ensures forall j :: k <= j < h ==> !Hits(s, keywords[j], i)
    decreases |keywords| - k
  {
    if k == |keywords| || Hits(s, keywords[k], i) then k else FirstHit(keywords, s, i, k + 1)
  }

  ghost predicate AllMaskable(keywords: seq<string>) {
    forall k :: 0 <= k < |keywords| ==> Maskable(keywords[k])
  }

  /** What one round of the loop appends, and where it goes on. */
  datatype Piece = Piece(text: string, next: nat)

  function PieceAt(keywords: seq<string>, s: string, i: nat): Piece
    requires i < |s|
  {
    var h := FirstHit(keywords, s, i, 0);
    if h == |keywords| then Piece([s[i]], i + 1)
    else Piece(Repeated('*', |keywords[h]|), Find(s, keywords[h], i) + |keywords[h]|)
  }

  /** A copied character at which no keyword stands, or stars for one that stands at or after i. */
  lemma {:induction false} PieceFacts(keywords: seq<string>, s: string, i: nat)
    requires AllMaskable(keywords) && i < |s|
    ensures var c := PieceAt(keywords, s, i);
            && i < c.next <= |s| && 0 < |c.text| <= c.next - i
            && (if FirstHit(keywords, s, i, 0) == |keywords|
                then c == Piece([s[i]], i + 1) && !KeywordAt(keywords, s, i)
                else (forall j :: 0 <= j < |c.text| ==> c.text[j] == '*')
                     && KeywordAt(keywords, s, c.next - |c.text|))
  {
    var h := FirstHit(keywords, s, i, 0);
    if h < |keywords| {
      HitIsPlace(s, keywords[h], i);
      assert Maskable(keywords[h]);
    } else {
      NoHitNoKeyword(keywords, s, i);
    }
  }

  /** The output for the message from i on. */
  ghost function Filter(keywords: seq<string>, s: string, i: nat): string
    requires AllMaskable(keywords)
    decreases |s| - i
  {
    if i >= |s| then []
    else
      PieceFacts(keywords, s, i);
      var c := PieceAt(keywords, s, i);
      c.text + Filter(keywords, s, c.next)
  }

  /** The inner loop: the first keyword of the list that hits at i. */
  method FindKeyword(keywords: seq<string>, message: string, i: nat) returns (found: bool, k: nat)
    ensures k == FirstHit(keywords, message, i, 0) && found == (k < |keywords|)
  {
    hide Hits;
    found, k := false, 0;
    while k < |keywords|
      invariant k <= |keywords| && FirstHit(keywords, message, i, k) == FirstHit(keywords, message, i, 0)
    {
      if Hits(message, keywords[k], i) {
        found := true;
        return;
      }
      k := k + 1;
    }
  }

  method FilterMessage(keywords: seq<string>, message: string) returns (filtered: string)
    requires AllMaskable(keywords)
    ensures filtered == Filter(keywords, message, 0)
  {
    hide Hits, OccursAt, Filter, AllMaskable, KeywordAt;
    filtered := "";
    var i := 0;
    while i < |message|
      invariant 0 <= i && Filter(keywords, message, 0) == filtered + Filter(keywords, message, i)
      decreases |message| - i
    {
      FilterStep(keywords, message, i);
      ghost var c := PieceAt(keywords, message, i);
      Regroup(filtered, c.text, Filter(keywords, message, c.next));
      var found, k := FindKeyword(keywords, message, i);
      if found {
        filtered := filtered + Repeated('*', |keywords[k]|);
        i := Find(message, keywords[k], i) + |keywords[k]|;
      } else {
        filtered := filtered + [message[i]];
        i := i + 1;
      }
    }
    FilterEnd(keywords, message, i);
  }

  lemma {:induction false} FilterStep(keywords: seq<string>, s: string, i: nat)
    requires AllMaskable(keywords) && i < |s|
    ensures var c := PieceAt(keywords, s, i);
            i < c.next <= |s| && Filter(keywords, s, i) == c.text + Filter(keywords, s, c.next)
  {
    PieceFacts(keywords, s, i);
  }

  lemma {:induction false} FilterEnd(keywords: seq<string>, s: string, i: nat)
    requires AllMaskable(keywords) && i >= |s|
    ensures Filter(keywords, s, i) == ""
  {
  }

  lemma {:induction false} HitIsPlace(s: string, w: string, i: nat)
    requires Hits(s, w, i)
    ensures i <= Find(s, w, i) && OccursAt(s, w, Find(s, w, i)) && Find(s, w, i) + |w| <= |s|
  {
  }

  // ----- what the filter promises -----

  /** Where no keyword hits, none stands. */
  lemma {:induction false} NoHitNoKeyword(keywords: seq<string>, s: string, i: nat)
    requires FirstHit(keywords, s, i, 0) == |keywords|
    ensures !KeywordAt(keywords, s, i)
  {
    forall k | 0 <= k < |keywords| ensures !OccursAt(s, keywords[k], i) {
      assert !Hits(s, keywords[k], i);
    }
  }

  /** Up to the first star the output is the message itself. */
  lemma {:induction false} CopiedFront(keywords: seq<string>, s: string, i: nat, m: nat)
    requires AllMaskable(keywords) && i <= |s| && m <= |Filter(keywords, s, i)|
    requires forall j :: 0 <= j < m ==> Filter(keywords, s, i)[j] != '*'
    ensures i + m <= |s| && forall j :: 0 <= j < m ==> Filter(keywords, s, i)[j] == s[i + j]
    decreases |s| - i
  {
    hide PieceAt, KeywordAt, FirstHit, AllMaskable;
    if m > 0 {
      var out, c := Filter(keywords, s, i), PieceAt(keywords, s, i);
      PieceFacts(keywords, s, i);
      assert out[0] == c.text[0];
      var rest := Filter(keywords, s, i + 1);
      assert out == [s[i]] + rest;
      forall j | 0 <= j < m - 1 ensures rest[j] != '*' {
        assert rest[j] == out[j + 1];
      }
      CopiedFront(keywords, s, i + 1, m - 1);
      forall j | 0 <= j < m ensures out[j] == s[i + j] {
        assert j > 0 ==> out[j] == rest[j - 1] == s[i + 1 + (j - 1)];
      }
    }
  }

  /** A keyword at the front of the output stands in the message. */
  lemma {:induction false} KeywordCopied(keywords: seq<string>, s: string, i: nat, w: string)
    requires AllMaskable(keywords) && i <= |s| && '*' !in w && OccursAt(Filter(keywords, s, i), w, 0)
    ensures OccursAt(s, w, i)
  {
    hide Filter;
    var out := Filter(keywords, s, i);
    forall j | 0 <= j < |w| ensures out[j] != '*' {
      assert w[j] != '*' && Lower(out[0 + j]) == Lower(w[j]);
    }
    CopiedFront(keywords, s, i, |w|);
    forall j | 0 <= j < |w| ensures Lower(s[i + j]) == Lower(w[j]) {
      assert out[j] == out[0 + j];
    }
  }

  lemma {:induction false} OccursInTail(a: string, b: string, w: string, p: nat)
    requires |a| <= p
    ensures OccursAt(a + b, w, p) ==> OccursAt(b, w, p - |a|)
  {
    forall j | 0 <= j < |w| && OccursAt(a + b, w, p) ensures Lower(b[p - |a| + j]) == Lower(w[j]) {
      assert (a + b)[p + j] == b[p - |a| + j];
    }
  }

  lemma {:induction false} NoKeywordAtStar(s: string, w: string, p: nat)
    requires Maskable(w) && p < |s| && s[p] == '*'
    ensures !OccursAt(s, w, p)
  {
    assert Lower(s[p + 0]) == '*' && w[0] != '*' && Lower(w[0]) != '*';
  }

  lemma {:induction false} CleanAt(keywords: seq<string>, s: string, i: nat, k: nat, p: nat)
    requires AllMaskable(keywords) && i <= |s| && k < |keywords|
    ensures !OccursAt(Filter(keywords, s, i), keywords[k], p)
    decreases |s| - i
  {
    var out, w := Filter(keywords, s, i), keywords[k];
    assert Maskable(w);
    hide PieceAt, AllMaskable, FirstHit;
    if i == |s| {
      assert out == [];
    } else {
      var c := PieceAt(keywords, s, i);
      PieceFacts(keywords, s, i);
      var rest := Filter(keywords, s, c.next);
      assert out == c.text + rest;
      hide Filter;
      if p >= |c.text| {
        OccursInTail(c.text, rest, w, p);
        CleanAt(keywords, s, c.next, k, p - |c.text|);
      } else if c.text[p] == '*' {
        NoKeywordAtStar(out, w, p);
      } else {
        assert !OccursAt(s, w, i);
        hide OccursAt;
        if OccursAt(out, w, 0) {
          KeywordCopied(keywords, s, i, w);
        }
      }
    }
  }

  /** The output holds no keyword in any letter case. */
  lemma {:induction false} OutputIsClean(keywords: seq<string>, s: string)
    requires AllMaskable(keywords)
    ensures Clean(keywords, Filter(keywords, s, 0))
  {
    hide Filter, OccursAt;
    var out := Filter(keywords, s, 0);
    forall p | 0 <= p < |out| ensures !KeywordAt(keywords, out, p) {
      forall k | 0 <= k < |keywords| ensures !OccursAt(out, keywords[k], p) {
        CleanAt(keywords, s, 0, k, p);
      }
    }
  }

  lemma {:induction false} NeverLonger(keywords: seq<string>, s: string, i: nat)
    requires AllMaskable(keywords) && i <= |s|
    ensures |Filter(keywords, s, i)| <= |s| - i
    decreases |s| - i
  {
    if i < |s| {
      PieceFacts(keywords, s, i);
      hide PieceAt, KeywordAt;
      NeverLonger(keywords, s, PieceAt(keywords, s, i).next);
    }
  }

  lemma {:induction false} CleanIsKept(keywords: seq<string>, s: string, i: nat)
    requires AllMaskable(keywords) && i <= |s| && Clean(keywords, s)
    ensures Filter(keywords, s, i) == s[i..]
    decreases |s| - i
  {
    hide PieceAt, KeywordAt, FirstHit, AllMaskable;
    if i < |s| {
      PieceFacts(keywords, s, i);
      assert PieceAt(keywords, s, i) == Piece([s[i]], i + 1);
      CleanIsKept(keywords, s, i + 1);
      assert s[i..] == [s[i]] + s[i + 1..];
    }
  }

  /** A message passes unchanged exactly when it holds no keyword. */
  lemma {:induction false} UnchangedIff(keywords: seq<string>, s: string)
    requires AllMaskable(keywords)
    ensures Filter(keywords, s, 0) == s <==> Clean(keywords, s)
  {
    OutputIsClean(keywords, s);
    if Clean(keywords, s) {
      CleanIsKept(keywords, s, 0);
      assert s[0..] == s;
    }
  }

  lemma {:induction false} Idempotent(keywords: seq<string>, s: string)
    requires AllMaskable(keywords)
    ensures Filter(keywords, Filter(keywords, s, 0), 0) == Filter(keywords, s, 0)
  {
    OutputIsClean(keywords, s);
    UnchangedIff(keywords, Filter(keywords, s, 0));
  }

  /** The server's own list meets what the lemmas ask for. */
  lemma ServerKeywords()
    ensures AllMaskable(FILTERED_KEYWORDS)
  {
  }

  // ----- dropped text -----

  /** Masking in place: the first keyword of the list that stands where the scan is becomes stars, the
      rest stays. */
  ghost function Masked(keywords: seq<string>, s: string, i: nat): string
    requires AllMaskable(keywords)
    decreases |s| - i
  {
    if i >= |s| then []
    else
      var h := FirstHere(keywords, s, i, 0);
      if h == |keywords| then [s[i]] + Masked(keywords, s, i + 1)
      else Repeated('*', |keywords[h]|) + Masked(keywords, s, i + |keywords[h]|)
  }

  ghost function FirstHere(keywords: seq<string>, s: string, i: nat, k: nat): (h: nat)
    requires k <= |keywords|
    ensures k <= h <= |keywords| && (h < |keywords| ==> OccursAt(s, keywords[h], i))
    ensures forall j :: k <= j < h ==> !OccursAt(s, keywords[j], i)
    decreases |keywords| - k
  {
    if k == |keywords| || OccursAt(s, keywords[k], i) then k else FirstHere(keywords, s, i, k + 1)
  }

  lemma {:induction false} MaskedLength(keywords: seq<string>, s: string, i: nat)
    requires AllMaskable(keywords) && i <= |s|
    ensures |Masked(keywords, s, i)| == |s| - i
    decreases |s| - i
  {
    if i < |s| {
      var h := FirstHere(keywords, s, i, 0);
      MaskedLength(keywords, s, if h == |keywords| then i + 1 else i + |keywords[h]|);
    }
  }

  /** The next place of w behind i is q, and no letter stands before it. */
  ghost predicate NextAt(s: string, w: string, i: nat, q: int) {
    && i < q && OccursAt(s, w, q) && !IsAlpha(s[q - 1])
    && forall r :: i <= r < q ==> !OccursAt(s, w, r)
  }

  /** A keyword hits where it stands, or jumps to its next place if that starts a word. */
  lemma {:induction false} HitsIff(s: string, w: string, i: nat)
    ensures Hits(s, w, i) <==> OccursAt(s, w, i) || exists q :: NextAt(s, w, i, q)
    ensures forall q :: NextAt(s, w, i, q) ==> Find(s, w, i) == q
    ensures OccursAt(s, w, i) ==> Find(s, w, i) == i
  {
    var p := Find(s, w, i);
    forall q | NextAt(s, w, i, q) ensures p == q {
      assert OccursAt(s, w, q);
    }
    if Hits(s, w, i) && p != i {
      assert NextAt(s, w, i, p);
    }
  }

  /** No keyword that comes before the one standing at i in the list starts a word further on. */
  ghost predicate HitsHere(keywords: seq<string>, s: string, i: nat) {
    forall k, q :: 0 <= k < FirstHere(keywords, s, i, 0) ==> !NextAt(s, keywords[k], i, q)
  }

  /** What the round at i does, in full: the first keyword of the list that stands there or next starts a
      word becomes stars, everything up to its end is passed over; without one, a character is copied. */
  lemma {:induction false} RoundIs(keywords: seq<string>, s: string, i: nat, k: nat, q: int)
    requires i < |s| && k < |keywords|
    requires (q == i && OccursAt(s, keywords[k], i)) || NextAt(s, keywords[k], i, q)
    requires forall j :: 0 <= j < k ==> !OccursAt(s, keywords[j], i)
    requires forall j, r :: 0 <= j < k ==> !NextAt(s, keywords[j], i, r)
    ensures PieceAt(keywords, s, i) == Piece(Repeated('*', |keywords[k]|), q + |keywords[k]|)
  {
    HitsIff(s, keywords[k], i);
    forall j | 0 <= j < k ensures !Hits(s, keywords[j], i) {
      HitsIff(s, keywords[j], i);
    }
    hide Hits, OccursAt, NextAt;
    assert FirstHit(keywords, s, i, 0) == k;
  }

  /** So it is at every place where masking in place looks. */
  ghost predicate NeverJumps(keywords: seq<string>, s: string, i: nat)
    requires AllMaskable(keywords)
    decreases |s| - i
  {
    i >= |s| ||
    (HitsHere(keywords, s, i) &&
     var h := FirstHere(keywords, s, i, 0);
     NeverJumps(keywords, s, if h == |keywords| then i + 1 else i + |keywords[h]|))
  }

  lemma {:induction false} SameHit(keywords: seq<string>, s: string, i: nat)
    requires i < |s|
    ensures HitsHere(keywords, s, i) ==> FirstHit(keywords, s, i, 0) == FirstHere(keywords, s, i, 0)
    ensures var h := FirstHere(keywords, s, i, 0);
            HitsHere(keywords, s, i) && h < |keywords| ==> Find(s, keywords[h], i) == i
    ensures var h := FirstHit(keywords, s, i, 0);
            !HitsHere(keywords, s, i) ==> h < |keywords| && Find(s, keywords[h], i) > i
  {
    var h, g := FirstHit(keywords, s, i, 0), FirstHere(keywords, s, i, 0);
    forall k | 0 <= k < |keywords|
      ensures Hits(s, keywords[k], i) <==> OccursAt(s, keywords[k], i) || exists q :: NextAt(s, keywords[k], i, q)
    {
      HitsIff(s, keywords[k], i);
    }
    if h < |keywords| {
      HitsIff(s, keywords[h], i);
      assert h < g ==> Find(s, keywords[h], i) != i;
    }
    hide Hits, OccursAt, NextAt;
  }

  /** The filter masks in place exactly when it never jumps, and then its output is as long as the
      message; otherwise text is dropped and the output is shorter. */
  lemma {:induction false} MasksInPlaceIff(keywords: seq<string>, s: string, i: nat)
    requires AllMaskable(keywords) && i <= |s|
    ensures Filter(keywords, s, i) == Masked(keywords, s, i) <==> NeverJumps(keywords, s, i)
    ensures |Filter(keywords, s, i)| == |s| - i <==> NeverJumps(keywords, s, i)
    decreases |s| - i
  {
    hide Hits, OccursAt, KeywordAt, HitsHere;
    MaskedLength(keywords, s, i);
    if i < |s| {
      var c := PieceAt(keywords, s, i);
      PieceFacts(keywords, s, i);
      NeverLonger(keywords, s, c.next);
      SameHit(keywords, s, i);
      if HitsHere(keywords, s, i) {
        MasksInPlaceIff(keywords, s, c.next);
        MaskedLength(keywords, s, c.next);
        SameFront(c.text, Filter(keywords, s, c.next), Masked(keywords, s, c.next));
      }
    }
  }

  lemma {:induction false} SameFront(a: string, b: string, c: string)
    ensures a + b == a + c <==> b == c
  {
    assert (a + b)[|a|..] == b && (a + c)[|a|..] == c;
  }

  /** Two characters agree in any letter case: they are the same, or the two forms of one letter. */
  lemma SameLetter(a: char, b: char)
    ensures Lower(a) == Lower(b) <==>
            || a == b || ('A' <= a <= 'Z' && b as int == a as int + 32) || ('A' <= b <= 'Z' && a as int == b as int + 32)
  {
  }

  /** A keyword in mixed case inside a word is masked in place; what stands around it is kept. */
  lemma InsideWordExample()
    ensures AllMaskable(["hi"]) && Filter(["hi"], "xHi!", 0) == "x**!"
  {
    var s, w := "xHi!", "hi";
    assert OccursAt(s, w, 1);
    assert Lower(s[0 + 0]) != Lower(w[0]) && Lower(s[3 + 0]) != Lower(w[0]);
    assert !OccursAt(s, w, 0) && !OccursAt(s, w, 3);
    assert Find(s, w, 0) == Find(s, w, 1) == 1;
    assert Find(s, w, 3) == Find(s, w, 4) == -1;
    assert !Hits(s, w, 0) && Hits(s, w, 1) && !Hits(s, w, 3);
    hide OccursAt, Hits, Find;
    assert FirstHit([w], s, 0, 0) == 1 && FirstHit([w], s, 1, 0) == 0 && FirstHit([w], s, 3, 0) == 1;
    ThreeRounds(s, w);
  }

  lemma {:induction false} ThreeRounds(s: string, w: string)
    requires s == "xHi!" && w == "hi" && AllMaskable([w])
    requires FirstHit([w], s, 0, 0) == 1 && FirstHit([w], s, 1, 0) == 0 && FirstHit([w], s, 3, 0) == 1
    requires Find(s, w, 1) == 1
    ensures Filter([w], s, 0) == "x**!"
  {
    hide FirstHit, Find;
    FilterStep([w], s, 0);
    FilterStep([w], s, 1);
    FilterStep([w], s, 3);
    FilterEnd([w], s, 4);
    hide Filter;
    assert Repeated('*', 2) == "**";
  }

  /** The text before a keyword that starts a word is dropped. */
  lemma DroppedTextExample()
    ensures AllMaskable(["=="]) && Filter(["=="], " ==", 0) == "**"
  {
    var s, w := " ==", "==";
    FoundBehind(s, w);
    hide OccursAt, Hits, FirstHit;
    assert PieceAt([w], s, 0) == Piece(Repeated('*', 2), 3);
    hide PieceAt;
    assert Filter([w], s, 3) == [];
    assert Repeated('*', 2) + [] == "**";
  }

  lemma {:induction false} FoundBehind(s: string, w: string)
    requires s == " ==" && w == "=="
    ensures Find(s, w, 0) == 1 && FirstHit([w], s, 0, 0) == 0
  {
    assert !OccursAt(s, w, 0) by {
      assert Lower(s[0 + 0]) != Lower(w[0]);
    }
    assert OccursAt(s, w, 1);
  }
}
