/** The textual datagrams of the np-lab6 file transfer: "<seq total offset size name >payload"
    from client to server, "seq offset ACK" and "-1 -1 terminate" back. */
module TransferText {
  import opened Wrappers
  import opened Decimal

  /** One data datagram, as `decompose` in server.cpp reads it. */
  datatype Packet = Packet(seqNum: int, total: int, offset: int, size: int, name: string, payload: string)

  /** One datagram for the client, as `decompose` in client.cpp reads it. */
  datatype Reply = Reply(seqNum: int, offset: int, word: string)

  const MAX_INT: int := 0x7fff_ffff

  predicate IsSpace(c: char) {
    c == ' ' || c == '\t' || c == '\n' || c == '\r' || c == 11 as char || c == 12 as char
  }

  // ----- stream extraction -----

  function SkipSpaces(s: string): string
  {
    if s != [] && IsSpace(s[0]) then SkipSpaces(s[1..]) else s
  }

  /** `stream >> int`: leading blanks, an optional sign, at least one digit, a value that fits. */
  function ReadInt(s: string): Option<(int, string)>
  {
    var t := SkipSpaces(s);
    var negative := t != [] && t[0] == '-';
    var u := if t != [] && (t[0] == '-' || t[0] == '+') then t[1..] else t;
    if u == [] || !IsDigit(u[0]) then None
    else
      var (n, rest) := ScanDigits(u, 0);
      var v: int := if negative then -(n as int) else n;
      if -MAX_INT - 1 <= v <= MAX_INT then Some((v, rest)) else None
  }

  /** The leading non-blank characters of s. */
  function WordOf(s: string): string
  {
    if s == [] || IsSpace(s[0]) then "" else [s[0]] + WordOf(s[1..])
  }

  /** `stream >> string`: fails when nothing but blanks is left. */
  function ReadWord(s: string): Option<string>
  {
    var t := SkipSpaces(s);
    if t == [] then None else Some(WordOf(t))
  }

  // ----- the two message formats -----

  predicate ValidName(name: string) {
    name != [] && forall i :: 0 <= i < |name| ==> !IsSpace(name[i]) && name[i] != '>'
  }

  predicate Sendable(p: Packet) {
    && 0 <= p.seqNum <= MAX_INT && 0 <= p.total <= MAX_INT
    && 0 <= p.offset <= MAX_INT && 0 <= p.size <= MAX_INT
    && ValidName(p.name)
  }

  /** The numbers and the name, up to the blank that precedes '>' (client.cpp:142). */
  function HeaderText(p: Packet): string
    requires Sendable(p)
  {
    Numeral(p.seqNum) + (" " + (Numeral(p.total) + (" " + (Numeral(p.offset) + (" " + (Numeral(p.size) + (" " + (p.name + " "))))))))
  }

  function Message(p: Packet): string
    requires Sendable(p)
  {
    "<" + HeaderText(p) + ">" + p.payload
  }

  /** `content.substr(content.find('>') + 1)`. */
  function AfterMark(s: string): string {
    if s == [] then [] else if s[0] == '>' then s[1..] else AfterMark(s[1..])
  }

  /** `decompose` of server.cpp on the text alone; None where an extraction fails. */
  function ParsePacket(text: string): Option<Packet> {
    if text == [] then None else
    var content := text[1..];
    var a := ReadInt(content);
    if a.None? then None else
    var b := ReadInt(a.value.1);
    if b.None? then None else
    var c := ReadInt(b.value.1);
    if c.None? then None else
    var d := ReadInt(c.value.1);
    if d.None? then None else
    var e := ReadWord(d.value.1);
    if e.None? then None else
    Some(Packet(a.value.0, b.value.0, c.value.0, d.value.0, e.value, AfterMark(content)))
  }

  function AckText(seqNum: nat, offset: nat): string {
    Numeral(seqNum) + (" " + (Numeral(offset) + (" " + "ACK")))
  }

  const TERMINATE := "-1" + (" " + ("-1" + (" " + "terminate")))

  /** `decompose` of client.cpp; None where an extraction fails, so that `buf` stays empty. */
  function ParseReply(text: string): Option<Reply> {
    var a := ReadInt(text);
    if a.None? then None else
    var b := ReadInt(a.value.1);
    if b.None? then None else
    var c := ReadWord(b.value.1);
    if c.None? then None else
    Some(Reply(a.value.0, b.value.0, c.value))
  }

  // ----- what the network may do to a datagram -----

  /** A data datagram may lose the tail of its payload but keeps its header. */
  predicate Shortened(sent: string, got: string) {
    got <= sent && '>' in got
  }

  // ----- parsing what was printed -----

  lemma {:induction false} NumeralHead(n: nat, rest: string)
    ensures SkipSpaces(Numeral(n) + rest) == Numeral(n) + rest
    ensures SkipSpaces(" " + (Numeral(n) + rest)) == Numeral(n) + rest
    ensures IsDigit((Numeral(n) + rest)[0])
  {
    var t := Numeral(n) + rest;
    assert t[0] == Numeral(n)[0];
    assert (" " + t)[1..] == t;
  }

  /** Extracting a printed number, with or without a blank before it, gives the number back. */
  lemma {:induction false} ReadNumeral(n: nat, rest: string)
    requires n <= MAX_INT
    requires rest == [] || !IsDigit(rest[0])
    ensures ReadInt(Numeral(n) + rest) == Some((n, rest))
    ensures ReadInt(" " + (Numeral(n) + rest)) == Some((n, rest))
  {
    NumeralHead(n, rest);
    ScanNumeral(n, rest);
  }

  lemma {:induction false} WordOfName(name: string, rest: string)
    requires forall i :: 0 <= i < |name| ==> !IsSpace(name[i])
    requires rest == [] || IsSpace(rest[0])
    ensures WordOf(name + rest) == name
  {
    if name != [] {
      assert (name + rest)[1..] == name[1..] + rest;
      WordOfName(name[1..], rest);
    } else {
      assert name + rest == rest;
    }
  }

  lemma {:induction false} ReadName(name: string, rest: string)
    requires name != [] && forall i :: 0 <= i < |name| ==> !IsSpace(name[i])
    requires rest == [] || IsSpace(rest[0])
    ensures ReadWord(" " + (name + rest)) == Some(name)
  {
    var t := name + rest;
    assert (" " + t)[1..] == t && t[0] == name[0];
    assert SkipSpaces(" " + t) == SkipSpaces(t) == t;
    WordOfName(name, rest);
  }

  lemma {:induction false} AfterMarkOf(before: string, rest: string)
    requires '>' !in before
    ensures AfterMark(before + ">" + rest) == rest
  {
    var s := before + ">" + rest;
    if before != [] {
      assert s[0] == before[0] && s[1..] == before[1..] + ">" + rest;
      AfterMarkOf(before[1..], rest);
    } else {
      assert s[1..] == rest;
    }
  }

  lemma {:induction false} HeaderHasNoMark(p: Packet)
    requires Sendable(p)
    ensures '>' !in HeaderText(p)
  {
    assert forall n: nat, c :: c in Numeral(n) ==> IsDigit(c);
  }

  /** Parsing a printed packet gives every field back. */
  lemma {:induction false} ParseMessage(p: Packet)
    requires Sendable(p)
    ensures ParsePacket(Message(p)) == Some(p)
  {
    var tail := " " + (">" + p.payload);
    var t5 := p.name + tail;
    var t4 := Numeral(p.size) + (" " + t5);
    var t3 := Numeral(p.offset) + (" " + t4);
    var t2 := Numeral(p.total) + (" " + t3);
    var t1 := Numeral(p.seqNum) + (" " + t2);
    var content := Message(p)[1..];
    assert content == HeaderText(p) + ">" + p.payload;
    assert content == t1;
    ReadNumeral(p.seqNum, " " + t2);
    ReadNumeral(p.total, " " + t3);
    ReadNumeral(p.offset, " " + t4);
    ReadNumeral(p.size, " " + t5);
    ReadName(p.name, tail);
    HeaderHasNoMark(p);
    AfterMarkOf(HeaderText(p), p.payload);
  }

  /** A shortened data datagram is the same packet with a prefix of the payload. */
  lemma {:induction false} ShortenedIsMessage(p: Packet, got: string) returns (k: nat)
    requires Sendable(p)
    requires Shortened(Message(p), got)
    ensures k <= |p.payload| && got == Message(p.(payload := p.payload[..k]))
  {
    HeaderHasNoMark(p);
    var head := "<" + HeaderText(p);
    var i :| 0 <= i < |got| && got[i] == '>';
    assert Message(p) == head + ">" + p.payload;
    assert i >= |head|;
    k := |got| - |head| - 1;
    var q := p.(payload := p.payload[..k]);
    assert HeaderText(q) == HeaderText(p);
    assert got == Message(p)[..|got|] == head + ">" + p.payload[..k];
  }

  /** Whatever the network does to a data datagram, the server reads the sender's header and a
      prefix of its payload, and the whole payload exactly when the size field says so. */
  lemma {:induction false} ParseShortened(p: Packet, got: string)
    requires Sendable(p) && p.size == |p.payload|
    requires Shortened(Message(p), got)
    ensures ParsePacket(got).Some?
    ensures var q := ParsePacket(got).value;
            && q == p.(payload := q.payload) && q.payload <= p.payload
            && (|q.payload| == q.size <==> q == p)
  {
    var k := ShortenedIsMessage(p, got);
    ParseMessage(p.(payload := p.payload[..k]));
  }

  lemma {:induction false} ParseAck(s: nat, o: nat, word: string)
    requires s <= MAX_INT && o <= MAX_INT
    requires word != [] && forall i :: 0 <= i < |word| ==> !IsSpace(word[i])
    ensures ParseReply(Numeral(s) + (" " + (Numeral(o) + (" " + word)))) == Some(Reply(s, o, word))
  {
    ReadNumeral(s, " " + (Numeral(o) + (" " + word)));
    ReadNumeral(o, " " + word);
    ReadName(word, "");
    assert word + "" == word;
  }

  lemma {:induction false} SkipKeepsChars(s: string)
    ensures forall c :: c in SkipSpaces(s) ==> c in s
  {
    if s != [] && IsSpace(s[0]) {
      SkipKeepsChars(s[1..]);
    }
  }

  lemma {:induction false} WordKeepsChars(s: string)
    ensures forall c :: c in WordOf(s) ==> c in s
  {
    if s != [] && !IsSpace(s[0]) {
      WordKeepsChars(s[1..]);
    }
  }

  lemma {:induction false} ReadIntKeepsChars(s: string)
    ensures ReadInt(s).Some? ==> forall c :: c in ReadInt(s).value.1 ==> c in s
  {
    var t := SkipSpaces(s);
    SkipKeepsChars(s);
    var u := if t != [] && (t[0] == '-' || t[0] == '+') then t[1..] else t;
    ScanKeepsChars(u, 0);
  }

  /** Every character of the reply word comes from the datagram. */
  lemma {:induction false} ReplyWordFromText(text: string)
    ensures ParseReply(text).Some? ==> forall c :: c in ParseReply(text).value.word ==> c in text
  {
    var a := ReadInt(text);
    if a.Some? && ReadInt(a.value.1).Some? {
      ReadIntKeepsChars(text);
      ReadIntKeepsChars(a.value.1);
      var rest := ReadInt(a.value.1).value.1;
      SkipKeepsChars(rest);
      WordKeepsChars(SkipSpaces(rest));
    }
  }

  /** The prefix of an acknowledgement that reaches into its last word. */
  lemma {:induction false} AckPrefix(s: nat, o: nat, got: string)
    requires got <= AckText(s, o)
    ensures 'A' in got ==>
              exists w :: w <= "ACK" && w != [] && got == Numeral(s) + (" " + (Numeral(o) + (" " + w)))
  {
    if 'A' in got {
      var head := Numeral(s) + (" " + (Numeral(o) + " "));
      assert forall i :: 0 <= i < |head| ==> head[i] != 'A' by {
        assert forall n: nat, c :: c in Numeral(n) ==> IsDigit(c);
        assert forall c :: c in head ==> c != 'A';
      }
      assert AckText(s, o) == head + "ACK";
      var i :| 0 <= i < |got| && got[i] == 'A';
      assert got[i] == AckText(s, o)[i];
      assert |head| < |got|;
      var w := got[|head|..];
      assert w == "ACK"[..|got| - |head|];
      assert got == head + w;
      assert got == Numeral(s) + (" " + (Numeral(o) + (" " + w)));
    }
  }

  /** A reply whose text lacks a letter of `word` is not read as `word`. */
  lemma {:induction false} NotThatWord(text: string, word: string, i: nat)
    requires i < |word| && word[i] !in text
    ensures ParseReply(text).Some? ==> ParseReply(text).value.word != word
  {
    ReplyWordFromText(text);
  }

  lemma AckHasNoLetterT(s: nat, o: nat)
    ensures 't' !in AckText(s, o)
  {
    assert forall n: nat, c :: c in Numeral(n) ==> IsDigit(c);
  }

  /** A cut acknowledgement is either read as the acknowledgement that was sent or as none;
      it is never read as "terminate". */
  lemma {:induction false} AckReadsAsSent(s: nat, o: nat, got: string)
    requires s <= MAX_INT && o <= MAX_INT && got <= AckText(s, o)
    ensures ParseReply(got).Some? && ParseReply(got).value.word == "ACK" ==>
              ParseReply(got).value == Reply(s, o, "ACK")
    ensures ParseReply(got).Some? ==> ParseReply(got).value.word != "terminate"
  {
    AckHasNoLetterT(s, o);
    NotThatWord(got, "terminate", 0);
    if 'A' in got {
      AckPrefix(s, o, got);
      var w :| w <= "ACK" && w != [] && got == Numeral(s) + (" " + (Numeral(o) + (" " + w)));
      ParseAck(s, o, w);
    } else {
      NotThatWord(got, "ACK", 0);
    }
  }

  lemma {:induction false} TerminateIsNoAck(got: string)
    requires got <= TERMINATE
    ensures ParseReply(got).Some? ==> ParseReply(got).value.word != "ACK"
  {
    assert 'A' !in TERMINATE;
    NotThatWord(got, "ACK", 0);
  }

  lemma ParseTerminate()
    ensures ParseReply(TERMINATE) == Some(Reply(-1, -1, "terminate"))
  {
    var t2 := "-1" + (" " + "terminate");
    ReadMinusOne(" " + t2);
    ReadMinusOne(" " + "terminate");
    ReadName("terminate", "");
    assert "terminate" + "" == "terminate";
  }

  lemma {:induction false} ReadMinusOne(rest: string)
    requires rest != [] && rest[0] == ' '
    ensures ReadInt("-1" + rest) == Some((-1, rest))
    ensures ReadInt(" " + ("-1" + rest)) == Some((-1, rest))
  {
    var t := "-1" + rest;
    assert (" " + t)[1..] == t && t[1..] == "1" + rest && ("1" + rest)[1..] == rest;
    assert ScanDigits("1" + rest, 0) == ScanDigits(rest, 1) == (1, rest);
  }

  lemma NumeralExamples()
    ensures Numeral(3) == "3" && Numeral(4) == "4" && Numeral(12) == "12" && Numeral(20) == "20"
  {
    assert Numeral(1) == "1" && Numeral(2) == "2";
  }

  lemma TextJoins()
    ensures "12" + (" " + ("4" + (" " + ("a.txt" + " ")))) == "12 4 a.txt "
  {
  }

  lemma HeaderJoins()
    ensures "3" + (" " + ("20" + (" " + "12 4 a.txt "))) == "3 20 12 4 a.txt "
  {
  }

  lemma MessageJoins()
    ensures "<" + "3 20 12 4 a.txt " + ">" + "data" == "<3 20 12 4 a.txt >data"
  {
  }

  /** A text from the client: the five fields with a blank behind each, and the payload behind the mark. */
  lemma MessageExample()
    ensures Message(Packet(3, 20, 12, 4, "a.txt", "data")) == "<3 20 12 4 a.txt >data"
  {
    NumeralExamples();
    TextJoins();
    HeaderJoins();
    MessageJoins();
    hide Numeral;
  }

  /** The acknowledgement of fragment 12 of file 3, and the end. */
  lemma ReplyExample()
    ensures AckText(3, 12) == "3 12 ACK" && TERMINATE == "-1 -1 terminate"
  {
    NumeralExamples();
    hide Numeral;
  }
}
