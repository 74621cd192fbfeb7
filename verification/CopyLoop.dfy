/** unpv13e/nonblock/strclinonb.c: the loop itself, on its two arrays and four pointers. */
module CopyLoop {
  import opened Numbers
  import opened Unp
  import opened CopySpec

  class StrCli {
    const to: array<char>
    const fr: array<char>
    var toi: nat
    var too: nat
    var fri: nat
    var fro: nat
    var stdineof: bool
    var outcome: Outcome
    ghost var taken: seq<char>
    ghost var sent: seq<char>
    ghost var wire: seq<Out>
    ghost var received: seq<char>
    ghost var printed: seq<char>

    ghost predicate Valid()
      reads this
    {
      && to != fr && to.Length == MAX_LINE && fr.Length == MAX_LINE
      && too <= toi <= MAX_LINE && fro <= fri <= MAX_LINE
    }

    ghost function View(): (s: State)
      reads this, to, fr
      requires Valid()
      ensures Fits(s) && s.outcome == outcome && s.taken == taken && s.received == received
    {
      State(Buf(too, to[too..toi]), Buf(fro, fr[fro..fri]), stdineof, outcome, taken, sent, wire, received, printed)
    }

    constructor ()
      ensures Valid() && fresh(to) && fresh(fr) && View() == INIT
    {
      to, fr := new char[MAX_LINE], new char[MAX_LINE];
      toi, too, fri, fro, stdineof, outcome := 0, 0, 0, 0, false, Running;
      taken, sent, wire, received, printed := [], [], [], [], [];
    }

    /** read: stores what the kernel has at offset `at`; n is 0 at end of file. */
    static method Read(buf: array<char>, at: nat, bytes: seq<char>) returns (n: nat)
      requires at < buf.Length
      modifies buf
      ensures n == Min(|bytes|, buf.Length - at)
      ensures buf[..at] == old(buf[..at]) && buf[at..at + n] == bytes[..n]
    {
      n := Min(|bytes|, buf.Length - at);
      for i := 0 to n
        invariant buf[..at] == old(buf[..at])
        invariant forall j :: 0 <= j < i ==> buf[at + j] == bytes[j]
      {
        buf[at + i] := bytes[i];
      }
    }

    method FromStdin(r: Round, ready: bool) returns (wrote: bool)
      requires Valid() && outcome == Running && ready == (r.stdin && AsksStdin(View()))
      modifies this`toi, this`stdineof, this`outcome, this`taken, this`wire, to
      ensures Valid() && View() == StdinPart(old(View()), r) && wrote == (|taken| > old(|taken|))
    {
      wrote := false;
      if ready {
        match r.fromStdin {
          case ReadBlocks =>
          case ReadFails => outcome := Quit;
          case Bytes(bytes) =>
            ghost var was := to[too..toi];
            var n := Read(to, toi, bytes);
            if n == 0 {
              stdineof := true;
              if too == toi {
                wire := wire + [Fin];
              }
              assert to[too..toi] == was;
            } else {
              taken := taken + bytes[..n];
              Extended(to[..], too, toi, n, was, bytes[..n]);
              toi := toi + n;
              wrote := true;
            }
        }
      }
    }

    method FromSock(r: Round, ready: bool) returns (wrote: bool)
      requires Valid() && outcome == Running && ready == (r.sockIn && AsksSockIn(View()))
      modifies this`fri, this`outcome, this`received, fr
      ensures Valid() && View() == SockInPart(old(View()), r) && wrote == (|received| > old(|received|))
    {
      wrote := false;
      if ready {
        match r.fromSock {
          case ReadBlocks =>
          case ReadFails => outcome := Quit;
          case Bytes(bytes) =>
            ghost var was := fr[fro..fri];
            var n := Read(fr, fri, bytes);
            if n == 0 {
              outcome := if stdineof then Returned else Quit;
              assert fr[fro..fri] == was;
            } else {
              received := received + bytes[..n];
              Extended(fr[..], fro, fri, n, was, bytes[..n]);
              fri := fri + n;
              wrote := true;
            }
        }
      }
    }

    method ToStdout(r: Round, asked: bool)
      requires Valid() && outcome == Running
      modifies this`fri, this`fro, this`outcome, this`printed
      ensures Valid() && View() == StdoutPart(old(View()), asked, r)
    {
      var n := fri - fro;
      assert |View().fr.pending| == n;
      if asked && n > 0 {
        match r.toStdout {
          case WriteBlocks =>
          case WriteFails => outcome := Quit;
          case Takes(count) =>
            var nwritten := Min(count, n);
            Shortened(fr, fro, fri, nwritten);
            hide Min;
            printed := printed + fr[fro..fro + nwritten];
            fro := fro + nwritten;
            if fro == fri {
              fro, fri := 0, 0;
            }
        }
      }
    }

    method ToSock(r: Round, asked: bool)
      requires Valid() && outcome == Running
      modifies this`toi, this`too, this`outcome, this`sent, this`wire
      ensures Valid() && View() == SockOutPart(old(View()), asked, r)
    {
      hide SentSome;
      var n := toi - too;
      assert |View().to.pending| == n;
      if asked && n > 0 {
        match r.toSock {
          case WriteBlocks =>
          case WriteFails => outcome := Quit;
          case Takes(count) =>
            SendSome(Min(count, n));
        }
      }
    }

    method SendSome(nwritten: nat)
      requires Valid() && outcome == Running && nwritten <= toi - too
      modifies this`toi, this`too, this`sent, this`wire
      ensures Valid() && View() == SentSome(old(View()), nwritten)
    {
      hide AsData;
      ghost var s, out := View(), to[too..too + nwritten];
      Shortened(to, too, toi, nwritten);
      sent, wire := sent + out, wire + AsData(out);
      too := too + nwritten;
      if too == toi {
        toi, too := 0, 0;
        if stdineof {
          wire := wire + [Fin];
        }
      }
    }

    /** The body of the endless loop. */
    method OneRound(r: Round)
      requires Valid() && outcome == Running
      modifies this, to, fr
      ensures Valid() && View() == Turn(old(View()), r)
    {
      hide StdinPart, SockInPart, StdoutPart, SockOutPart;
      var stdin := r.stdin && !stdineof && toi < MAX_LINE;
      var sockIn := r.sockIn && fri < MAX_LINE;
      var sockOut := r.sockOut && too != toi;
      var stdout := r.stdout && fro != fri;
      ghost var s := View();
      assert stdin == (r.stdin && AsksStdin(s)) && sockIn == (r.sockIn && AsksSockIn(s));
      assert sockOut == (r.sockOut && AsksSockOut(s)) && stdout == (r.stdout && AsksStdout(s));
      hide View, AsksStdin, AsksSockIn, AsksStdout, AsksSockOut, Fits;
      SameFr(s, r);
      var wrote := FromStdin(r, stdin);
      sockOut := sockOut || wrote;
      if outcome == Running {
        wrote := FromSock(r, sockIn);
        stdout := stdout || wrote;
        if outcome == Running {
          ToStdout(r, stdout);
          if outcome == Running {
            ToSock(r, sockOut);
          }
        }
      }
    }

    static lemma {:induction false} SameFr(s: State, r: Round)
      requires Fits(s)
      ensures AsksSockIn(StdinPart(s, r)) == AsksSockIn(s) && StdinPart(s, r).received == s.received
    {
    }

    /** str_cli for as many rounds as the environment plays. */
    method Copy(rounds: seq<Round>)
      requires Valid() && View() == INIT
      modifies this, to, fr
      ensures Inv(INIT) && Valid() && View() == Run(INIT, rounds)
    {
      hide Inv, Turn;
      InitInv();
      var i := 0;
      while outcome == Running && i < |rounds|
        invariant 0 <= i <= |rounds| && Valid() && Inv(View()) && Run(INIT, rounds) == Run(View(), rounds[i..])
      {
        TurnInv(View(), rounds[i]);
        assert rounds[i..][1..] == rounds[i + 1..];
        OneRound(rounds[i]);
        i := i + 1;
      }
      if outcome != Running {
        StaysOver(View(), rounds[i..]);
      }
    }

    static lemma InitInv()
      ensures Inv(INIT)
    {
    }

    static lemma {:induction false} Shortened(a: array<char>, o: nat, i: nat, n: nat)
      requires o + n <= i <= a.Length
      ensures a[o..i][..n] == a[o..o + n] && a[o..i][n..] == a[o + n..i]
    {
    }

    static lemma {:induction false} Extended(a: seq<char>, o: nat, i: nat, n: nat, was: seq<char>, got: seq<char>)
      requires o <= i && i + n <= |a| && was == a[o..i] && got == a[i..i + n]
      ensures a[o..i + n] == was + got
    {
    }
  }
}
