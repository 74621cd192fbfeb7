/** unpv13e/lib/rtt.c and unpv13e/rtt/dg_send_recv.c: the round-trip estimators and the request that is
    retransmitted until its reply arrives. Floating-point numbers are reals here. */
module Rtt {
  const RXT_MIN := 2.0
  const RXT_MAX := 60.0
  const MAX_NREXMT := 3

  // ----- the estimators -----

  datatype Estimate = Estimate(srtt: real, rttvar: real)

  const START := Estimate(0.0, 0.75)

  function Abs(x: real): real {
    if x < 0.0 then -x else x
  }

  function Observed(e: Estimate, sample: real): Estimate {
    var delta := sample - e.srtt;
    Estimate(e.srtt + delta / 8.0, e.rttvar + (Abs(delta) - e.rttvar) / 4.0)
  }

  function Minmax(rto: real): (r: real)
    ensures 2.0 <= r <= 60.0 && (2.0 <= rto <= 60.0 ==> r == rto)
    ensures (rto < 2.0 ==> r == 2.0) && (rto > 60.0 ==> r == 60.0)
  {
    if rto < RXT_MIN then RXT_MIN else if rto > RXT_MAX then RXT_MAX else rto
  }

  function Rto(e: Estimate): (r: real)
    ensures RXT_MIN <= r <= RXT_MAX
  {
    Minmax(e.srtt + 4.0 * e.rttvar)
  }

  function AllObserved(e: Estimate, samples: seq<real>): Estimate {
    if samples == [] then e else Observed(AllObserved(e, samples[..|samples| - 1]), samples[|samples| - 1])
  }

  ghost predicate Within(samples: seq<real>, most: real) {
    forall i :: 0 <= i < |samples| ==> 0.0 <= samples[i] <= most
  }

  /** Both estimators stay nonnegative and within the samples seen. */
  lemma {:induction false} EstimatesBounded(samples: seq<real>, most: real)
    requires Within(samples, most) && most >= 0.0
    ensures var e := AllObserved(START, samples);
            0.0 <= e.srtt <= most && 0.0 <= e.rttvar <= if most > 0.75 then most else 0.75
  {
    if samples != [] {
      EstimatesBounded(samples[..|samples| - 1], most);
      assert 0.0 <= samples[|samples| - 1] <= most;
    }
  }

  function Pow(x: real, k: nat): real {
    if k == 0 then 1.0 else Pow(x, k - 1) * x
  }

  function Constant(m: real, k: nat): seq<real> {
    seq(k, _ => m)
  }

  /** An error d after k steps that each shrink it by 7/8. */
  function Decayed(d: real, k: nat): real {
    Pow(0.875, k) * d
  }

  /** A deviation v that follows an error of size a for k steps. */
  function Following(v: real, a: real, k: nat): real {
    Pow(0.75, k) * v + 2.0 * (Pow(0.875, k) - Pow(0.75, k)) * a
  }

  /** Under k equal samples the error of srtt shrinks by 7/8 each time, and the deviation follows it. */
  lemma {:induction false} ConstantSamples(e: Estimate, m: real, k: nat)
    ensures var r := AllObserved(e, Constant(m, k));
            && r.srtt - m == Decayed(e.srtt - m, k)
            && r.rttvar == Following(e.rttvar, Abs(e.srtt - m), k)
  {
    hide Decayed, Following, Abs, Observed;
    if k == 0 {
      DecayedNone(e.srtt - m, e.rttvar);
      assert Constant(m, 0) == [];
    } else {
      ConstantSamples(e, m, k - 1);
      OneMoreConstant(e, m, k);
      OneSample(AllObserved(e, Constant(m, k - 1)), m, Decayed(e.srtt - m, k - 1));
      DecayedNext(e.srtt - m, k - 1);
      FollowingNext(e.rttvar, e.srtt - m, k - 1);
    }
  }

  lemma DecayedNone(d: real, v: real)
    ensures Decayed(d, 0) == d && Following(v, Abs(d), 0) == v
  {
  }

  lemma DecayedNext(d: real, k: nat)
    ensures Decayed(d, k + 1) == 0.875 * Decayed(d, k)
  {
    var p := Pow(0.875, k);
    assert Pow(0.875, k + 1) == p * 0.875;
    assert (p * 0.875) * d == 0.875 * (p * d);
  }

  lemma AbsDecayed(d: real, k: nat)
    ensures Abs(Decayed(d, k)) == Pow(0.875, k) * Abs(d)
  {
    PowPositive(0.875, k);
    AbsScales(Pow(0.875, k), d);
  }

  lemma FollowingNext(v: real, d: real, k: nat)
    ensures Following(v, Abs(d), k + 1) == 0.75 * Following(v, Abs(d), k) + 0.25 * Abs(Decayed(d, k))
  {
    hide Abs;
    var p, q := Pow(0.875, k), Pow(0.75, k);
    assert Pow(0.875, k + 1) == p * 0.875 && Pow(0.75, k + 1) == q * 0.75;
    AbsDecayed(d, k);
    var a := Abs(d);
    assert Following(v, a, k + 1) == (q * 0.75) * v + 2.0 * (p * 0.875 - q * 0.75) * a;
    assert Following(v, a, k) == q * v + 2.0 * (p - q) * a;
    assert Abs(Decayed(d, k)) == p * a;
    hide *;
    Recombine(p, q, v, a);
    assert Following(v, a, k + 1) == 0.75 * Following(v, a, k) + 0.25 * (p * a);
  }

  lemma {:induction false} OneMoreConstant(e: Estimate, m: real, k: nat)
    requires k > 0
    ensures AllObserved(e, Constant(m, k)) == Observed(AllObserved(e, Constant(m, k - 1)), m)
  {
    assert Constant(m, k)[..k - 1] == Constant(m, k - 1);
  }

  lemma {:induction false} PowPositive(x: real, k: nat)
    requires x > 0.0
    ensures Pow(x, k) > 0.0
  {
    if k > 0 {
      PowPositive(x, k - 1);
    }
  }

  lemma AbsScales(p: real, d: real)
    requires p > 0.0
    ensures Abs(p * d) == p * Abs(d)
  {
    if d < 0.0 {
      assert p * d < 0.0;
    } else {
      assert p * d >= 0.0;
    }
  }

  lemma {:induction false} OneSample(e: Estimate, m: real, error: real)
    requires e.srtt - m == error
    ensures Observed(e, m).srtt - m == 0.875 * error
    ensures Observed(e, m).rttvar == 0.75 * e.rttvar + 0.25 * Abs(error)
  {
  }

  lemma Recombine(p: real, q: real, v: real, a: real)
    ensures 0.75 * (q * v + 2.0 * (p - q) * a) + 0.25 * (p * a)
         == (q * 0.75) * v + 2.0 * (p * 0.875 - q * 0.75) * a
  {
    assert 2.0 * (p - q) * a == 2.0 * (p * a) - 2.0 * (q * a);
    assert 2.0 * (p * 0.875 - q * 0.75) * a == 1.75 * (p * a) - 1.5 * (q * a);
  }

  /** x moved to the nearest point of [2, 60]. */
  predicate IsClamped(r: real, x: real) {
    && (2.0 <= x <= 60.0 ==> r == x)
    && (x < 2.0 ==> r == 2.0) && (x > 60.0 ==> r == 60.0)
  }

  /** The timeout after k equal samples m, in closed form: m, what is left of the first error, and four
      times the deviation that followed it, clamped to [2, 60]. */
  lemma {:induction false} TimeoutOfConstantSamples(e: Estimate, m: real, k: nat)
    ensures var x := m + Decayed(e.srtt - m, k) + 4.0 * Following(e.rttvar, Abs(e.srtt - m), k);
            IsClamped(Rto(AllObserved(e, Constant(m, k))), x)
  {
    ConstantSamples(e, m, k);
    hide Decayed, Following, AllObserved;
  }

  /** Whatever samples were seen, the timeout is at least the smoothed round-trip time, as far as 60. */
  lemma {:induction false} TimeoutCoversRoundTrip(samples: seq<real>, most: real)
    requires Within(samples, most) && most >= 0.0
    ensures var e := AllObserved(START, samples);
            && (e.srtt <= 60.0 ==> e.srtt <= Rto(e)) && (e.srtt > 60.0 ==> Rto(e) == 60.0)
            && (e.srtt < 60.0 && Rto(e) == e.srtt ==> e.rttvar == 0.0)
  {
    EstimatesBounded(samples, most);
    hide AllObserved;
  }

  /** The timeout is 3 seconds at the start and 6.75 after a first sample of 4. */
  lemma TimeoutExample()
    ensures Rto(START) == 3.0
    ensures Observed(START, 4.0) == Estimate(0.5, 1.5625) && Rto(Observed(START, 4.0)) == 6.75
  {
  }

  class RttInfo {
    var rtt: real
    var srtt: real
    var rttvar: real
    var rto: real
    var nrexmt: nat

    ghost function Est(): Estimate
      reads this
    {
      Estimate(srtt, rttvar)
    }

    constructor ()
    {
      rtt, srtt, rttvar, rto, nrexmt := 0.0, 0.0, 0.0, 0.0, 0;
    }

    method Init()
      modifies this
      ensures Est() == START && rto == Rto(START) == 3.0 && IsClamped(rto, srtt + 4.0 * rttvar)
    {
      rtt, srtt, rttvar := 0.0, 0.0, 0.75;
      rto := Minmax(srtt + 4.0 * rttvar);
    }

    method NewPack()
      modifies this`nrexmt
      ensures nrexmt == 0
    {
      nrexmt := 0;
    }

    method Stop(ms: nat)
      modifies this
      ensures Est() == Observed(old(Est()), ms as real / 1000.0) && nrexmt == old(nrexmt)
      ensures rto == Rto(Est()) && IsClamped(rto, srtt + 4.0 * rttvar)
    {
      rtt := ms as real / 1000.0;
      var delta := rtt - srtt;
      srtt := srtt + delta / 8.0;
      if delta < 0.0 {
        delta := -delta;
      }
      rttvar := rttvar + (delta - rttvar) / 4.0;
      rto := Minmax(srtt + 4.0 * rttvar);
    }

    /** True when it is time to give up. */
    method Timeout() returns (giveUp: bool)
      modifies this`rto, this`nrexmt
      ensures rto == 2.0 * old(rto) && nrexmt == old(nrexmt) + 1 && giveUp == (old(nrexmt) >= MAX_NREXMT)
    {
      rto := rto * 2.0;
      nrexmt := nrexmt + 1;
      giveUp := nrexmt > MAX_NREXMT;
    }
  }

  // ----- one request -----

  /** What happens while the client waits: the alarm, a datagram shorter than the header, or one with a
      sequence number and a body; `ms` is the age of the time stamp that it echoes, and `late` says that
      the alarm strikes after the datagram was read and before alarm(0). */
  datatype Event = Alarm | Short | Datagram(number: nat, ms: nat, body: string, late: bool)

  datatype Outcome = Waiting | GaveUp | Reply(body: string, ms: nat)

  /** A reply to the request that stops the timer in time. */
  predicate Matches(e: Event, number: nat) {
    e.Datagram? && e.number == number && !e.late
  }

  /** The jump out of the alarm handler, from the wait or with the reply already read. */
  predicate Strikes(e: Event, number: nat) {
    e.Alarm? || (e.Datagram? && e.number == number && e.late)
  }

  /** A peer that only echoes: a reply numbered n carries what request n asked. */
  ghost predicate Echoed(events: seq<Event>, asked: seq<string>) {
    forall i :: 0 <= i < |events| && events[i].Datagram? ==>
      0 < events[i].number <= |asked| ==> events[i].body == asked[events[i].number - 1]
  }

  function Alarms(events: seq<Event>, number: nat): nat {
    if events == [] then 0
    else Alarms(events[..|events| - 1], number) + (if Strikes(events[|events| - 1], number) then 1 else 0)
  }

  /** Nothing has ended the request during these events. */
  ghost predicate Open(events: seq<Event>, number: nat) {
    Alarms(events, number) <= MAX_NREXMT && forall i :: 0 <= i < |events| ==> !Matches(events[i], number)
  }

  /** How the request ends: with the first matching reply unless four alarms came before it. */
  ghost predicate EndsAt(events: seq<Event>, number: nat, k: nat, outcome: Outcome) {
    && k < |events| && Open(events[..k], number)
    && (if Matches(events[k], number) then outcome == Reply(events[k].body, events[k].ms)
        else Strikes(events[k], number) && Alarms(events[..k], number) == MAX_NREXMT && outcome == GaveUp)
  }

  function Rounded(rto: real): int {
    (rto + 0.5).Floor
  }

  lemma PowTwo(k: nat)
    requires k <= MAX_NREXMT
    ensures Pow(2.0, k) == if k == 0 then 1.0 else if k == 1 then 2.0 else if k == 2 then 4.0 else 8.0
  {
    assert Pow(2.0, 0) == 1.0;
    assert Pow(2.0, 1) == 2.0;
    assert Pow(2.0, 2) == 4.0;
  }

  /** The timeout after k doublings. */
  function BackedOff(first: real, k: nat): real {
    first * Pow(2.0, k)
  }

  lemma BackedOffNext(first: real, k: nat)
    ensures BackedOff(first, 0) == first && BackedOff(first, k + 1) == 2.0 * BackedOff(first, k)
  {
    var p := Pow(2.0, k);
    assert Pow(2.0, k + 1) == p * 2.0;
    assert first * (p * 2.0) == 2.0 * (first * p);
  }

  /** The alarms that a request sets: one for each transmission, doubling from its first timeout. */
  ghost predicate Doubling(alarms: seq<int>, first: real) {
    forall i :: 0 <= i < |alarms| ==> alarms[i] == Rounded(BackedOff(first, i))
  }

  lemma {:induction false} AlarmBounds(alarms: seq<int>, first: real)
    requires Doubling(alarms, first) && RXT_MIN <= first <= RXT_MAX && |alarms| <= MAX_NREXMT + 1
    ensures forall i :: 0 <= i < |alarms| ==> 2 <= alarms[i] <= 480
  {
    forall i | 0 <= i < |alarms| ensures 2 <= alarms[i] <= 480 {
      PowTwo(i);
    }
  }

  lemma OneAlarm(first: real)
    ensures Doubling([Rounded(first)], first)
  {
    BackedOffNext(first, 0);
  }

  lemma {:induction false} MoreAlarms(alarms: seq<int>, first: real)
    requires Doubling(alarms, first)
    ensures Doubling(alarms + [Rounded(BackedOff(first, |alarms|))], first)
  {
    hide BackedOff, Rounded;
  }

  lemma OpenAtFirst(number: nat)
    ensures Open([], number) && Alarms([], number) == 0
  {
  }

  lemma {:induction false} OpenNext(before: seq<Event>, e: Event, number: nat)
    requires Open(before, number)
    ensures Alarms(before + [e], number) == Alarms(before, number) + (if Strikes(e, number) then 1 else 0)
    ensures Alarms(before, number) <= MAX_NREXMT
    ensures Open(before + [e], number) <==> !Matches(e, number) && (Strikes(e, number) ==> Alarms(before, number) < MAX_NREXMT)
    ensures Strikes(e, number) ==> !Matches(e, number)
    ensures Matches(e, number) ==> e.Datagram? && e.number == number
  {
    var events := before + [e];
    assert events[..|events| - 1] == before && events[|before|] == e;
    hide Alarms;
  }

  class Client {
    const info: RttInfo
    var rttinit: bool
    var number: nat
    ghost var asked: seq<string>

    constructor ()
      ensures fresh(info) && Valid() && number == 0 && asked == [] && Begin() == START
    {
      info := new RttInfo();
      rttinit, number, asked := false, 0, [];
    }

    /** Between calls the timeout is that of the estimates; requests are numbered from 1. */
    ghost predicate Valid()
      reads this, info
    {
      |asked| == number && (rttinit ==> info.rto == Rto(info.Est()))
    }

    /** The estimates that the next call starts from. */
    ghost function Begin(): Estimate
      reads this, info
    {
      if rttinit then info.Est() else START
    }

    /** dg_send_recv against the events up to its end: at most four transmissions, each with the alarm
        doubled; it ends with the first reply that carries its own number, or after the fourth alarm. From
        a peer that echoes, the reply is the one to this request. */
    method SendRecv(out: string, events: seq<Event>) returns (outcome: Outcome, alarms: seq<int>, used: nat)
      requires Valid()
      modifies this, info
      ensures number == old(number) + 1 && asked == old(asked) + [out] && used <= |events|
      ensures outcome.Reply? && Echoed(events, asked) ==> outcome.body == out
      ensures forall i :: 0 <= i < |alarms| ==> 2 <= alarms[i] <= 480
      ensures 1 <= |alarms| <= MAX_NREXMT + 1 && Doubling(alarms, Rto(old(Begin())))
      ensures outcome.Waiting? ==> used == |events| && Open(events, number) && |alarms| == Alarms(events, number) + 1
      ensures !outcome.Waiting? ==> used > 0 && EndsAt(events, number, used - 1, outcome)
      ensures !outcome.Waiting? ==> Valid() && |alarms| == Alarms(events[..used - 1], number) + 1
      ensures outcome.Reply? ==> rttinit && info.Est() == Observed(old(Begin()), outcome.ms as real / 1000.0)
      ensures outcome.GaveUp? ==> !rttinit
    {
      hide BackedOff, Rounded, Rto, Observed, Open, Matches, Strikes, Alarms, Doubling;
      if !rttinit {
        info.Init();
        rttinit := true;
      }
      number, asked := number + 1, asked + [out];
      info.NewPack();
      ghost var first := info.rto;
      assert first == Rto(old(Begin()));
      alarms, used := [Rounded(info.rto)], 0;
      BackedOffNext(first, 0);
      OneAlarm(first);
      OpenAtFirst(number);
      assert events[..0] == [];
      while used < |events|
        invariant used <= |events| && Open(events[..used], number) && number == old(number) + 1 && rttinit
        invariant |alarms| == info.nrexmt + 1 <= MAX_NREXMT + 1 && info.nrexmt == Alarms(events[..used], number)
        invariant Doubling(alarms, first) && info.rto == BackedOff(first, info.nrexmt)
        invariant info.Est() == old(Begin()) && asked == old(asked) + [out] && |asked| == number
      {
        var e := events[used];
        ghost var before := events[..used];
        assert events[..used + 1] == before + [e] && events[used..used + 1] == [e];
        OpenNext(before, e, number);
        BackedOffNext(first, info.nrexmt);
        used := used + 1;
        if Strikes(e, number) {
          var giveUp := info.Timeout();
          if giveUp {
            rttinit := false;
            AlarmBounds(alarms, first);
            return GaveUp, alarms, used;
          }
          MoreAlarms(alarms, first);
          alarms := alarms + [Rounded(info.rto)];
        } else if Matches(e, number) {
          info.Stop(e.ms);
          AlarmBounds(alarms, first);
          return Reply(e.body, e.ms), alarms, used;
        }
      }
      assert events[..used] == events;
      AlarmBounds(alarms, first);
      return Waiting, alarms, used;
    }
  }

  /** The end of a request is unique, so the outcome is decided by the events alone. */
  lemma {:induction false} EndIsUnique(events: seq<Event>, number: nat, k: nat, k': nat, o: Outcome, o': Outcome)
    requires EndsAt(events, number, k, o) && EndsAt(events, number, k', o')
    ensures k == k' && o == o'
  {
    if k < k' {
      NotOpenAfter(events, number, k, k', o);
    } else if k' < k {
      NotOpenAfter(events, number, k', k, o');
    }
  }

  lemma {:induction false} NotOpenAfter(events: seq<Event>, number: nat, k: nat, n: nat, o: Outcome)
    requires EndsAt(events, number, k, o) && k < n <= |events|
    ensures !Open(events[..n], number)
  {
    var front := events[..n];
    assert front[k] == events[k];
    if !Matches(events[k], number) {
      assert events[..k + 1][..k] == events[..k];
      assert front[..k + 1] == events[..k + 1];
      AlarmsGrow(front, number, k + 1);
    }
  }

  lemma {:induction false} AlarmsGrow(events: seq<Event>, number: nat, k: nat)
    requires k <= |events|
    ensures Alarms(events[..k], number) <= Alarms(events, number)
    decreases |events|
  {
    if k == |events| {
      assert events[..k] == events;
    } else {
      var n := |events| - 1;
      assert events[..n][..k] == events[..k];
      AlarmsGrow(events[..n], number, k);
    }
  }

  lemma {:induction false} FourAlarms(alarms: seq<int>)
    requires |alarms| == 4 && Doubling(alarms, 6.75)
    ensures alarms == [7, 14, 27, 54]
  {
    PowTwo(0);
    PowTwo(1);
    PowTwo(2);
    PowTwo(3);
    assert BackedOff(6.75, 0) == 6.75 && BackedOff(6.75, 1) == 13.5;
    assert BackedOff(6.75, 2) == 27.0 && BackedOff(6.75, 3) == 54.0;
  }

  /** A reply that comes first ends the request. */
  lemma {:induction false} AtOnce(number: nat, ms: nat, body: string)
    ensures EndsAt([Datagram(number, ms, body, false)], number, 0, Reply(body, ms))
    ensures !Open([Datagram(number, ms, body, false)], number)
  {
    var events := [Datagram(number, ms, body, false)];
    assert events[..0] == [] && Matches(events[0], number);
  }

  /** Four alarms and nothing else. */
  lemma SilentPeer(number: nat)
    ensures EndsAt([Alarm, Alarm, Alarm, Alarm], number, 3, GaveUp) && !Open([Alarm, Alarm, Alarm, Alarm], number)
    ensures Alarms([Alarm, Alarm, Alarm, Alarm][..3], number) == 3
  {
    var silent := [Alarm, Alarm, Alarm, Alarm];
    assert silent[..3] == [Alarm, Alarm, Alarm] && silent[..3][..2] == [Alarm, Alarm];
    assert [Alarm, Alarm][..1] == [Alarm] && [Alarm][..0] == [];
    assert Alarms([Alarm], number) == 1 && Alarms([Alarm, Alarm], number) == 2;
    assert Alarms([Alarm, Alarm, Alarm], number) == 3;
    assert Alarms(silent, number) == 4;
  }

  /** The first reply takes 4000 ms, the second never comes: the second call sets its alarms to 7, 14, 27
      and 54 seconds and gives up. */
  method SlowPeerExample() returns (first: Outcome, second: Outcome, alarms: seq<int>)
    ensures first == Reply("a", 4000) && second == GaveUp && alarms == [7, 14, 27, 54]
  {
    hide Rto, Observed, Doubling, EndsAt, Open, Alarms;
    TimeoutExample();
    var client := new Client();
    var events, silent := [Datagram(1, 4000, "a", false)], [Alarm, Alarm, Alarm, Alarm];
    AtOnce(1, 4000, "a");
    SilentPeer(2);
    var used;
    first, alarms, used := client.SendRecv("x", events);
    assert !first.Waiting?;
    EndIsUnique(events, 1, used - 1, 0, first, Reply("a", 4000));
    second, alarms, used := client.SendRecv("y", silent);
    assert !second.Waiting?;
    EndIsUnique(silent, 2, used - 1, 3, second, GaveUp);
    FourAlarms(alarms);
  }

  /** After three alarms the reply is read, and the fourth strikes before alarm(0): the call gives up with
      the reply in its hands. */
  lemma DiscardedReplyExample()
    ensures EndsAt([Alarm, Alarm, Alarm, Datagram(1, 500, "x", true)], 1, 3, GaveUp)
  {
    var events := [Alarm, Alarm, Alarm, Datagram(1, 500, "x", true)];
    assert events[..3] == [Alarm, Alarm, Alarm];
    assert [Alarm, Alarm, Alarm][..2] == [Alarm, Alarm] && [Alarm, Alarm][..1] == [Alarm] && [Alarm][..0] == [];
    assert Alarms([Alarm], 1) == 1 && Alarms([Alarm, Alarm], 1) == 2;
  }

  // ----- any sequence of calls -----

  datatype Call = Call(out: string, events: seq<Event>)

  /** How a call ended, the alarms it set, and the estimates after it. */
  datatype Result = Result(outcome: Outcome, alarms: seq<int>, estimate: Estimate)

  /** The round-trip times measured since the last time a call gave up. */
  function Samples(results: seq<Result>): seq<real> {
    if results == [] then []
    else
      var before, last := Samples(results[..|results| - 1]), results[|results| - 1].outcome;
      match last
      case Waiting => before
      case GaveUp => []
      case Reply(_, ms) => before + [ms as real / 1000.0]
  }

  function Largest(samples: seq<real>): real {
    if samples == [] then 0.0
    else
      var most, last := Largest(samples[..|samples| - 1]), samples[|samples| - 1];
      if last > most then last else most
  }

  lemma {:induction false} LargestBounds(samples: seq<real>)
    requires forall i :: 0 <= i < |samples| ==> samples[i] >= 0.0
    ensures Largest(samples) >= 0.0 && Within(samples, Largest(samples))
  {
    if samples != [] {
      LargestBounds(samples[..|samples| - 1]);
    }
  }

  lemma {:induction false} SamplesPositive(results: seq<Result>)
    ensures forall i :: 0 <= i < |Samples(results)| ==> Samples(results)[i] >= 0.0
  {
    if results != [] {
      SamplesPositive(results[..|results| - 1]);
    }
  }

  function Outs(calls: seq<Call>): seq<string> {
    if calls == [] then [] else Outs(calls[..|calls| - 1]) + [calls[|calls| - 1].out]
  }

  /** The estimates that the next call starts from. */
  function Carried(results: seq<Result>): Estimate {
    if results == [] then START else results[|results| - 1].estimate
  }

  /** What call number n promises: how its alarms run, how it ends, what it returns, and that the
      estimates are those of the samples since the last failure, and within them. */
  ghost predicate Kept(c: Call, n: nat, asked: seq<string>, begin: Estimate, samples: seq<real>, r: Result) {
    && 1 <= |r.alarms| <= MAX_NREXMT + 1 && Doubling(r.alarms, Rto(begin))
    && (forall i :: 0 <= i < |r.alarms| ==> 2 <= r.alarms[i] <= 480)
    && (r.outcome.Waiting? ==> Open(c.events, n))
    && (!r.outcome.Waiting? ==> exists k :: EndsAt(c.events, n, k, r.outcome))
    && (r.outcome.Reply? && Echoed(c.events, asked) ==> r.outcome.body == c.out)
    && r.estimate == AllObserved(START, samples)
    && 0.0 <= r.estimate.srtt <= Largest(samples)
    && 0.0 <= r.estimate.rttvar <= if Largest(samples) > 0.75 then Largest(samples) else 0.75
  }

  /** The last of these calls keeps its promise, given all before it. */
  ghost predicate LastCall(calls: seq<Call>, results: seq<Result>)
    requires |calls| == |results| > 0
  {
    var n := |calls|;
    Kept(calls[n - 1], n, Outs(calls), Carried(results[..n - 1]), Samples(results), results[n - 1])
  }

  lemma {:induction false} LastCallKept(calls: seq<Call>, results: seq<Result>, r: Result)
    requires |results| < |calls|
    requires Kept(calls[|results|], |results| + 1, Outs(calls[..|results| + 1]), Carried(results), Samples(results + [r]), r)
    ensures LastCall(calls[..|results| + 1], results + [r])
  {
    hide Kept, Carried, Samples, Outs;
    assert (results + [r])[..|results|] == results;
  }

  lemma {:induction false} SamplesNext(results: seq<Result>, r: Result)
    ensures r.outcome.Waiting? ==> Samples(results + [r]) == Samples(results)
    ensures r.outcome.GaveUp? ==> Samples(results + [r]) == []
    ensures r.outcome.Reply? ==> Samples(results + [r]) == Samples(results) + [r.outcome.ms as real / 1000.0]
  {
    assert (results + [r])[..|results|] == results;
  }

  lemma {:induction false} ObservedNext(e: Estimate, samples: seq<real>, x: real)
    ensures AllObserved(e, samples + [x]) == Observed(AllObserved(e, samples), x)
  {
    assert (samples + [x])[..|samples|] == samples;
  }

  /** The estimates after one more call are those of one more sample, or the start again. */
  lemma {:induction false} EstimateNext(results: seq<Result>, r: Result)
    requires Carried(results) == AllObserved(START, Samples(results))
    requires r.outcome.Waiting? ==> r.estimate == Carried(results)
    requires r.outcome.GaveUp? ==> r.estimate == START
    requires r.outcome.Reply? ==> r.estimate == Observed(Carried(results), r.outcome.ms as real / 1000.0)
    ensures var samples := Samples(results + [r]);
            && r.estimate == AllObserved(START, samples) && 0.0 <= r.estimate.srtt <= Largest(samples)
            && 0.0 <= r.estimate.rttvar <= if Largest(samples) > 0.75 then Largest(samples) else 0.75
  {
    var samples := Samples(results + [r]);
    SamplesNext(results, r);
    if r.outcome.Reply? {
      ObservedNext(START, Samples(results), r.outcome.ms as real / 1000.0);
    }
    SamplesPositive(results + [r]);
    LargestBounds(samples);
    hide Samples, Largest, Observed, Carried;
    EstimatesBounded(samples, Largest(samples));
  }

  lemma {:induction false} OutsNext(calls: seq<Call>, k: nat)
    requires k < |calls|
    ensures Outs(calls[..k + 1]) == Outs(calls[..k]) + [calls[k].out]
  {
    assert calls[..k + 1][..k] == calls[..k];
  }

  /** A client that makes these calls one after the other, until one does not end: every call keeps its
      promise, the estimates are always those of the samples since the last failure and within them,
      and an echoing peer's replies are those to their own requests. */
  method Session(calls: seq<Call>) returns (results: seq<Result>)
    ensures |results| <= |calls|
    ensures forall k :: 0 <= k < |results| - 1 ==> !results[k].outcome.Waiting?
    ensures |results| < |calls| ==> results != [] && results[|results| - 1].outcome.Waiting?
    ensures forall n :: 1 <= n <= |results| ==> LastCall(calls[..n], results[..n])
  {
    hide LastCall, Outs;
    var client := new Client();
    results := [];
    NothingYet();
    assert calls[..0] == [];
    while |results| < |calls|
      invariant |results| <= |calls| && client.Valid() && fresh(client) && fresh(client.info)
      invariant client.number == |results| && client.asked == Outs(calls[..|results|])
      invariant client.Begin() == Carried(results) == AllObserved(START, Samples(results))
      invariant forall k :: 0 <= k < |results| ==> !results[k].outcome.Waiting?
      invariant forall n :: 1 <= n <= |results| ==> LastCall(calls[..n], results[..n])
      decreases |calls| - |results|
    {
      var r := OneCall(client, calls, results);
      OneMoreCall(calls, results, r);
      results := results + [r];
      if r.outcome.Waiting? {
        return;
      }
    }
  }

  lemma NothingYet()
    ensures Outs([]) == [] && Carried([]) == START == AllObserved(START, Samples([]))
  {
  }

  /** One call of the session. */
  method OneCall(client: Client, calls: seq<Call>, results: seq<Result>) returns (r: Result)
    requires |results| < |calls| && client.Valid() && client.number == |results|
    requires client.asked == Outs(calls[..|results|])
    requires client.Begin() == Carried(results) == AllObserved(START, Samples(results))
    modifies client, client.info
    ensures client.number == |results| + 1 && client.asked == Outs(calls[..|results| + 1])
    ensures !r.outcome.Waiting? ==> client.Valid() && client.Begin() == r.estimate
    ensures LastCall(calls[..|results| + 1], results + [r])
    ensures r.estimate == AllObserved(START, Samples(results + [r]))
  {
    hide Outs, Samples, Largest, Observed, AllObserved, EndsAt, Open, Doubling, Rto, Echoed, Carried, LastCall;
    var n := |results|;
    var before := Carried(results);
    OutsNext(calls, n);
    var outcome, alarms, used := client.SendRecv(calls[n].out, calls[n].events);
    match outcome {
      case Waiting => r := Result(outcome, alarms, before);
      case GaveUp => r := Result(outcome, alarms, START);
      case Reply(_, _) => r := Result(outcome, alarms, Estimate(client.info.srtt, client.info.rttvar));
    }
    EstimateNext(results, r);
    assert !outcome.Waiting? ==> EndsAt(calls[n].events, n + 1, used - 1, outcome);
    LastCallKept(calls, results, r);
  }

  lemma {:induction false} OneMoreCall(calls: seq<Call>, results: seq<Result>, r: Result)
    requires |results| < |calls| && LastCall(calls[..|results| + 1], results + [r])
    requires forall n :: 1 <= n <= |results| ==> LastCall(calls[..n], results[..n])
    ensures forall n :: 1 <= n <= |results| + 1 ==> LastCall(calls[..n], (results + [r])[..n])
  {
    hide LastCall;
    var more := results + [r];
    forall n | 1 <= n <= |more| ensures LastCall(calls[..n], more[..n]) {
      assert n <= |results| ==> more[..n] == results[..n];
      assert more[..|results| + 1] == more;
    }
  }
}
