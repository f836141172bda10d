/** How far the producer may run ahead before it gives up, and that the consumer never gets stuck on
    packets that are there. */
module CaptureBounds {
  import opened CapturedPackets
  import opened CaptureProtocol

  function Backlog(s: State): int {
    |s.stored| - |s.examined|
  }

  /** The producer only fails with at least n unread packets, and there are never more than 2n. */
  lemma RunCapacity(run: seq<State>, i: nat)
    requires IsRun(run) && i < |run|
    ensures 0 <= Backlog(run[i]) <= 2 * run[i].n
    ensures run[i].producer == Failed ==> Backlog(run[i]) >= run[i].n
  {
    RunInv(run, i);
  }

  // ----- a run that overruns

  const SAMPLE: Packet := Packet([0], DestinationRemote, TimeVal(0, 0))

  /** A state between two packets and between two examinations, with only sample packets stored. */
  ghost predicate Quiet(s: State) {
    // a match, so that proof obligations treat it as one fact
    match Inv(s)
    case false => false
    case true =>
      && s.producer == Idle && s.consumer == ReadFlag
      && s.requests == [Request([0], SourceRemote)] && s.times == []
      && (forall i :: 0 <= i < |s.stored| ==> s.stored[i] == SAMPLE)
  }

  /** Stores one more sample packet, switching buffers first if that is due and possible. */
  lemma ProduceOne(s: State) returns (t: State, path: seq<State>)
    requires Quiet(s) && !OutOfRoom(s)
    ensures Reaches(s, t, path) && Quiet(t)
    ensures t.n == s.n && |t.stored| == |s.stored| + 1 && t.examined == s.examined
    ensures t.indexC == s.indexC && t.flagC == s.flagC
    ensures if s.indexP == s.n then t.indexP == 1 && t.flagP != s.flagP
            else t.indexP == s.indexP + 1 && t.flagP == s.flagP
  {
    hide QueueOk, CallsOk, Reaches, Copied;
    path := StoreIsRun(s, SAMPLE);
    t := AfterStore(s, SAMPLE);
    ReachesInv(s, t, path);
  }

  lemma {:induction false} ProduceMany(s: State, count: nat) returns (t: State, path: seq<State>)
    requires Quiet(s) && s.indexP + count <= s.n
    ensures Reaches(s, t, path) && Quiet(t)
    ensures t.n == s.n && |t.stored| == |s.stored| + count && t.examined == s.examined
    ensures t.indexP == s.indexP + count && t.flagP == s.flagP && t.indexC == s.indexC && t.flagC == s.flagC
    decreases count
  {
    if count == 0 {
      t, path := s, [s];
    } else {
      var u, first := ProduceOne(s);
      var rest;
      t, rest := ProduceMany(u, count - 1);
      ReachesTrans(s, u, t, first, rest);
      path := first + rest[1..];
    }
  }

  /** Examines one packet of the buffer that both threads are in; it is not the one asked for. */
  lemma ConsumeOne(s: State) returns (t: State, path: seq<State>)
    requires Quiet(s) && s.flagP == s.flagC && s.indexC < s.indexP
    ensures Reaches(s, t, path) && Quiet(t)
    ensures t == s.(examined := t.examined, indexC := s.indexC + 1) && |t.examined| == |s.examined| + 1
  {
    hide QueueOk, CallsOk, Reaches;
    path := PassIsRun(s);
    t := AfterPass(s);
    ReachesInv(s, t, path);
  }

  lemma {:induction false} ConsumeMany(s: State, count: nat) returns (t: State, path: seq<State>)
    requires Quiet(s) && s.flagP == s.flagC && s.indexC + count <= s.indexP
    ensures Reaches(s, t, path) && Quiet(t)
    ensures t == s.(examined := t.examined, indexC := s.indexC + count) && |t.examined| == |s.examined| + count
    decreases count
  {
    if count == 0 {
      t, path := s, [s];
    } else {
      var u, first := ConsumeOne(s);
      var rest;
      t, rest := ConsumeMany(u, count - 1);
      ReachesTrans(s, u, t, first, rest);
      path := first + rest[1..];
    }
  }

  /** The consumer has examined everything and waits behind the end of a full buffer. */
  lemma CaughtUp(n: nat) returns (s: State, t: State, path: seq<State>)
    requires n > 0
    ensures Init(s) && Quiet(s) && Reaches(s, t, path) && Quiet(t)
    ensures t.n == t.indexP == t.indexC == n && t.flagP == t.flagC && |t.stored| == |t.examined|
  {
    var blank := PacketInfo(seq(MAX_PACKET_SIZE, _ => 0), 0, DestinationRemote, TimeVal(0, 0));
    var buffer := seq(n, _ => blank);
    s := State(n, [Request([0], SourceRemote)], buffer, buffer, false, false, 0, 0, Idle, ReadFlag, [], [], [], 0, 0);
    assert Init(s);
    InitInv(s);
    hide QueueOk, CallsOk, Reaches;
    var s1, p1 := ProduceMany(s, n);
    var p2;
    t, p2 := ConsumeMany(s1, n);
    ReachesTrans(s, s1, t, p1, p2);
    path := p1 + p2[1..];
  }

  lemma ReachesIsRun(s: State, t: State, path: seq<State>)
    requires Init(s) && Reaches(s, t, path)
    ensures IsRun(path) && path[|path| - 1] == t
  {
  }

  /** The bound is tight for every buffer size: with exactly n unread packets the producer can fail. */
  lemma OverrunAtExactlyN(n: nat) returns (run: seq<State>)
    requires n > 0
    ensures IsRun(run)
    ensures var s := run[|run| - 1]; s.n == n && s.producer == Failed && Backlog(s) == n
  {
    var s0, s2, p2 := CaughtUp(n);
    var s3, p3 := ProduceOne(s2);
    var s4, p4 := ProduceMany(s3, n - 1);
    var s5 := s4.(producer := Test(SAMPLE));
    assert Storable(SAMPLE) && ProducerStep(s4, s5);
    var s6 := s5.(producer := Failed);
    assert ProducerStep(s5, s6);
    var p5 := [s4, s5, s6];
    ReachesTrans(s0, s2, s3, p2, p3);
    ReachesTrans(s0, s3, s4, p2 + p3[1..], p4);
    ReachesTrans(s0, s4, s6, p2 + p3[1..] + p4[1..], p5);
    run := p2 + p3[1..] + p4[1..] + p5[1..];
    ReachesIsRun(s0, s6, run);
  }

  /** The state that HalfSwitch warns of is real for every buffer size: a run reaches a switch of the
      producer with the consumer caught up, and if that switch is only half done when the consumer does
      its tests, the consumer goes on to examine a slot behind the end of its buffer. */
  lemma HalfSwitchHappens(n: nat) returns (run: seq<State>)
    requires n > 0
    ensures IsRun(run)
    ensures var s := run[|run| - 1];
            && s.n == n && s.producer.Switch? && s.consumer == ReadFlag && s.indexC == n
            && var u := AfterTests(s.(indexP := 0));
               u.consumer == Examine && u.indexC == |Buffer(u, u.flagC)|
  {
    var s0, s2, p2 := CaughtUp(n);
    var s3 := s2.(producer := Test(SAMPLE));
    assert Storable(SAMPLE) && ProducerStep(s2, s3);
    var s4 := s3.(producer := Switch(SAMPLE));
    assert ProducerStep(s3, s4);
    var p4 := [s2, s3, s4];
    ReachesTrans(s0, s2, s4, p2, p4);
    run := p2 + p4[1..];
    ReachesIsRun(s0, s4, run);
    ReachesInv(s0, s4, run);
    HalfSwitch(s4);
  }

  // ----- progress of the consumer

  function ConsumerRun(s: State, steps: nat): State
    decreases steps
  {
    if steps == 0 || !ConsumerEnabled(s) then s else ConsumerRun(ConsumerNext(s), steps - 1)
  }

  lemma StaysEnabled(s: State)
    requires Inv(s) && s.producer != Failed && s.consumer != Done
    ensures ConsumerEnabled(s)
  {
  }

  /** Steps left until the consumer examines a packet that is there, or returns from its last call, at
      most, whatever the producer does meanwhile. */
  function Rank(s: State): nat {
    match s.consumer
    case Examine => 0
    case TestSwitch => if s.flagP != s.flagC && s.indexC == s.n then 7 else 1
    case ReadIndex => if s.indexC == s.n then 9 else 3
    case ReadFlag => if s.indexC == s.n then 8 else if s.flagP == s.flagC then 4 else 2
    case ClearIndex => 5
    case FlipFlag => 6
    case Advance(hit) => if hit then 10 else 9
    case Deliver => 9
    case Done => 0
  }

  /** With a packet waiting, or the last hit still to be delivered, no step is taken in vain. */
  lemma RankDrops(s: State)
    requires Shape(s) && Aligned(s) && ConsumerOk(s) && ConsumerEnabled(s) && s.consumer != Examine
    requires |s.examined| < |s.stored| || s.consumer == Advance(true) || s.consumer == Deliver
    ensures var t := ConsumerNext(s);
            && t.stored == s.stored && t.examined == s.examined && t.requests == s.requests
            && Rank(t) < Rank(s)
  {
  }

  /** No step of the producer, not even its switch of buffers, sets the consumer back. */
  lemma RankStays(s: State, t: State)
    requires QueueOk(s) && ProducerStep(s, t)
    ensures Rank(t) <= Rank(s) && t.examined == s.examined && t.requests == s.requests && s.stored <= t.stored
  {
    hide Contained;
  }

  /** A consumer that has seen all of `trace`, in which all requests occur, is done or about to return. */
  lemma EverythingFound(s: State, trace: seq<Packet>, at: seq<nat>)
    requires Inv(s) && s.consumer != Done && trace <= s.stored && Embeds(s.requests, trace, at)
    ensures |s.examined| < |trace| || s.consumer == Advance(true) || s.consumer == Deliver
  {
    if |trace| <= |s.examined| {
      assert s.examined[..|trace|] == trace && s.requests[..|s.requests|] == s.requests;
      ScanGrows(s.requests, s.examined, |trace|);
      ScanIsEarliest(s.requests, trace, |s.requests|, at);
    }
  }

  /** Eleven steps for every packet of `trace` that is still to be examined, and what is left of the
      current round. */
  function StepsLeft(s: State, trace: seq<Packet>): int {
    11 * (|trace| - |s.examined|) + Rank(s)
  }

  ghost predicate Searching(s: State, trace: seq<Packet>, at: seq<nat>) {
    && Inv(s) && Embeds(s.requests, trace, at)
    && trace <= s.stored && |s.examined| <= |trace|
  }

  lemma ConsumerStepCounts(s: State, trace: seq<Packet>, at: seq<nat>)
    requires Searching(s, trace, at) && ConsumerEnabled(s)
    ensures Searching(ConsumerNext(s), trace, at)
    ensures ConsumerNext(s).requests == s.requests && StepsLeft(ConsumerNext(s), trace) < StepsLeft(s, trace)
  {
    hide CallsOk, Contained, ProducerOk, Embeds;
    ConsumerKeepsInv(s);
    EverythingFound(s, trace, at);
    if s.consumer != Examine {
      RankDrops(s);
    }
  }

  lemma ProducerStepIsFree(s: State, t: State, trace: seq<Packet>, at: seq<nat>)
    requires Searching(s, trace, at) && ProducerStep(s, t)
    ensures Searching(t, trace, at) && t.requests == s.requests && StepsLeft(t, trace) <= StepsLeft(s, trace)
  {
    hide QueueOk, CallsOk, ProducerStep, Embeds, Rank;
    ProducerKeepsInv(s, t);
    RankStays(s, t);
  }

  /** Every call has returned, with the times of the packets that the greedy search of `trace` finds. */
  ghost predicate Returned(t: State, requests: seq<Request>, trace: seq<Packet>) {
    && t.consumer == Done && t.requests == requests
    && |t.times| == |requests| && TimesOf(Scan(requests, trace), trace, t.times)
  }

  lemma DoneTimes(s: State, trace: seq<Packet>, at: seq<nat>)
    requires Inv(s) && s.consumer == Done && trace <= s.stored && Embeds(s.requests, trace, at)
    ensures Returned(s, s.requests, trace)
  {
    hide CallsOk, Embeds, TimesOf, Aligned, Contained, ProducerOk, ConsumerOk;
    DoneValues(s.requests, s.stored, s.examined, s.times, trace, at);
  }

  lemma DoneValues(requests: seq<Request>, stored: seq<Packet>, examined: seq<Packet>, times: seq<TimeVal>,
                   trace: seq<Packet>, at: seq<nat>)
    requires CallsOk(requests, examined, times, Done) && examined <= stored
    requires trace <= stored && Embeds(requests, trace, at)
    ensures |times| == |requests| && TimesOf(Scan(requests, trace), trace, times)
  {
    ScanGrows(requests, stored, |examined|);
    ScanGrows(requests, stored, |trace|);
    assert stored[..|examined|] == examined && stored[..|trace|] == trace;
    assert requests[..|requests|] == requests;
    ScanIsEarliest(requests, trace, |requests|, at);
  }

  function ConsumerSteps(path: seq<State>): nat {
    if |path| < 2 then 0
    else (if ConsumerEnabled(path[0]) && path[1] == ConsumerNext(path[0]) then 1 else 0) + ConsumerSteps(path[1..])
  }

  lemma {:induction false} StepsAreBounded(s: State, t: State, path: seq<State>, trace: seq<Packet>, at: seq<nat>)
    requires Searching(s, trace, at) && Reaches(s, t, path)
    ensures Searching(t, trace, at) && t.requests == s.requests
    ensures ConsumerSteps(path) <= StepsLeft(s, trace) - StepsLeft(t, trace)
    decreases |path|
  {
    hide Searching, StepsLeft, ProducerStep;
    if |path| > 1 {
      var u, rest := path[1], path[1..];
      assert Next(path[0], u);
      forall i | 0 <= i < |rest| - 1 ensures Next(rest[i], rest[i + 1]) {
        assert Next(path[i + 1], path[i + 1 + 1]);
      }
      if ConsumerEnabled(s) && u == ConsumerNext(s) {
        ConsumerStepCounts(s, trace, at);
      } else {
        ProducerStepIsFree(s, u, trace, at);
      }
      StepsAreBounded(u, t, rest, trace, at);
    }
  }

  /** If the requests occur in this order among the packets stored so far at all, then in every run from
      here, whatever the producer does in between, the consumer takes at most eleven steps per unread
      packet, and ten more, until all calls have returned with the times of the greedy positions; it is
      never blocked before that unless the producer fails. */
  lemma AllCallsReturn(s: State, t: State, path: seq<State>, at: seq<nat>)
    requires Inv(s) && Embeds(s.requests, s.stored, at) && Reaches(s, t, path)
    ensures ConsumerSteps(path) <= 11 * Backlog(s) + 10
    ensures Returned(t, s.requests, s.stored) || ConsumerEnabled(t) || t.producer == Failed
  {
    hide CallsOk, Embeds, Reaches, ConsumerSteps, ProducerOk, Contained, ConsumerOk;
    StepsAreBounded(s, t, path, s.stored, at);
    if t.consumer == Done {
      DoneTimes(t, s.stored, at);
    } else if t.producer != Failed {
      StaysEnabled(t);
    }
  }

  /** In particular the consumer alone brings all calls to their return. */
  lemma ConsumerAlone(s: State, at: seq<nat>) returns (steps: nat)
    requires Inv(s) && s.producer != Failed && Embeds(s.requests, s.stored, at)
    ensures steps <= 11 * Backlog(s) + 10
    ensures Returned(ConsumerRun(s, steps), s.requests, s.stored)
  {
    hide CallsOk, Embeds, ProducerOk, Contained, ConsumerOk, Returned;
    steps := CallsReturn(s, s.stored, at);
  }

  lemma {:induction false} CallsReturn(s: State, trace: seq<Packet>, at: seq<nat>) returns (steps: nat)
    requires Searching(s, trace, at) && s.producer != Failed
    ensures steps <= StepsLeft(s, trace)
    ensures Returned(ConsumerRun(s, steps), s.requests, trace)
    decreases StepsLeft(s, trace)
  {
    hide Inv, Embeds, Returned;
    if s.consumer == Done {
      steps := 0;
      DoneTimes(s, trace, at);
    } else {
      StaysEnabled(s);
      ConsumerStepCounts(s, trace, at);
      steps := CallsReturn(ConsumerNext(s), trace, at);
      steps := steps + 1;
    }
  }
}
