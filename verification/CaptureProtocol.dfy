/** The two threads of the packet capture as a state machine: handlePacket (producer) and a list of
    timingForPacket calls (consumer) share two buffers of n slots, two indices and two one-bit flags.
    Every access to shared state is a step of its own, down to the single bytes and fields that
    handlePacket copies into a slot; only the producer's two-assignment buffer switch is one step. */
module CaptureProtocol {
  import opened CapturedPackets

  datatype ProducerPc =
    | Idle
    | Test(p: Packet)             // index test and, if the buffer is full, the test of the flags
    | Switch(p: Packet)           // the other buffer is free: go there
    | Fill(p: Packet, done: nat)  // `done` of the slot's bytes and fields are written
    | Failed                      // `throw;` outside a handler: the process terminates

  datatype ConsumerPc =
    | ReadFlag               // first half of the "no new packets" test
    | ReadIndex              // its second half, reached when the flags were seen equal
    | TestSwitch             // "end of the current buffer" test
    | FlipFlag               // first half of the consumer's switch
    | ClearIndex             // second half
    | Examine                // compare the request with the current slot
    | Advance(hit: bool)     // increment the index
    | Deliver                // read the time through the pointer kept since Examine, and return
    | Done                   // all calls have returned

  datatype State = State(
    n: nat, requests: seq<Request>,
    // shared
    bufferA: seq<PacketInfo>, bufferB: seq<PacketInfo>,
    flagP: bool, flagC: bool, indexP: nat, indexC: nat,
    // private
    producer: ProducerPc, consumer: ConsumerPc, times: seq<TimeVal>,
    // history: everything published, everything examined, and how often each side switched buffers
    stored: seq<Packet>, examined: seq<Packet>, epochP: nat, epochC: nat)

  function Buffer(s: State, flag: bool): seq<PacketInfo> {
    if flag then s.bufferB else s.bufferA
  }

  function SetSlot(s: State, flag: bool, i: nat, slot: PacketInfo): State
    requires i < |Buffer(s, flag)|
  {
    if flag then s.(bufferB := s.bufferB[i := slot]) else s.(bufferA := s.bufferA[i := slot])
  }

  ghost predicate Init(s: State) {
    && s.n > 0 && |s.bufferA| == |s.bufferB| == s.n
    && (forall i :: 0 <= i < s.n ==> |s.bufferA[i].payload| == |s.bufferB[i].payload| == MAX_PACKET_SIZE)
    && !s.flagP && !s.flagC && s.indexP == s.indexC == 0
    && s.producer == Idle && s.consumer == (if s.requests == [] then Done else ReadFlag)
    && s.times == [] && s.stored == [] && s.examined == [] && s.epochP == s.epochC == 0
  }

  // ----- steps of the producer

  /** Writes byte or field number i of packet p: first the payload bytes, then the size, the
      direction and the two halves of the time. */
  function WriteField(slot: PacketInfo, p: Packet, i: nat): PacketInfo
    requires |p.data| <= |slot.payload|
  {
    if i < |p.data| then slot.(payload := slot.payload[i := p.data[i]])
    else if i == |p.data| then slot.(payloadSize := |p.data|)
    else if i == |p.data| + 1 then slot.(direction := p.direction)
    else if i == |p.data| + 2 then slot.(timing := slot.timing.(sec := p.timing.sec))
    else slot.(timing := slot.timing.(usec := p.timing.usec))
  }

  function FieldCount(p: Packet): nat {
    |p.data| + 4
  }

  ghost predicate ProducerStep(s: State, t: State) {
    match s.producer
    case Idle =>
      exists p :: Storable(p) && t == s.(producer := Test(p))
    case Test(p) =>
      if s.indexP != s.n then t == s.(producer := Fill(p, 0))
      else if s.flagP == s.flagC then t == s.(producer := Switch(p))
      else t == s.(producer := Failed)
    case Switch(p) =>
      t == s.(indexP := 0, flagP := !s.flagP, epochP := s.epochP + 1, producer := Fill(p, 0))
    case Fill(p, done) =>
      if done < FieldCount(p) then
        && s.indexP < |Buffer(s, s.flagP)| && |p.data| <= |Buffer(s, s.flagP)[s.indexP].payload|
        && t == SetSlot(s, s.flagP, s.indexP, WriteField(Buffer(s, s.flagP)[s.indexP], p, done))
                .(producer := Fill(p, done + 1))
      else t == s.(indexP := s.indexP + 1, stored := s.stored + [p], producer := Idle)
    case Failed => false
  }

  // ----- steps of the consumer

  /** What a slot says when it is read. */
  function Contents(slot: PacketInfo): Packet {
    Packet(if slot.payloadSize <= |slot.payload| then slot.payload[..slot.payloadSize] else slot.payload,
           slot.direction, slot.timing)
  }

  predicate ConsumerEnabled(s: State) {
    && s.producer != Failed && s.consumer != Done
    && (s.consumer == Examine ==> s.indexC < |Buffer(s, s.flagC)| && |s.times| < |s.requests|)
    && (s.consumer == Deliver ==> 0 < s.indexC <= |Buffer(s, s.flagC)|)
  }

  function ConsumerNext(s: State): State
    requires ConsumerEnabled(s)
  {
    match s.consumer
    case ReadFlag => s.(consumer := if s.flagP == s.flagC then ReadIndex else TestSwitch)
    case ReadIndex => s.(consumer := if s.indexP == s.indexC then ReadFlag else TestSwitch)
    case TestSwitch => s.(consumer := if s.flagP != s.flagC && s.indexC == s.n then FlipFlag else Examine)
    case FlipFlag => s.(flagC := !s.flagC, epochC := s.epochC + 1, consumer := ClearIndex)
    case ClearIndex => s.(indexC := 0, consumer := ReadFlag)
    case Examine =>
      var slot := Buffer(s, s.flagC)[s.indexC];
      s.(examined := s.examined + [Contents(slot)],
         consumer := Advance(SlotMatches(s.requests[|s.times|], slot)))
    case Advance(hit) => s.(indexC := s.indexC + 1, consumer := if hit then Deliver else ReadFlag)
    case Deliver =>
      s.(times := s.times + [Buffer(s, s.flagC)[s.indexC - 1].timing],
         consumer := if |s.times| + 1 < |s.requests| then ReadFlag else Done)
    case Done => s
  }

  ghost predicate Next(s: State, t: State) {
    || (s.producer != Failed && ProducerStep(s, t))
    || (ConsumerEnabled(s) && t == ConsumerNext(s))
  }

  ghost predicate IsRun(run: seq<State>) {
    && |run| > 0 && Init(run[0])
    && (forall i :: 0 <= i < |run| - 1 ==> Next(run[i], run[i + 1]))
  }

  // ----- the invariant

  /** The first `done` bytes and fields of the slot are those of p. */
  ghost predicate FilledUpTo(slot: PacketInfo, p: Packet, done: nat) {
    && |p.data| <= |slot.payload|
    && (forall k :: 0 <= k < done && k < |p.data| ==> slot.payload[k] == p.data[k])
    && (done > |p.data| ==> slot.payloadSize == |p.data|)
    && (done > |p.data| + 1 ==> slot.direction == p.direction)
    && (done > |p.data| + 2 ==> slot.timing.sec == p.timing.sec)
    && (done > |p.data| + 3 ==> slot.timing.usec == p.timing.usec)
  }

  /** Slots [0, count) of the buffer hold the packets stored from position `base` on. */
  ghost predicate HoldsRange(buffer: seq<PacketInfo>, count: nat, stored: seq<Packet>, base: nat) {
    && count <= |buffer| && base + count <= |stored|
    && (forall i :: 0 <= i < count ==> Holds(buffer[i], stored[base + i]))
  }

  /** How many slots of its current buffer the consumer has examined. */
  function Consumed(s: State): nat {
    match s.consumer
    case ClearIndex => 0
    case Advance(_) => s.indexC + 1
    case _ => s.indexC
  }

  ghost predicate Shape(s: State) {
    && s.n > 0 && |s.bufferA| == |s.bufferB| == s.n
    && (forall i :: 0 <= i < s.n ==> |s.bufferA[i].payload| == |s.bufferB[i].payload| == MAX_PACKET_SIZE)
    && s.indexP <= s.n && s.indexC <= s.n
  }

  /** How many packets had been stored, or examined, when the thread entered its current buffer. */
  function BaseP(s: State): int {
    |s.stored| - s.indexP
  }

  function BaseC(s: State): int {
    |s.examined| - Consumed(s)
  }

  /** Equal flags mean "same epoch", different flags "producer exactly one buffer ahead". */
  ghost predicate Aligned(s: State) {
    && BaseC(s) >= 0
    && BaseP(s) == BaseC(s) + (if s.flagP == s.flagC then 0 else s.n)
    && Consumed(s) <= (if s.flagP == s.flagC then s.indexP else s.n)
  }

  ghost predicate Contained(s: State) {
    && BaseP(s) >= 0 && HoldsRange(Buffer(s, s.flagP), s.indexP, s.stored, BaseP(s))
    && (s.flagP != s.flagC ==> BaseC(s) >= 0 && HoldsRange(Buffer(s, s.flagC), s.n, s.stored, BaseC(s)))
  }

  ghost predicate ProducerOk(s: State)
    requires Shape(s)
  {
    match s.producer
    case Idle => true
    case Test(p) => Storable(p)
    case Switch(p) => Storable(p) && s.indexP == s.n && s.flagP == s.flagC
    case Fill(p, done) =>
      && Storable(p) && s.indexP < s.n && done <= FieldCount(p)
      && FilledUpTo(Buffer(s, s.flagP)[s.indexP], p, done)
    case Failed => s.indexP == s.n && s.flagP != s.flagC
  }

  /** Something is there to examine, or the producer has moved on to the other buffer. */
  ghost predicate Available(s: State) {
    s.flagP != s.flagC || s.indexC < s.indexP
  }

  ghost predicate ConsumerOk(s: State) {
    match s.consumer
    case TestSwitch => Available(s)
    case FlipFlag => s.flagP != s.flagC && s.indexC == s.n
    case Examine => Available(s) && s.indexC < s.n
    case Advance(_) => s.indexC < s.n
    case Deliver => s.indexC > 0
    case _ => true
  }

  /** The calls that have returned are the hits so far, except that the last hit may be on its way. */
  ghost predicate CallsOk(requests: seq<Request>, examined: seq<Packet>, times: seq<TimeVal>, consumer: ConsumerPc) {
    var hits := Scan(requests, examined);
    && (if consumer == Advance(true) || consumer == Deliver
        then |hits| == |times| + 1 && hits[|times|] == |examined| - 1
        else |hits| == |times|)
    && (consumer == Done <==> |times| == |requests|)
    && TimesOf(hits, examined, times)
  }

  /** times[k] is the time of the packet at position hits[k]. */
  ghost predicate TimesOf(hits: seq<nat>, trace: seq<Packet>, times: seq<TimeVal>) {
    && |times| <= |hits|
    && (forall k :: 0 <= k < |times| ==> hits[k] < |trace| && times[k] == trace[hits[k]].timing)
  }

  ghost predicate QueueOk(s: State) {
    // written as a match so that proof obligations treat it as one fact
    match Shape(s)
    case false => false
    case true => Aligned(s) && Contained(s) && ProducerOk(s) && ConsumerOk(s) && s.examined <= s.stored
  }

  ghost predicate Inv(s: State) {
    QueueOk(s) && CallsOk(s.requests, s.examined, s.times, s.consumer)
  }

  lemma InitInv(s: State)
    requires Init(s)
    ensures Inv(s)
  {
  }

  lemma FillStep(slot: PacketInfo, p: Packet, done: nat)
    requires FilledUpTo(slot, p, done) && done < FieldCount(p)
    ensures FilledUpTo(WriteField(slot, p, done), p, done + 1)
    ensures |WriteField(slot, p, done).payload| == |slot.payload|
  {
  }

  lemma FullyFilled(slot: PacketInfo, p: Packet)
    requires FilledUpTo(slot, p, FieldCount(p))
    ensures Holds(slot, p)
  {
  }

  // ----- every step keeps the queue half of the invariant

  lemma ProducerPcKeepsQueue(s: State, t: State)
    requires QueueOk(s) && t == s.(producer := t.producer) && ProducerOk(t)
    ensures QueueOk(t)
  {
    hide Holds, HoldsRange, FilledUpTo;
  }

  lemma ConsumerPcKeepsQueue(s: State, t: State)
    requires QueueOk(s) && t == s.(consumer := t.consumer, times := t.times)
    requires ConsumerOk(t) && Consumed(t) == Consumed(s)
    ensures QueueOk(t)
  {
    hide Holds, HoldsRange, FilledUpTo;
  }

  lemma SwitchKeepsQueue(s: State, t: State)
    requires QueueOk(s) && s.producer.Switch? && ProducerStep(s, t)
    ensures QueueOk(t)
  {
  }

  lemma RangeKeepsOnWrite(buffer: seq<PacketInfo>, count: nat, stored: seq<Packet>, base: nat, i: nat, slot: PacketInfo)
    requires HoldsRange(buffer, count, stored, base) && count <= i < |buffer|
    ensures HoldsRange(buffer[i := slot], count, stored, base)
  {
  }

  lemma RangeKeepsOnStore(buffer: seq<PacketInfo>, count: nat, stored: seq<Packet>, base: nat, p: Packet)
    requires HoldsRange(buffer, count, stored, base)
    ensures HoldsRange(buffer, count, stored + [p], base)
  {
  }

  lemma RangeGrows(buffer: seq<PacketInfo>, count: nat, stored: seq<Packet>, base: nat, p: Packet)
    requires HoldsRange(buffer, count, stored, base) && base + count == |stored|
    requires count < |buffer| && Holds(buffer[count], p)
    ensures HoldsRange(buffer, count + 1, stored + [p], base)
  {
  }

  lemma FillKeepsQueue(s: State, t: State)
    requires QueueOk(s) && s.producer.Fill? && s.producer.done < FieldCount(s.producer.p) && ProducerStep(s, t)
    ensures QueueOk(t)
  {
    var p, slot := s.producer.p, Buffer(s, s.flagP)[s.indexP];
    var slot' := WriteField(slot, p, s.producer.done);
    FillStep(slot, p, s.producer.done);
    RangeKeepsOnWrite(Buffer(s, s.flagP), s.indexP, s.stored, BaseP(s), s.indexP, slot');
    SlotKeepsQueue(s, t, slot');
  }

  lemma SlotKeepsQueue(s: State, t: State, slot: PacketInfo)
    requires QueueOk(s) && s.producer.Fill? && s.indexP < s.n && |slot.payload| == MAX_PACKET_SIZE
    requires t == SetSlot(s, s.flagP, s.indexP, slot).(producer := t.producer)
    requires t.producer.Fill? && t.producer.done <= FieldCount(t.producer.p) && Storable(t.producer.p)
    requires FilledUpTo(slot, t.producer.p, t.producer.done)
    requires HoldsRange(Buffer(s, s.flagP)[s.indexP := slot], s.indexP, s.stored, BaseP(s))
    ensures QueueOk(t)
  {
    hide Holds, HoldsRange, FilledUpTo;
    assert Buffer(t, s.flagP) == Buffer(s, s.flagP)[s.indexP := slot];
    assert Buffer(t, !s.flagP) == Buffer(s, !s.flagP);
    assert Shape(t);
  }

  lemma PublishKeepsQueue(s: State, t: State)
    requires QueueOk(s) && s.producer.Fill? && s.producer.done == FieldCount(s.producer.p) && ProducerStep(s, t)
    ensures QueueOk(t)
  {
    hide Holds, HoldsRange, FilledUpTo;
    var p := s.producer.p;
    FullyFilled(Buffer(s, s.flagP)[s.indexP], p);
    RangeGrows(Buffer(s, s.flagP), s.indexP, s.stored, BaseP(s), p);
    if s.flagP != s.flagC {
      RangeKeepsOnStore(Buffer(s, s.flagC), s.n, s.stored, BaseC(s), p);
    }
    assert Buffer(t, t.flagP) == Buffer(s, s.flagP) && Buffer(t, t.flagC) == Buffer(s, s.flagC);
    assert BaseP(t) == BaseP(s) && BaseC(t) == BaseC(s) && Contained(t);
  }

  lemma ProducerKeepsInv(s: State, t: State)
    requires Inv(s) && ProducerStep(s, t)
    ensures Inv(t)
  {
    match s.producer
    case Idle => ProducerPcKeepsQueue(s, t);
    case Test(p) => ProducerPcKeepsQueue(s, t);
    case Switch(p) => SwitchKeepsQueue(s, t);
    case Fill(p, done) =>
      if done < FieldCount(p) {
        FillKeepsQueue(s, t);
      } else {
        PublishKeepsQueue(s, t);
      }
    case _ =>
  }

  /** The slot that the consumer is about to read holds the next packet in order. */
  lemma NextInOrder(s: State)
    requires QueueOk(s) && s.consumer == Examine
    ensures |s.bufferA| == |s.bufferB| == s.n && s.indexC < s.n && |s.examined| < |s.stored|
    ensures Holds(Buffer(s, s.flagC)[s.indexC], s.stored[|s.examined|])
  {
  }

  lemma ExamineKeepsInv(s: State)
    requires Inv(s) && ConsumerEnabled(s) && s.consumer == Examine
    ensures Inv(ConsumerNext(s))
  {
    NextInOrder(s);
    var t, next, slot := ConsumerNext(s), s.stored[|s.examined|], Buffer(s, s.flagC)[s.indexC];
    assert Contents(slot) == next;
    SlotMatchesPacket(s.requests[|s.times|], slot, next);
    ExamineKeepsCalls(s.requests, s.examined, s.times, next);
    ExamineKeepsQueue(s, t);
  }

  lemma ExamineKeepsQueue(s: State, t: State)
    requires QueueOk(s) && s.consumer == Examine && |s.examined| < |s.stored|
    requires t == s.(examined := s.examined + [s.stored[|s.examined|]], consumer := t.consumer) && t.consumer.Advance?
    ensures QueueOk(t)
  {
    hide Holds, HoldsRange, FilledUpTo;
  }

  lemma ExamineKeepsCalls(requests: seq<Request>, examined: seq<Packet>, times: seq<TimeVal>, next: Packet)
    requires CallsOk(requests, examined, times, Examine)
    ensures |times| < |requests|
    ensures CallsOk(requests, examined + [next], times, Advance(Matches(requests[|times|], next)))
  {
    assert (examined + [next])[..|examined|] == examined;
  }

  lemma DeliverKeepsInv(s: State)
    requires Inv(s) && ConsumerEnabled(s) && s.consumer == Deliver
    ensures Inv(ConsumerNext(s))
  {
    var t := ConsumerNext(s);
    LastRead(s);
    DeliverKeepsCalls(s.requests, s.examined, s.times);
    ConsumerPcKeepsQueue(s, t);
  }

  /** The slot whose time is returned has not been reused since it was examined. */
  lemma LastRead(s: State)
    requires QueueOk(s) && s.consumer == Deliver
    ensures 0 < s.indexC <= s.n && |s.examined| > 0
    ensures Buffer(s, s.flagC)[s.indexC - 1].timing == s.examined[|s.examined| - 1].timing
  {
    var last := |s.examined| - 1;
    assert Holds(Buffer(s, s.flagC)[s.indexC - 1], s.stored[last]);
    assert s.stored[last] == s.examined[last];
  }

  lemma DeliverKeepsCalls(requests: seq<Request>, examined: seq<Packet>, times: seq<TimeVal>)
    requires CallsOk(requests, examined, times, Deliver)
    ensures |examined| > 0 && |times| < |requests|
    ensures CallsOk(requests, examined, times + [examined[|examined| - 1].timing],
                    if |times| + 1 < |requests| then ReadFlag else Done)
  {
  }

  /** The steps before Examine and after a miss do not concern the calls. */
  lemma OtherKeepsCalls(requests: seq<Request>, examined: seq<Packet>, times: seq<TimeVal>,
                        pc: ConsumerPc, pc': ConsumerPc)
    requires CallsOk(requests, examined, times, pc)
    requires pc == Advance(true) <==> pc' == Deliver
    requires pc != Deliver && pc != Done && pc' != Done && pc' != Advance(true)
    ensures CallsOk(requests, examined, times, pc')
  {
  }

  lemma SwitchBackKeepsQueue(s: State)
    requires QueueOk(s) && ConsumerEnabled(s) && (s.consumer == FlipFlag || s.consumer == ClearIndex)
    ensures QueueOk(ConsumerNext(s))
  {
    hide Holds, HoldsRange, FilledUpTo;
  }

  lemma AdvanceKeepsQueue(s: State)
    requires QueueOk(s) && ConsumerEnabled(s) && s.consumer.Advance?
    ensures QueueOk(ConsumerNext(s))
  {
    hide Holds, HoldsRange, FilledUpTo;
  }

  lemma ReadKeepsQueue(s: State)
    requires QueueOk(s) && ConsumerEnabled(s)
    requires s.consumer == ReadFlag || s.consumer == ReadIndex || s.consumer == TestSwitch
    ensures QueueOk(ConsumerNext(s))
  {
    ConsumerPcKeepsQueue(s, ConsumerNext(s));
  }

  lemma OtherKeepsQueue(s: State)
    requires QueueOk(s) && ConsumerEnabled(s) && s.consumer != Examine && s.consumer != Deliver
    ensures QueueOk(ConsumerNext(s))
  {
    if s.consumer.Advance? {
      AdvanceKeepsQueue(s);
    } else if s.consumer == FlipFlag || s.consumer == ClearIndex {
      SwitchBackKeepsQueue(s);
    } else {
      ReadKeepsQueue(s);
    }
  }

  lemma ConsumerKeepsInv(s: State)
    requires Inv(s) && ConsumerEnabled(s)
    ensures Inv(ConsumerNext(s))
  {
    if s.consumer == Examine {
      ExamineKeepsInv(s);
    } else if s.consumer == Deliver {
      DeliverKeepsInv(s);
    } else {
      OtherKeepsCalls(s.requests, s.examined, s.times, s.consumer, ConsumerNext(s).consumer);
      OtherKeepsQueue(s);
    }
  }

  // ----- whole runs

  lemma {:induction false} RunInv(run: seq<State>, i: nat)
    requires IsRun(run) && i < |run|
    ensures Inv(run[i])
  {
    if i == 0 {
      InitInv(run[0]);
    } else {
      RunInv(run, i - 1);
      var s, t := run[i - 1], run[i];
      assert Next(s, t);
      if ConsumerEnabled(s) && t == ConsumerNext(s) {
        ConsumerKeepsInv(s);
      } else {
        ProducerKeepsInv(s, t);
      }
    }
  }

  /** Safety in every interleaving: what was examined is a prefix of what was stored, in order; and
      the calls that have returned gave the times of the packets that a greedy in-order search of the
      whole trace finds. */
  lemma RunIsSafe(run: seq<State>, i: nat)
    requires IsRun(run) && i < |run|
    ensures var s := run[i];
            && s.examined <= s.stored
            && TimesOf(Scan(s.requests, s.stored), s.stored, s.times)
  {
    RunInv(run, i);
    var s := run[i];
    ScanGrows(s.requests, s.stored, |s.examined|);
    assert s.stored[..|s.examined|] == s.examined;
  }

  // ----- runs from packet to packet

  ghost predicate Reaches(s: State, t: State, path: seq<State>) {
    && |path| > 0 && path[0] == s && path[|path| - 1] == t
    && (forall i :: 0 <= i < |path| - 1 ==> Next(path[i], path[i + 1]))
  }

  lemma ReachesTrans(s: State, t: State, u: State, p: seq<State>, q: seq<State>)
    requires Reaches(s, t, p) && Reaches(t, u, q)
    ensures Reaches(s, u, p + q[1..])
  {
    var r := p + q[1..];
    forall i | 0 <= i < |r| - 1 ensures Next(r[i], r[i + 1]) {
      if i >= |p| - 1 {
        assert r[i] == q[i - (|p| - 1)] && r[i + 1] == q[i - (|p| - 1) + 1];
      }
    }
  }

  lemma {:induction false} ReachesInv(s: State, t: State, path: seq<State>)
    requires Inv(s) && Reaches(s, t, path)
    ensures Inv(t)
    decreases |path|
  {
    if |path| > 1 {
      var u := path[1];
      assert Next(path[0], u);
      if ConsumerEnabled(s) && u == ConsumerNext(s) {
        ConsumerKeepsInv(s);
      } else {
        ProducerKeepsInv(s, u);
      }
      var rest := path[1..];
      forall i | 0 <= i < |rest| - 1 ensures Next(rest[i], rest[i + 1]) {
        assert Next(path[i + 1], path[i + 1 + 1]);
      }
      ReachesInv(u, t, rest);
    }
  }

  /** The slot after all of p was copied into it at once. */
  function Copied(slot: PacketInfo, p: Packet): PacketInfo
    requires |p.data| <= |slot.payload|
  {
    PacketInfo(p.data + slot.payload[|p.data|..], |p.data|, p.direction, p.timing)
  }

  lemma CopyGoesOn(slot: PacketInfo, p: Packet, done: nat)
    requires |p.data| <= |slot.payload| && FilledUpTo(slot, p, done)
    ensures done < FieldCount(p) ==> Copied(WriteField(slot, p, done), p) == Copied(slot, p)
    ensures done == FieldCount(p) ==> Copied(slot, p) == slot
  {
    if done < |p.data| {
      assert WriteField(slot, p, done).payload[|p.data|..] == slot.payload[|p.data|..];
    }
    if done == FieldCount(p) {
      assert slot.payload[..|p.data|] == p.data;
    }
  }

  /** Copying byte by byte and field by field ends with the slot that is copied at once. */
  lemma {:induction false} FillUp(s: State) returns (t: State, path: seq<State>)
    requires QueueOk(s) && s.producer.Fill?
    ensures s.indexP < |Buffer(s, s.flagP)| && |s.producer.p.data| <= |Buffer(s, s.flagP)[s.indexP].payload|
    ensures Reaches(s, t, path) && QueueOk(t)
    ensures t == SetSlot(s, s.flagP, s.indexP, Copied(Buffer(s, s.flagP)[s.indexP], s.producer.p))
                 .(producer := Fill(s.producer.p, FieldCount(s.producer.p)))
    decreases FieldCount(s.producer.p) - s.producer.done
  {
    hide QueueOk, FilledUpTo, Copied, WriteField;
    OpenSlotState(s);
    var p, done, slot := s.producer.p, s.producer.done, Buffer(s, s.flagP)[s.indexP];
    CopyGoesOn(slot, p, done);
    if done == FieldCount(p) {
      t, path := s, [s];
    } else {
      var u := SetSlot(s, s.flagP, s.indexP, WriteField(slot, p, done)).(producer := Fill(p, done + 1));
      FillKeepsQueue(s, u);
      var rest;
      t, rest := FillUp(u);
      path := [s] + rest;
    }
  }

  lemma OpenSlotState(s: State)
    requires QueueOk(s) && s.producer.Fill?
    ensures s.indexP < |Buffer(s, s.flagP)| && |s.producer.p.data| <= |Buffer(s, s.flagP)[s.indexP].payload|
    ensures s.producer.done <= FieldCount(s.producer.p)
    ensures FilledUpTo(Buffer(s, s.flagP)[s.indexP], s.producer.p, s.producer.done)
  {
  }

  predicate OutOfRoom(s: State) {
    s.indexP == s.n && s.flagP != s.flagC
  }

  lemma OverrunBacklog(s: State)
    requires QueueOk(s) && OutOfRoom(s)
    ensures |s.stored| - |s.examined| >= s.n
  {
  }

  /** The state in which the callback starts to write: with the switch of buffers, if it is due. */
  function Opened(s: State): State {
    if s.indexP == s.n then s.(indexP := 0, flagP := !s.flagP, epochP := s.epochP + 1) else s
  }

  /** The state after one whole call of the callback with packet p. */
  function AfterStore(s: State, p: Packet): State
    requires Opened(s).indexP < |Buffer(s, Opened(s).flagP)|
    requires |p.data| <= |Buffer(s, Opened(s).flagP)[Opened(s).indexP].payload|
  {
    var u := Opened(s);
    SetSlot(u, u.flagP, u.indexP, Copied(Buffer(u, u.flagP)[u.indexP], p))
      .(indexP := u.indexP + 1, stored := s.stored + [p])
  }

  lemma OpenSlot(s: State, p: Packet) returns (t: State, path: seq<State>)
    requires QueueOk(s) && s.producer == Idle && !OutOfRoom(s) && Storable(p)
    ensures t == Opened(s).(producer := Fill(p, 0)) && QueueOk(t)
    ensures Reaches(s, t, path)
  {
    t := Opened(s).(producer := Fill(p, 0));
    var test, switch := s.(producer := Test(p)), s.(producer := Switch(p));
    path := if s.indexP == s.n then [s, test, switch, t] else [s, test, t];
    if s.indexP == s.n {
      ProducerPcKeepsQueue(s, switch);
      SwitchKeepsQueue(switch, t);
    } else {
      ProducerPcKeepsQueue(s, t);
    }
  }

  lemma OpenKeepsQueue(s: State)
    requires QueueOk(s) && s.producer == Idle && !OutOfRoom(s)
    ensures QueueOk(Opened(s)) && Opened(s).indexP < s.n && Opened(Opened(s)) == Opened(s)
  {
  }

  lemma FitsSlot(s: State, p: Packet)
    requires QueueOk(s) && !OutOfRoom(s) && Storable(p)
    ensures Opened(s).indexP < s.n && Opened(s).indexP < |Buffer(s, Opened(s).flagP)|
    ensures |p.data| <= |Buffer(s, Opened(s).flagP)[Opened(s).indexP].payload|
    ensures AfterStore(Opened(s), p) == AfterStore(s, p)
    ensures AfterStore(s, p).stored == s.stored + [p] && AfterStore(s, p).examined == s.examined
  {
    hide Copied;
  }

  /** One call of the callback, unless it overruns, is a run of the producer alone. */
  lemma StoreIsRun(s: State, p: Packet) returns (path: seq<State>)
    requires QueueOk(s) && s.producer == Idle && !OutOfRoom(s) && Storable(p)
    ensures Opened(s).indexP < |Buffer(s, Opened(s).flagP)|
    ensures |p.data| <= |Buffer(s, Opened(s).flagP)[Opened(s).indexP].payload|
    ensures Reaches(s, AfterStore(s, p), path) && QueueOk(AfterStore(s, p))
  {
    hide QueueOk, Copied, FilledUpTo;
    var open, begin := OpenSlot(s, p);
    var full, fill := FillUp(open);
    var t := full.(indexP := full.indexP + 1, stored := full.stored + [p], producer := Idle);
    assert t == AfterStore(s, p);
    PublishKeepsQueue(full, t);
    PublishIsStep(full, t);
    ReachesTrans(s, open, full, begin, fill);
    ReachesTrans(s, full, t, begin + fill[1..], [full, t]);
    path := begin + fill[1..] + [full, t][1..];
  }

  lemma PublishIsStep(s: State, t: State)
    requires s.producer.Fill? && s.producer.done == FieldCount(s.producer.p) && ProducerStep(s, t)
    ensures Reaches(s, t, [s, t])
  {
  }

  /** The state after the consumer has left its buffer. */
  function AfterLeave(s: State): State {
    s.(flagC := !s.flagC, indexC := 0, epochC := s.epochC + 1)
  }

  /** One round of the search at the end of a buffer is a run of the consumer alone. */
  lemma LeaveIsRun(s: State) returns (path: seq<State>)
    requires QueueOk(s) && s.producer != Failed && s.consumer == ReadFlag && s.flagP != s.flagC && s.indexC == s.n
    ensures Reaches(s, AfterLeave(s), path) && QueueOk(AfterLeave(s))
  {
    hide QueueOk, Reaches;
    path := LeavePath(s);
    var flip := s.(consumer := FlipFlag);
    ConsumerPcKeepsQueue(s, flip);
    SwitchBackKeepsQueue(flip);
    SwitchBackKeepsQueue(ConsumerNext(flip));
  }

  lemma LeavePath(s: State) returns (path: seq<State>)
    requires s.producer != Failed && s.consumer == ReadFlag && s.flagP != s.flagC && s.indexC == s.n
    ensures Reaches(s, AfterLeave(s), path)
  {
    var flip := s.(consumer := FlipFlag);
    path := [s, s.(consumer := TestSwitch), flip, ConsumerNext(flip), AfterLeave(s)];
  }

  /** There is a packet at the consumer's position. */
  predicate Ready(s: State) {
    if s.flagP == s.flagC then s.indexP != s.indexC else s.indexC != s.n
  }

  /** The state after the consumer has passed the next packet. */
  function AfterPass(s: State): State
    requires |s.examined| < |s.stored|
  {
    s.(indexC := s.indexC + 1, examined := s.examined + [s.stored[|s.examined|]])
  }

  lemma PassKeepsQueue(s: State)
    requires QueueOk(s) && s.producer != Failed && s.consumer == ReadFlag && Ready(s)
    ensures |s.bufferA| == |s.bufferB| == s.n && s.indexC < s.n && |s.examined| < |s.stored|
    ensures Holds(Buffer(s, s.flagC)[s.indexC], s.stored[|s.examined|])
    ensures QueueOk(AfterPass(s))
  {
    hide QueueOk, Holds;
    var at := s.(consumer := Examine);
    MayExamine(s);
    ConsumerPcKeepsQueue(s, at);
    NextInOrder(at);
    var next := s.stored[|s.examined|];
    var after := at.(examined := s.examined + [next], consumer := Advance(false));
    ExamineKeepsQueue(at, after);
    AdvanceKeepsQueue(after);
  }

  lemma MayExamine(s: State)
    requires QueueOk(s) && s.consumer == ReadFlag && Ready(s)
    ensures ConsumerOk(s.(consumer := Examine))
  {
  }

  /** One round of the search that compares a packet is a run of the consumer alone; after a hit it
      goes on to return the packet's time. */
  lemma PassIsRun(s: State) returns (path: seq<State>)
    requires QueueOk(s) && s.producer != Failed && s.consumer == ReadFlag && Ready(s) && |s.times| < |s.requests|
    ensures |s.examined| < |s.stored| && QueueOk(AfterPass(s))
    ensures var r, p := s.requests[|s.times|], s.stored[|s.examined|];
            var hit := p.direction == r.direction && p.data == r.data;
            Reaches(s, AfterPass(s).(consumer := if hit then Deliver else ReadFlag), path)
  {
    hide QueueOk, Holds, SlotMatches, Reaches;
    PassKeepsQueue(s);
    var next, slot := s.stored[|s.examined|], Buffer(s, s.flagC)[s.indexC];
    SlotMatchesPacket(s.requests[|s.times|], slot, next);
    SlotContents(slot, next);
    path := PassPath(s, SlotMatches(s.requests[|s.times|], slot));
  }

  lemma SlotContents(slot: PacketInfo, p: Packet)
    requires Holds(slot, p)
    ensures Contents(slot) == p
  {
  }

  lemma PassPath(s: State, hit: bool) returns (path: seq<State>)
    requires s.producer != Failed && s.consumer == ReadFlag && Ready(s) && |s.times| < |s.requests|
    requires s.indexC < |Buffer(s, s.flagC)| && s.indexC < s.n && |s.examined| < |s.stored|
    requires Contents(Buffer(s, s.flagC)[s.indexC]) == s.stored[|s.examined|]
    requires hit == SlotMatches(s.requests[|s.times|], Buffer(s, s.flagC)[s.indexC])
    ensures Reaches(s, AfterPass(s).(consumer := if hit then Deliver else ReadFlag), path)
  {
    hide SlotMatches, Contents;
    var at := s.(consumer := Examine);
    var t := AfterPass(s).(consumer := if hit then Deliver else ReadFlag);
    path := if s.flagP == s.flagC
            then [s, s.(consumer := ReadIndex), s.(consumer := TestSwitch), at, ConsumerNext(at), t]
            else [s, s.(consumer := TestSwitch), at, ConsumerNext(at), t];
  }

  // ----- refinement of a FIFO queue

  function Queue(s: State): seq<Packet>
    requires |s.examined| <= |s.stored|
  {
    s.stored[|s.examined|..]
  }

  ghost predicate QueueNext(q: seq<Packet>, examined: seq<Packet>, q': seq<Packet>, examined': seq<Packet>) {
    || (q' == q && examined' == examined)
    || (exists p :: q' == q + [p] && examined' == examined)
    || (q != [] && q' == q[1..] && examined' == examined + [q[0]])
  }

  /** Every step of the two threads is a step of an unbounded queue or no step of it at all. */
  lemma RefinesQueue(s: State, t: State)
    requires Inv(s) && Next(s, t)
    ensures |s.examined| <= |s.stored| && |t.examined| <= |t.stored|
    ensures QueueNext(Queue(s), s.examined, Queue(t), t.examined)
  {
    if ConsumerEnabled(s) && t == ConsumerNext(s) {
      ConsumerRefinesQueue(s);
    } else {
      ProducerRefinesQueue(s, t);
    }
  }

  lemma ConsumerRefinesQueue(s: State)
    requires QueueOk(s) && ConsumerEnabled(s)
    ensures var t := ConsumerNext(s);
            && |s.examined| <= |s.stored| && |t.examined| <= |t.stored|
            && QueueNext(Queue(s), s.examined, Queue(t), t.examined)
  {
    if s.consumer == Examine {
      NextInOrder(s);
      assert Contents(Buffer(s, s.flagC)[s.indexC]) == s.stored[|s.examined|];
    }
  }

  lemma ProducerRefinesQueue(s: State, t: State)
    requires |s.examined| <= |s.stored| && ProducerStep(s, t)
    ensures t.examined == s.examined && |t.examined| <= |t.stored|
    ensures QueueNext(Queue(s), s.examined, Queue(t), t.examined)
  {
    if s.producer.Fill? && s.producer.done >= FieldCount(s.producer.p) {
      assert Queue(t) == Queue(s) + [s.producer.p];
    }
  }

  /** While the consumer holds on to a slot, comparing it or waiting to read its time, no step of the
      producer writes to that slot; so reading it field by field would give the same result. */
  lemma HeldSlotIsStable(s: State, t: State)
    requires QueueOk(s) && ProducerStep(s, t)
    ensures t.flagC == s.flagC && t.indexC == s.indexC
    ensures s.consumer == Examine || s.consumer.Advance? ==>
              s.indexC < s.n && Buffer(t, s.flagC)[s.indexC] == Buffer(s, s.flagC)[s.indexC]
    ensures s.consumer == Deliver ==>
              0 < s.indexC <= s.n && Buffer(t, s.flagC)[s.indexC - 1] == Buffer(s, s.flagC)[s.indexC - 1]
  {
  }

  /** Why the producer's switch has to be one step. Between its two assignments the index is already
      reset but the flag is not flipped yet. A consumer that does its tests now goes on to examine a slot
      behind the end of its buffer exactly when it had caught up with the producer; one that is past its
      tests is not affected. */
  lemma HalfSwitch(s: State)
    requires Inv(s) && s.producer.Switch?
    ensures s.consumer == ReadFlag || s.consumer == ReadIndex ==>
              (s.indexC == s.n <==> var u := AfterTests(s.(indexP := 0));
                                    u.consumer == Examine && u.indexC == |Buffer(u, u.flagC)|)
    ensures s.consumer == TestSwitch || s.consumer == Examine ==> s.indexC < |Buffer(s, s.flagC)|
  {
  }

  /** The consumer goes on alone until it is about to examine a slot or has found nothing. */
  function AfterTests(s: State): State
    requires s.producer != Failed && (s.consumer == ReadFlag || s.consumer == ReadIndex)
  {
    var t := if s.consumer == ReadFlag then ConsumerNext(s) else s;
    var u := if t.consumer == ReadIndex then ConsumerNext(t) else t;
    if u.consumer == TestSwitch then ConsumerNext(u) else u
  }

  // ----- the flags and the number of buffer switches

  ghost predicate EpochsOk(s: State) {
    && (if s.flagP == s.flagC then s.epochP == s.epochC else s.epochP == s.epochC + 1)
    && (s.flagP <==> s.epochP % 2 == 1)
    && BaseP(s) == s.epochP * s.n
  }

  lemma ProducerKeepsEpochs(s: State, t: State)
    requires Shape(s) && ProducerOk(s) && EpochsOk(s) && ProducerStep(s, t)
    ensures EpochsOk(t)
  {
    if s.producer.Switch? {
      assert (s.epochP + 1) * s.n == s.epochP * s.n + s.n;
    }
  }

  lemma ConsumerKeepsEpochs(s: State)
    requires ConsumerOk(s) && EpochsOk(s) && ConsumerEnabled(s)
    ensures EpochsOk(ConsumerNext(s))
  {
  }

  lemma InitEpochs(s: State)
    requires Init(s)
    ensures EpochsOk(s)
  {
  }

  lemma InvParts(s: State)
    requires Inv(s)
    ensures Shape(s) && ProducerOk(s) && ConsumerOk(s)
  {
  }

  lemma {:induction false} RunEpochs(run: seq<State>, i: nat)
    requires IsRun(run) && i < |run|
    ensures EpochsOk(run[i])
  {
    hide Inv, Init, Shape, ProducerOk, ConsumerOk, ProducerStep, EpochsOk, ConsumerEnabled, ConsumerNext;
    if i == 0 {
      InitEpochs(run[0]);
    } else {
      RunEpochs(run, i - 1);
      RunInv(run, i - 1);
      var s, t := run[i - 1], run[i];
      InvParts(s);
      assert Next(s, t);
      if ConsumerEnabled(s) && t == ConsumerNext(s) {
        ConsumerKeepsEpochs(s);
      } else {
        ProducerKeepsEpochs(s, t);
      }
    }
  }
}
