/** The shared capture state as the object it is in the program, with the callback that fills it and
    the search that empties it. Between two rounds of the search the packets of the next entry of a
    schedule arrive; CaptureProtocol covers finer interleavings. */
module PcapWrapper {
  import opened CapturedPackets
  import opened CaptureProtocol
  import opened Timing
  import opened Wrappers
  import PacketParser
  import PacketRoundTrip

  /** Undefined: the payload does not lie inside the captured frame. Terminated also stands for an
      exception that leaves the callback. */
  datatype Handled = Stored | Ignored | Terminated | Undefined

  /** Found: the time of the match. Waiting: the schedule ran out and the search would go on waiting.
      Crashed: the capture callback terminated the process. */
  datatype Search = Found(timing: TimeVal) | Waiting | Crashed

  ghost predicate NoMatch(r: Request, trace: seq<Packet>, from: nat, to: nat) {
    to <= |trace| && forall i :: from <= i < to ==> trace[i].direction != r.direction || trace[i].data != r.data
  }

  /** The packet before position `next` is the first one from `from` on that answers the request. */
  ghost predicate IsFirstMatch(r: Request, trace: seq<Packet>, from: nat, next: nat, timing: TimeVal) {
    && from < next <= |trace| && NoMatch(r, trace, from, next - 1)
    && trace[next - 1].direction == r.direction && trace[next - 1].data == r.data
    && timing == trace[next - 1].timing
  }

  /** The state of a search that has examined the packets from `from` up to `next`. */
  ghost predicate SoFar(r: Request, trace: seq<Packet>, from: nat, next: nat, found: Option<TimeVal>) {
    match found
    case None => from <= next && NoMatch(r, trace, from, next)
    case Some(timing) => IsFirstMatch(r, trace, from, next, timing)
  }

  function Flatten(arrivals: seq<seq<Packet>>): seq<Packet> {
    if arrivals == [] then [] else arrivals[0] + Flatten(arrivals[1..])
  }

  // ----- from a frame to a packet

  const NO_ARTEFACTS: PacketParser.Artefacts :=
    PacketParser.Artefacts(PacketParser.Ipv4, [], [], PacketParser.Tcp, 0, 0)

  datatype Verdict = Keep(p: Packet) | Drop | Crash | Wild

  const LINKTYPE_ETHERNET: int := 1

  /** What the callback is told about the connection that it watches. */
  datatype Watched = Watched(linkType: int, remoteHost: seq<byte>, remotePort: int)

  /** What the callback makes of the captured bytes f of a frame that had `length` bytes on the wire: a
      packet to store, or nothing, or the end of the process. */
  function Capture(f: seq<byte>, length: nat, timing: TimeVal, w: Watched): Verdict {
    if w.linkType != LINKTYPE_ETHERNET then Drop
    else
      match PacketParser.DecodeFrame(PacketParser.Tcp, f, length, NO_ARTEFACTS)
      case Err(InvalidArgument) => Drop
      case Err(OutsideFrame) => Wild
      case Err(_) => Crash
      case Ok(d) =>
        if d.size > MAX_PACKET_SIZE then Crash
        else if d.size == 0 then Drop
        else if d.payload == None || d.payload.value + d.size > |f| then Wild
        else
          var toRemote := w.remoteHost == d.artefacts.dst && w.remotePort == d.artefacts.dstPort;
          Keep(Packet(f[d.payload.value..d.payload.value + d.size],
                      if toRemote then DestinationRemote else SourceRemote, timing))
  }

  /** The part of the callback in front of the shared buffers. */
  method Judge(f: seq<byte>, length: nat, timing: TimeVal, w: Watched) returns (v: Verdict)
    ensures v == Capture(f, length, timing, w)
    ensures v.Keep? ==> Storable(v.p)
  {
    if w.linkType != LINKTYPE_ETHERNET {
      return Drop;  // std::invalid_argument, caught in the callback itself
    }
    var decoded := PacketParser.EthernetParser.DecodeUntil(PacketParser.Tcp, f, length, NO_ARTEFACTS);
    match decoded
    case Err(InvalidArgument) => return Drop;
    case Err(OutsideFrame) => return Wild;
    case Err(_) => return Crash;
    case Ok(d) =>
      if d.size > MAX_PACKET_SIZE {
        return Crash;
      }
      if d.size == 0 {
        return Drop;
      }
      if d.payload == None || d.payload.value + d.size > |f| {
        return Wild;
      }
      var toRemote := w.remoteHost == d.artefacts.dst && w.remotePort == d.artefacts.dstPort;
      return Keep(Packet(f[d.payload.value..d.payload.value + d.size],
                         if toRemote then DestinationRemote else SourceRemote, timing));
  }

  /** A well-formed TCP frame that the decoders accept becomes a packet with exactly the segment's
      data; padding does not matter. */
  lemma FrameBecomesPacket(f: PacketRoundTrip.Frame, padding: seq<byte>, length: nat, timing: TimeVal, w: Watched)
    requires PacketRoundTrip.FrameOk(f) && f.network.content.TcpSegment?
    requires length >= |PacketRoundTrip.Encode(f)| && w.linkType == 1
    ensures Capture(PacketRoundTrip.Encode(f) + padding, length, timing, w) ==
            var data := f.network.content.data;
            var toRemote := w.remoteHost == f.network.dst && w.remotePort == f.network.content.dstPort;
            if !PacketRoundTrip.Accepted(f.network) || |data| > 1500 then Crash
            else if |data| == 0 then Drop
            else Keep(Packet(data, if toRemote then DestinationRemote else SourceRemote, timing))
  {
    hide PacketRoundTrip.NetworkHead, PacketRoundTrip.EncodeTransport, PacketRoundTrip.Encode;
    hide PacketRoundTrip.FrameOk, PacketRoundTrip.Accepted, PacketParser.DecodeFrame;
    PacketRoundTrip.RoundTrip(PacketParser.Tcp, f, padding, length, NO_ARTEFACTS);
    if PacketRoundTrip.Accepted(f.network) {
      PacketRoundTrip.DecodedBytes(f, padding, length, NO_ARTEFACTS);
      Prefix(PacketRoundTrip.Encode(f), padding);
    }
  }

  /** The frames that are dropped, those that end the process, and those whose packet is kept, for any
      bytes: a link type other than 1 (Ethernet), frames and packets that are too short, and payload
      lengths that do not fit are caught as invalid arguments; everything else that is not TCP ends the
      process, and so does a payload of more than 1500 bytes. */
  lemma CaptureByNumber(f: seq<byte>, length: nat, timing: TimeVal, w: Watched)
    ensures var v := Capture(f, length, timing, w);
            if w.linkType != 1 || length < 14 then v == Drop
            else if |f| < 14 then v == Wild
            else if f[12] == 0x08 && f[13] == 0x00 then
              && (length < 34 ==> v == Drop)
              && (length >= 34 && |f| >= 34 && (f[14] as int / 16 != 4 || f[23] != 6) ==> v == Crash)
            else if f[12] == 0x86 && f[13] == 0xdd then
              && (length < 54 ==> v == Drop)
              && (length >= 54 && |f| >= 54 && f[14] as int / 16 != 6 ==> v == Crash)
              && (length >= 54 && |f| >= 54 && f[14] as int / 16 == 6 ==>
                    && (length - 54 < f[18] as int * 256 + f[19] as int ==> v == Drop)
                    && (length - 54 >= f[18] as int * 256 + f[19] as int ==>
                          (f[20] == 17 || f[20] == 59 || f[20] == 1 || f[20] == 58 ==> v == Crash)))
            else v == Crash
    ensures w.linkType == 1 ==>
              match PacketParser.DecodeFrame(PacketParser.Tcp, f, length, NO_ARTEFACTS)
              case Err(_) => !Capture(f, length, timing, w).Keep?
              case Ok(d) =>
                var v := Capture(f, length, timing, w);
                && (d.size > 1500 ==> v == Crash)
                && (d.size == 0 ==> v == Drop)
                && (0 < d.size <= 1500 && d.payload.Some? && d.payload.value + d.size <= |f| ==>
                      && v.Keep? && v.p.data == f[d.payload.value..d.payload.value + d.size] && v.p.timing == timing
                      && (v.p.direction == DestinationRemote <==>
                            w.remoteHost == d.artefacts.dst && w.remotePort == d.artefacts.dstPort))
  {
    hide PacketParser.DecodeFrame, PacketParser.Walk, PacketParser.TcpOutcome;
    PacketParser.OtherByNumber(PacketParser.Tcp, f, length, NO_ARTEFACTS);
    if length >= 14 && |f| >= 14 && f[12] == 0x08 && f[13] == 0x00 {
      PacketParser.Ipv4ByNumber(PacketParser.Tcp, f, length, NO_ARTEFACTS);
    } else if length >= 14 && |f| >= 14 && f[12] == 0x86 && f[13] == 0xdd {
      PacketParser.Ipv6ByNumber(PacketParser.Tcp, f, length, NO_ARTEFACTS);
      if |f| >= 54 {
        PacketParser.WalkByNumber(f, 54, f[18] as int * 256 + f[19] as int, f[20] as int);
      }
    }
  }

  lemma Prefix(s: seq<byte>, t: seq<byte>)
    ensures forall i, j :: 0 <= i <= j <= |s| ==> (s + t)[i..j] == s[i..j]
  {
  }

  class UserData {
    const n: nat
    const watched: Watched
    var stopLoop: bool
    const sharedBufferA: array<PacketInfo>
    const sharedBufferB: array<PacketInfo>
    var activeBufferConsumer: bool
    var activeBufferProducer: bool
    var indexProducer: nat
    var indexConsumer: nat
    // this object as a state of the protocol, with the history of what was stored and examined
    ghost var state: State

    ghost predicate Linked()
      reads this, sharedBufferA, sharedBufferB
    {
      && sharedBufferA != sharedBufferB
      && state.n == n && state.bufferA == sharedBufferA[..] && state.bufferB == sharedBufferB[..]
      && state.flagP == activeBufferProducer && state.flagC == activeBufferConsumer
      && state.indexP == indexProducer && state.indexC == indexConsumer
      && state.producer == Idle && state.consumer == ReadFlag
    }

    ghost predicate Valid()
      reads this, sharedBufferA, sharedBufferB
    {
      match Linked()
      case false => false
      case true => QueueOk(state)
    }

    /** As after startLoop. */
    constructor (n: nat, watched: Watched)
      requires n > 0
      ensures Valid() && this.n == n && this.watched == watched && !stopLoop
      ensures fresh(sharedBufferA) && fresh(sharedBufferB)
      ensures !activeBufferConsumer && !activeBufferProducer && indexProducer == indexConsumer == 0
      ensures state.stored == [] && state.examined == []
    {
      this.n, this.watched, stopLoop := n, watched, false;
      var blank := PacketInfo(seq(MAX_PACKET_SIZE, _ => 0), 0, DestinationRemote, TimeVal(0, 0));
      sharedBufferA := new PacketInfo[n](_ => blank);
      sharedBufferB := new PacketInfo[n](_ => blank);
      activeBufferConsumer, activeBufferProducer, indexProducer, indexConsumer := false, false, 0, 0;
      var slots := seq(n, _ => blank);
      state := State(n, [], slots, slots, false, false, 0, 0, Idle, ReadFlag, [], [], [], 0, 0);
      new;
      assert sharedBufferA[..] == slots && sharedBufferB[..] == slots;
    }

    /** The buffer is full and the consumer has not left the other one. */
    predicate Overrun()
      reads this
    {
      indexProducer == n && activeBufferProducer != activeBufferConsumer
    }

    /** The whole callback, from the captured frame on. */
    method HandleFrame(f: seq<byte>, length: nat, timing: TimeVal) returns (handled: Handled)
      requires Valid()
      modifies this, sharedBufferA, sharedBufferB
      ensures Valid() && stopLoop == old(stopLoop)
      ensures match if stopLoop then Drop else Capture(f, length, timing, watched)
              case Drop => handled == Ignored && state == old(state)
              case Crash => handled == Terminated && state == old(state)
              case Wild => handled == Undefined && state == old(state)
              case Keep(p) => if old(Overrun()) then handled == Terminated && state == old(state)
                              else
                                && handled == Stored && state == AfterStore(old(state), p)
                                && state.stored == old(state.stored) + [p] && state.examined == old(state.examined)
    {
      if stopLoop {
        return Ignored;
      }
      var verdict := Judge(f, length, timing, watched);
      match verdict
      case Drop => handled := Ignored;
      case Crash => handled := Terminated;
      case Wild => handled := Undefined;
      case Keep(p) => handled := HandlePacket(p);
    }

    /** The part of the callback behind the decoder. Its effect is that of a run of the protocol's
        producer (StoreIsRun). */
    method HandlePacket(p: Packet) returns (handled: Handled)
      requires Valid()
      modifies this, sharedBufferA, sharedBufferB
      ensures Valid() && stopLoop == old(stopLoop)
      ensures handled == if |p.data| > 1500 then Terminated
                         else if |p.data| == 0 then Ignored
                         else if old(Overrun()) then Terminated
                         else Stored
      ensures state == if handled == Stored then AfterStore(old(state), p) else old(state)
      ensures state.stored == old(state.stored) + (if handled == Stored then [p] else [])
      ensures state.examined == old(state.examined)
      ensures old(Overrun()) ==> |state.stored| - |state.examined| >= n
    {
      hide QueueOk, AfterStore, Copied;
      if Overrun() {
        OverrunBacklog(state);
      }
      if |p.data| > MAX_PACKET_SIZE {
        return Terminated;
      }
      if |p.data| == 0 {
        return Ignored;
      }
      if !Overrun() {
        FitsSlot(state, p);
      }
      if indexProducer == n {
        if activeBufferProducer == activeBufferConsumer {
          OpenKeepsQueue(state);
          state := Opened(state);
          indexProducer := 0;
          activeBufferProducer := !activeBufferProducer;
        } else {
          return Terminated;
        }
      }
      WriteSlot(p);
      return Stored;
    }

    /** The rest of the callback: fills the current slot and publishes it. */
    method WriteSlot(p: Packet)
      requires Valid() && Storable(p) && indexProducer < n
      modifies this`indexProducer, this`state, sharedBufferA, sharedBufferB
      ensures Valid() && state == AfterStore(old(state), p)
    {
      hide QueueOk, Reaches;
      ghost var path := StoreIsRun(state, p);
      var buffer := if activeBufferProducer then sharedBufferB else sharedBufferA;
      var slot := buffer[indexProducer];
      slot := slot.(payload := p.data + slot.payload[|p.data|..]);  // memcpy
      slot := slot.(payloadSize := |p.data|, direction := p.direction, timing := p.timing);
      buffer[indexProducer] := slot;
      indexProducer := indexProducer + 1;
      state := AfterStore(state, p);
      assert sharedBufferA[..] == state.bufferA;
      assert sharedBufferB[..] == state.bufferB;
    }

    /** The capture thread runs for a while. */
    method Deliver(batch: seq<Packet>) returns (crashed: bool)
      requires Valid() && forall i :: 0 <= i < |batch| ==> Storable(batch[i])
      modifies this, sharedBufferA, sharedBufferB
      ensures Valid() && state.examined == old(state.examined)
      ensures old(state.stored) <= state.stored <= old(state.stored) + batch
      ensures if crashed then |state.stored| - |state.examined| >= n else state.stored == old(state.stored) + batch
    {
      hide QueueOk, AfterStore;
      for i := 0 to |batch|
        invariant Valid() && state.examined == old(state.examined)
        invariant state.stored == old(state.stored) + batch[..i]
      {
        assert batch[..i + 1] == batch[..i] + [batch[i]];
        var handled := HandlePacket(batch[i]);
        if handled == Terminated {
          return true;
        }
      }
      assert batch[..|batch|] == batch;
      return false;
    }

    /** The consumer yields: the next batch of the schedule, if any is left, arrives. */
    method Yield(arrivals: seq<seq<Packet>>, next: nat, ghost before: seq<Packet>) returns (crashed: bool, next': nat)
      requires Valid() && AllStorable(arrivals) && Scheduled(before, arrivals, next, state.stored)
      modifies this, sharedBufferA, sharedBufferB
      ensures Valid() && state.examined == old(state.examined) && old(state.stored) <= state.stored
      ensures if crashed then before <= state.stored && state.stored <= before + Flatten(arrivals)
                              && |state.stored| - |state.examined| >= n
              else Scheduled(before, arrivals, next', state.stored)
      ensures next' == (if !crashed && next < |arrivals| then next + 1 else next)
      ensures next == |arrivals| ==> !crashed && unchanged(this)
    {
      crashed, next' := false, next;
      if next < |arrivals| {
        crashed := Deliver(arrivals[next]);
        FlattenNext(arrivals, next);
        FlattenPrefix(arrivals, next + 1);
        WithinSchedule(before, Flatten(arrivals[..next]), arrivals[next], Flatten(arrivals), state.stored);
        if !crashed {
          next' := next + 1;
        }
      }
    }

    /** "No new packets." */
    predicate Empty()
      reads this
    {
      activeBufferProducer == activeBufferConsumer && indexProducer == indexConsumer
    }

    /** The consumer is through with its buffer and the producer has opened the other one. */
    predicate AtSwitch()
      reads this
    {
      activeBufferProducer != activeBufferConsumer && indexConsumer == n
    }

    lemma WhatIsLeft()
      requires Valid()
      ensures Empty() ==> state.examined == state.stored
      ensures !Empty() && !AtSwitch() ==> |state.examined| < |state.stored|
    {
    }

    /** Like a run of the protocol's consumer (LeaveIsRun). */
    method LeaveOldBuffer()
      requires Valid() && AtSwitch()
      modifies this`activeBufferConsumer, this`indexConsumer, this`state
      ensures Valid() && state == AfterLeave(old(state))
    {
      ghost var path := LeaveIsRun(state);
      state := AfterLeave(state);
      activeBufferConsumer := !activeBufferConsumer;
      indexConsumer := 0;
    }

    /** Compares the request with the current slot and moves on, like a run of the protocol's consumer
        (PassIsRun). */
    method Examine(r: Request) returns (hit: bool, timing: TimeVal)
      requires Valid() && !Empty() && !AtSwitch()
      modifies this`indexConsumer, this`state
      ensures Valid()
      ensures old(|state.examined|) < old(|state.stored|) && state == AfterPass(old(state))
      ensures var p := state.stored[old(|state.examined|)]; hit <==> p.direction == r.direction && p.data == r.data
      ensures timing == state.stored[old(|state.examined|)].timing
    {
      hide QueueOk;
      PassKeepsQueue(state);
      var buffer := if activeBufferConsumer then sharedBufferB else sharedBufferA;
      var candidate := buffer[indexConsumer];
      assert candidate == Buffer(state, state.flagC)[indexConsumer];
      SlotMatchesPacket(r, candidate, state.stored[|state.examined|]);
      hit, timing := SlotMatches(r, candidate), candidate.timing;
      state := AfterPass(state);
      indexConsumer := indexConsumer + 1;
    }

    /** One round of the search: nothing to take, or leave the old buffer, or compare one packet. */
    method Look(r: Request) returns (match_: Option<TimeVal>)
      requires Valid()
      modifies this`activeBufferConsumer, this`indexConsumer, this`state
      ensures Valid() && state.stored == old(state.stored)
      ensures Looked(r, state.stored, old(|state.examined|), |state.examined|, match_)
      ensures old(Empty()) ==> |state.examined| == |state.stored|
      ensures !old(Empty()) && |state.examined| == old(|state.examined|) ==>
                old(activeBufferProducer != activeBufferConsumer) && activeBufferProducer == activeBufferConsumer
    {
      match_ := None;
      WhatIsLeft();
      if Empty() {
        return;
      }
      if AtSwitch() {
        LeaveOldBuffer();
        return;
      }
      var hit, timing := Examine(r);
      if hit {
        match_ := Some(timing);
      }
    }

    /** Takes packets in order until one answers the request, and returns its time. */
    method TimingForPacket(r: Request, arrivals: seq<seq<Packet>>) returns (result: Search)
      requires Valid() && AllStorable(arrivals)
      modifies this, sharedBufferA, sharedBufferB
      ensures Valid()
      ensures Searched(r, old(state.stored), old(|state.examined|), arrivals,
                       state.stored, |state.examined|, n, result)
    {
      var match_: Option<TimeVal> := None;  // a pointer, null until the packet is found
      var next := 0;
      ghost var before, from := state.stored, |state.examined|;
      NothingYet(before, arrivals);
      while match_ == None
        invariant Valid() && Scheduled(before, arrivals, next, state.stored)
        invariant SoFar(r, state.stored, from, |state.examined|, match_)
        decreases |arrivals| - next, |state.stored| - |state.examined|, activeBufferProducer != activeBufferConsumer
      {
        var more := next < |arrivals|;
        ghost var was := state.stored;
        var crashed;
        crashed, next := Yield(arrivals, next, before);
        SoFarGrows(r, was, state.stored, from, |state.examined|);
        if crashed {
          EndsCrashed(r, before, from, arrivals, state.stored, |state.examined|, n);
          return Crashed;
        }
        var idle := Empty();
        ghost var at := |state.examined|;
        match_ := Look(r);
        SoFarNext(r, state.stored, from, at, |state.examined|, match_);
        if idle && !more {
          EndsWaiting(r, before, from, arrivals, state.stored, |state.examined|, n);
          return Waiting;
        }
      }
      EndsFound(r, before, from, arrivals, next, state.stored, |state.examined|, n, match_.value);
      return Found(match_.value);
    }
  }

  /** One round moves from position `at` to `next` and passes at most one packet. */
  ghost predicate Looked(r: Request, trace: seq<Packet>, at: nat, next: nat, found: Option<TimeVal>) {
    match found
    case None =>
      || next == at
      || (next == at + 1 <= |trace| && (trace[at].direction != r.direction || trace[at].data != r.data))
    case Some(timing) =>
      && next == at + 1 <= |trace| && timing == trace[at].timing
      && trace[at].direction == r.direction && trace[at].data == r.data
  }

  ghost predicate AllStorable(arrivals: seq<seq<Packet>>) {
    forall k, i :: 0 <= k < |arrivals| && 0 <= i < |arrivals[k]| ==> Storable(arrivals[k][i])
  }

  /** The first `next` batches of the schedule have been stored. */
  ghost predicate Scheduled(before: seq<Packet>, arrivals: seq<seq<Packet>>, next: nat, stored: seq<Packet>) {
    match next <= |arrivals|
    case false => false
    case true =>
      && stored == before + Flatten(arrivals[..next])
      && before <= stored && stored <= before + Flatten(arrivals)
  }

  lemma NothingYet(before: seq<Packet>, arrivals: seq<seq<Packet>>)
    ensures Scheduled(before, arrivals, 0, before)
  {
    assert before + Flatten(arrivals[..0]) == before;
  }

  /** What does not depend on how the search ended. */
  ghost predicate SearchFrame(before: seq<Packet>, from: nat, arrivals: seq<seq<Packet>>,
                              stored: seq<Packet>, next: nat)
  {
    before <= stored <= before + Flatten(arrivals) && from <= next <= |stored|
  }

  /** One search: it starts behind the packets examined before, during it some of the arrivals are
      stored, and it ends at the first match, or with nothing left, or with the overrun. */
  ghost predicate Searched(r: Request, before: seq<Packet>, from: nat, arrivals: seq<seq<Packet>>,
                           stored: seq<Packet>, next: nat, n: nat, result: Search) {
    match result
    case Found(timing) =>
      SearchFrame(before, from, arrivals, stored, next) && IsFirstMatch(r, stored, from, next, timing)
    case Waiting =>
      && SearchFrame(before, from, arrivals, stored, next)
      && stored == before + Flatten(arrivals) && next == |stored| && NoMatch(r, stored, from, next)
    case Crashed =>
      && SearchFrame(before, from, arrivals, stored, next)
      && |stored| - next >= n && NoMatch(r, stored, from, next)
  }

  lemma EndsFound(r: Request, before: seq<Packet>, from: nat, arrivals: seq<seq<Packet>>, arrived: nat,
                  stored: seq<Packet>, next: nat, n: nat, timing: TimeVal)
    requires Scheduled(before, arrivals, arrived, stored) && SoFar(r, stored, from, next, Some(timing))
    ensures Searched(r, before, from, arrivals, stored, next, n, Found(timing))
  {
  }

  lemma EndsWaiting(r: Request, before: seq<Packet>, from: nat, arrivals: seq<seq<Packet>>,
                    stored: seq<Packet>, next: nat, n: nat)
    requires Scheduled(before, arrivals, |arrivals|, stored) && SoFar(r, stored, from, next, None)
    requires next == |stored|
    ensures Searched(r, before, from, arrivals, stored, next, n, Waiting)
  {
    assert arrivals[..|arrivals|] == arrivals;
  }

  lemma EndsCrashed(r: Request, before: seq<Packet>, from: nat, arrivals: seq<seq<Packet>>,
                    stored: seq<Packet>, next: nat, n: nat)
    requires before <= stored && stored <= before + Flatten(arrivals) && SoFar(r, stored, from, next, None)
    requires |stored| - next >= n
    ensures Searched(r, before, from, arrivals, stored, next, n, Crashed)
  {
  }

  lemma SoFarNext(r: Request, trace: seq<Packet>, from: nat, at: nat, next: nat, found: Option<TimeVal>)
    requires SoFar(r, trace, from, at, None) && Looked(r, trace, at, next, found)
    ensures SoFar(r, trace, from, next, found)
  {
  }

  lemma SoFarGrows(r: Request, trace: seq<Packet>, trace': seq<Packet>, from: nat, to: nat)
    requires SoFar(r, trace, from, to, None) && trace <= trace'
    ensures SoFar(r, trace', from, to, None)
  {
  }

  lemma {:induction false} FlattenNext(arrivals: seq<seq<Packet>>, next: nat)
    requires next < |arrivals|
    ensures Flatten(arrivals[..next + 1]) == Flatten(arrivals[..next]) + arrivals[next]
    decreases next
  {
    if next == 0 {
      assert arrivals[..1] == [arrivals[0]] && arrivals[..0] == [];
    } else {
      FlattenNext(arrivals[1..], next - 1);
      assert arrivals[..next + 1][1..] == arrivals[1..][..next] && arrivals[..next][1..] == arrivals[1..][..next - 1];
    }
  }

  lemma {:induction false} FlattenPrefix(arrivals: seq<seq<Packet>>, next: nat)
    requires next <= |arrivals|
    ensures Flatten(arrivals[..next]) <= Flatten(arrivals)
    decreases |arrivals| - next
  {
    if next == |arrivals| {
      assert arrivals[..next] == arrivals;
    } else {
      FlattenNext(arrivals, next);
      FlattenPrefix(arrivals, next + 1);
    }
  }

  /** What was stored before (`before` and the batches `done`), plus part of the next batch, is still
      part of what the schedule holds. */
  lemma WithinSchedule(before: seq<Packet>, done: seq<Packet>, batch: seq<Packet>, all: seq<Packet>,
                       stored: seq<Packet>)
    requires done + batch <= all
    requires before + done <= stored && stored <= before + done + batch
    ensures before <= stored && stored <= before + all
    ensures before + done + batch == before + (done + batch)
  {
    forall i | 0 <= i < |stored| ensures stored[i] == (before + all)[i] {
      assert stored[i] == (before + done + batch)[i];
      if |before| <= i {
        assert (before + all)[i] == all[i - |before|] == (done + batch)[i - |before|];
      }
    }
  }
}
