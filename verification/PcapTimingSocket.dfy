/** The timing socket that measures with captured packets: a write notes when its packet was seen on
    the wire, a read notes when the answer was seen, and a measurement is the difference. */
module PcapTimingSocket {
  import opened CapturedPackets
  import opened CaptureProtocol
  import opened PcapWrapper
  import opened Timing
  import opened Wrappers

  ghost predicate ValidTrace(unit: int, trace: seq<Packet>) {
    && (forall i :: 0 <= i < |trace| ==> Normal(unit, trace[i].timing))
    && (forall i, j :: 0 <= i < j < |trace| ==> Nanos(unit, trace[i].timing) <= Nanos(unit, trace[j].timing))
  }

  ghost function Elapsed(unit: int, trace: seq<Packet>, i: nat, j: nat): int
    requires i < |trace| && j < |trace|
  {
    Nanos(unit, trace[j].timing) - Nanos(unit, trace[i].timing)
  }

  /** On a trace whose times are valid and never run backwards, `delta` is the time from packet i to
      packet j in nanoseconds. */
  ghost predicate Measures(precision: int, trace: seq<Packet>, i: nat, j: nat, delta: Option<int>)
    requires i < |trace| && j < |trace|
  {
    match ValidTrace(Unit(precision), trace)
    case false => true
    case true =>
      && 0 <= Elapsed(Unit(precision), trace, i, j)
      && delta == Some(Elapsed(Unit(precision), trace, i, j) % TWO64)
  }

  /** Packet i is the first one from position `from` on with exactly these bytes and this direction, and
      `timing` is its time. */
  ghost predicate IsFirst(data: seq<byte>, direction: Direction, trace: seq<Packet>, from: nat, i: nat,
                          timing: TimeVal)
  {
    match from <= i < |trace|
    case false => false
    case true =>
      && trace[i].data == data && trace[i].direction == direction && trace[i].timing == timing
      && (forall k :: from <= k < i ==> trace[k].data != data || trace[k].direction != direction)
  }

  /** The noted time is that of the packet at the noted position, which has been examined. */
  ghost predicate Noted(at: Option<nat>, timing: TimeVal, stored: seq<Packet>, examined: nat) {
    match at
    case None => true
    case Some(i) => i < examined <= |stored| && stored[i].timing == timing
  }

  /** A search keeps what was noted and, if it finds a packet, can note that one. */
  lemma NoteAfterSearch(r: Request, before: seq<Packet>, from: nat, arrivals: seq<seq<Packet>>,
                        stored: seq<Packet>, next: nat, n: nat, result: Search, at: Option<nat>, timing: TimeVal)
    requires Searched(r, before, from, arrivals, stored, next, n, result) && Noted(at, timing, before, from)
    ensures Noted(at, timing, stored, next)
    ensures result.Found? ==> next > 0 && Noted(Some(next - 1), result.timing, stored, next)
  {
  }

  class PCAPTimingSocket {
    const pcap: UserData
    const precision: int
    var txTimestamp: TimeVal
    var rxTimestamp: TimeVal
    // positions in the trace of the packets whose times are noted; None before the first one
    ghost var tx: Option<nat>
    ghost var rx: Option<nat>

    ghost predicate Valid()
      reads this, pcap, pcap.sharedBufferA, pcap.sharedBufferB
    {
      && pcap.Valid()
      && Noted(tx, txTimestamp, pcap.state.stored, |pcap.state.examined|)
      && Noted(rx, rxTimestamp, pcap.state.stored, |pcap.state.examined|)
    }

    constructor (pcap: UserData, precision: int)
      requires pcap.Valid()
      ensures Valid() && this.pcap == pcap && this.precision == precision && tx == None && rx == None
    {
      this.pcap, this.precision := pcap, precision;
      txTimestamp, rxTimestamp, tx, rx := TimeVal(0, 0), TimeVal(0, 0), None, None;
    }

    /** The data has been sent; find it in the capture. */
    method Write(data: seq<byte>, arrivals: seq<seq<Packet>>) returns (result: Search)
      requires Valid() && AllStorable(arrivals)
      modifies this, pcap, pcap.sharedBufferA, pcap.sharedBufferB
      ensures Valid() && rx == old(rx)
      ensures Searched(Request(data, DestinationRemote), old(pcap.state.stored), old(|pcap.state.examined|), arrivals,
                       pcap.state.stored, |pcap.state.examined|, pcap.n, result)
      ensures tx == if result.Found? then Some(|pcap.state.examined| - 1) else old(tx)
      ensures result.Found? ==>
                IsFirst(data, DestinationRemote, pcap.state.stored, old(|pcap.state.examined|), tx.value, result.timing)
    {
      hide QueueOk;
      ghost var before, from := pcap.state.stored, |pcap.state.examined|;
      result := pcap.TimingForPacket(Request(data, DestinationRemote), arrivals);
      NoteAfterSearch(Request(data, DestinationRemote), before, from, arrivals,
                      pcap.state.stored, |pcap.state.examined|, pcap.n, result, rx, rxTimestamp);
      NoteAfterSearch(Request(data, DestinationRemote), before, from, arrivals,
                      pcap.state.stored, |pcap.state.examined|, pcap.n, result, tx, txTimestamp);
      if result.Found? {
        FoundAt(Request(data, DestinationRemote), before, from, arrivals,
                pcap.state.stored, |pcap.state.examined|, pcap.n, result);
        txTimestamp, tx := result.timing, Some(|pcap.state.examined| - 1);
      }
    }

    /** `received` is None when the underlying read returned no data; then nothing is looked up. */
    method Read(received: Option<seq<byte>>, arrivals: seq<seq<Packet>>) returns (result: Option<Search>)
      requires Valid() && AllStorable(arrivals)
      modifies this, pcap, pcap.sharedBufferA, pcap.sharedBufferB
      ensures Valid() && tx == old(tx)
      ensures received == None ==> result == None && rx == old(rx) && pcap.state == old(pcap.state)
      ensures received.Some? ==>
                && result.Some?
                && Searched(Request(received.value, SourceRemote), old(pcap.state.stored), old(|pcap.state.examined|),
                            arrivals, pcap.state.stored, |pcap.state.examined|, pcap.n, result.value)
      ensures received.Some? ==> rx == if result.value.Found? then Some(|pcap.state.examined| - 1) else old(rx)
      ensures received.Some? && result.value.Found? ==>
                IsFirst(received.value, SourceRemote, pcap.state.stored, old(|pcap.state.examined|), rx.value,
                        result.value.timing)
    {
      hide QueueOk;
      match received
      case None => result := None;
      case Some(bytes) =>
        ghost var before, from := pcap.state.stored, |pcap.state.examined|;
        var search := pcap.TimingForPacket(Request(bytes, SourceRemote), arrivals);
        NoteAfterSearch(Request(bytes, SourceRemote), before, from, arrivals,
                        pcap.state.stored, |pcap.state.examined|, pcap.n, search, tx, txTimestamp);
        NoteAfterSearch(Request(bytes, SourceRemote), before, from, arrivals,
                        pcap.state.stored, |pcap.state.examined|, pcap.n, search, rx, rxTimestamp);
        if search.Found? {
          FoundAt(Request(bytes, SourceRemote), before, from, arrivals,
                  pcap.state.stored, |pcap.state.examined|, pcap.n, search);
          rxTimestamp, rx := search.timing, Some(|pcap.state.examined| - 1);
        }
        result := Some(search);
    }

    /** The nanoseconds between the two noted stamps, modulo 2^64; None if they are in the wrong order or
        the precision is unknown. After a write and a later successful read the measurement cannot fail,
        and it is the time between the two packets. */
    method GetLastMeasurement() returns (delta: Option<int>)
      requires Valid()
      ensures delta ==
              if precision != 0 && precision != 1 then None
              else if txTimestamp.sec > rxTimestamp.sec then None
              else if txTimestamp.sec == rxTimestamp.sec && txTimestamp.usec > rxTimestamp.usec then None
              else Some(((rxTimestamp.sec - txTimestamp.sec) * 1_000_000_000
                         + (rxTimestamp.usec - txTimestamp.usec) * (if precision == 0 then 1000 else 1))
                        % 0x1_0000_0000_0000_0000)
      ensures tx.Some? && rx.Some? && tx.value < rx.value && (precision == 0 || precision == 1) ==>
                Measures(precision, pcap.state.stored, tx.value, rx.value, delta)
    {
      delta := TimevalDeltaToNs(precision, txTimestamp, rxTimestamp);
      if tx.Some? && rx.Some? && tx.value < rx.value && (precision == 0 || precision == 1) {
        DeltaMeasures(precision, pcap.state.stored, tx.value, rx.value);
      }
    }
  }

  lemma DeltaMeasures(precision: int, trace: seq<Packet>, i: nat, j: nat)
    requires i < j < |trace| && (precision == 0 || precision == 1)
    ensures Measures(precision, trace, i, j, Delta(Unit(precision), trace[i].timing, trace[j].timing))
  {
    if ValidTrace(Unit(precision), trace) {
      DeltaOfNormal(Unit(precision), trace[i].timing, trace[j].timing);
    }
  }

  lemma FoundAt(r: Request, before: seq<Packet>, from: nat, arrivals: seq<seq<Packet>>,
                stored: seq<Packet>, next: nat, n: nat, result: Search)
    requires Searched(r, before, from, arrivals, stored, next, n, result) && result.Found?
    ensures before <= stored && next > 0 && IsFirst(r.data, r.direction, stored, from, next - 1, result.timing)
  {
  }

  /** Position i holds the first packet from `from` on with the bytes of the request on their way to the
      remote, and j the first packet behind i with the bytes of the answer on their way back. */
  ghost predicate Answers(request: seq<byte>, answer: seq<byte>, trace: seq<Packet>, from: nat, i: nat, j: nat) {
    match from <= i < j < |trace|
    case false => false
    case true =>
      && trace[i].data == request && trace[i].direction == DestinationRemote
      && trace[j].data == answer && trace[j].direction == SourceRemote
      && (forall k :: from <= k < i ==> trace[k].data != request || trace[k].direction != DestinationRemote)
      && (forall k :: i < k < j ==> trace[k].data != answer || trace[k].direction != SourceRemote)
  }

  /** Two searches, one after the other. */
  lemma BothFound(request: seq<byte>, answer: seq<byte>, stored1: seq<Packet>, stored2: seq<Packet>,
                  from: nat, i: nat, j: nat, first: TimeVal, second: TimeVal)
    requires IsFirst(request, DestinationRemote, stored1, from, i, first) && stored1 <= stored2
    requires IsFirst(answer, SourceRemote, stored2, i + 1, j, second)
    ensures Answers(request, answer, stored2, from, i, j)
  {
  }

  /** One exchange of the proxy: send a request, receive the answer, measure. `measured` tells whether
      both packets were found; the packets of `during` and `after` are captured meanwhile. */
  method Exchange(socket: PCAPTimingSocket, request: seq<byte>, answer: seq<byte>,
                  during: seq<seq<Packet>>, after: seq<seq<Packet>>) returns (measured: bool, delta: Option<int>)
    requires socket.Valid() && AllStorable(during) && AllStorable(after)
    requires socket.precision == 0 || socket.precision == 1
    modifies socket, socket.pcap, socket.pcap.sharedBufferA, socket.pcap.sharedBufferB
    ensures socket.Valid()
    ensures measured ==>
              && socket.tx.Some? && socket.rx.Some?
              && Answers(request, answer, socket.pcap.state.stored,
                         old(|socket.pcap.state.examined|), socket.tx.value, socket.rx.value)
    ensures measured ==>
              Measures(socket.precision, socket.pcap.state.stored, socket.tx.value, socket.rx.value, delta)
  {
    hide QueueOk, Matches;
    ghost var from := |socket.pcap.state.examined|;
    var sent := socket.Write(request, during);
    if !sent.Found? {
      return false, None;
    }
    ghost var stored1, i := socket.pcap.state.stored, socket.tx.value;
    var received := socket.Read(Some(answer), after);
    if !received.value.Found? {
      return false, None;
    }
    ghost var stored2, j := socket.pcap.state.stored, socket.rx.value;
    BothFound(request, answer, stored1, stored2, from, i, j, sent.timing, received.value.timing);
    delta := socket.GetLastMeasurement();
    assert socket.pcap.state.stored == stored2 && socket.tx.value == i && socket.rx.value == j;
    measured := true;
  }
}
