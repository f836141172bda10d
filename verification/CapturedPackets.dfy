/** Captured packets, the slots that hold them, and what it means to find a list of requests in a
    captured trace. */
module CapturedPackets {

  newtype byte = x: int | 0 <= x < 256

  datatype Direction = DestinationRemote | SourceRemote

  /** A signed 64-bit field. */
  type int64 = x: int | -0x8000_0000_0000_0000 <= x < 0x8000_0000_0000_0000

  datatype TimeVal = TimeVal(sec: int64, usec: int64)

  const MAX_PACKET_SIZE: nat := 1500

  /** A captured transport payload as the protocol's history remembers it. */
  datatype Packet = Packet(data: seq<byte>, direction: Direction, timing: TimeVal)

  /** The packets that handlePacket stores: empty ones are dropped and longer ones are refused. */
  predicate Storable(p: Packet) {
    0 < |p.data| <= MAX_PACKET_SIZE
  }

  /** One slot of a shared buffer. The bytes of `payload` from payloadSize on are left-overs. */
  datatype PacketInfo = PacketInfo(payload: seq<byte>, payloadSize: nat, direction: Direction, timing: TimeVal)

  ghost predicate Holds(slot: PacketInfo, p: Packet) {
    && slot.payloadSize == |p.data| <= |slot.payload|
    && slot.payload[..slot.payloadSize] == p.data
    && slot.direction == p.direction && slot.timing == p.timing
  }

  /** What a caller of timingForPacket looks for. */
  datatype Request = Request(data: seq<byte>, direction: Direction)

  predicate Matches(r: Request, p: Packet) {
    r.direction == p.direction && r.data == p.data
  }

  /** The test of timingForPacket on a slot; memcmp is only reached when the sizes agree. */
  predicate SlotMatches(r: Request, slot: PacketInfo) {
    && r.direction == slot.direction
    && |r.data| == slot.payloadSize
    && |r.data| <= |slot.payload| && slot.payload[..|r.data|] == r.data
  }

  lemma SlotMatchesPacket(r: Request, slot: PacketInfo, p: Packet)
    requires Holds(slot, p)
    ensures SlotMatches(r, slot) <==> r.direction == p.direction && r.data == p.data
  {
  }

  // ----- greedy search in order

  /** The positions at which the requests, each searched from just after the previous hit, are found
      in the trace; a request that is not found ends the list. */
  function Scan(requests: seq<Request>, trace: seq<Packet>): (hits: seq<nat>)
    ensures |hits| <= |requests|
    decreases |trace|
  {
    if trace == [] then []
    else
      var n := |trace| - 1;
      var hits := Scan(requests, trace[..n]);
      if |hits| < |requests| && Matches(requests[|hits|], trace[n]) then hits + [n] else hits
  }

  /** The requests occur in the trace at the given, strictly increasing positions. */
  ghost predicate Embeds(requests: seq<Request>, trace: seq<Packet>, at: seq<nat>) {
    && |at| == |requests|
    && (forall k :: 0 <= k < |at| ==>
          && at[k] < |trace|
          && trace[at[k]].direction == requests[k].direction && trace[at[k]].data == requests[k].data)
    && (forall k, m :: 0 <= k < m < |at| ==> at[k] < at[m])
  }

  lemma {:induction false} ScanEmbeds(requests: seq<Request>, trace: seq<Packet>)
    ensures var hits := Scan(requests, trace); Embeds(requests[..|hits|], trace, hits)
  {
    if trace != [] {
      ScanEmbeds(requests, trace[..|trace| - 1]);
    }
  }

  /** No search skips a match: between two hits nothing answers the request that is being looked for. */
  lemma {:induction false} ScanSkipsNothing(requests: seq<Request>, trace: seq<Packet>, k: nat, at: nat)
    requires k < |requests| && k <= |Scan(requests, trace)| && at < |trace|
    requires k > 0 ==> Scan(requests, trace)[k - 1] < at
    requires k < |Scan(requests, trace)| ==> at < Scan(requests, trace)[k]
    ensures trace[at].direction != requests[k].direction || trace[at].data != requests[k].data
  {
    var n := |trace| - 1;
    ScanEmbeds(requests, trace);
    ScanEmbeds(requests, trace[..n]);
    if at < n {
      ScanSkipsNothing(requests, trace[..n], k, at);
    }
  }

  /** The greedy positions are pointwise no later than those of any other way to find the requests. */
  lemma {:induction false} ScanIsEarliest(requests: seq<Request>, trace: seq<Packet>, count: nat, at: seq<nat>)
    requires count <= |requests| && Embeds(requests[..count], trace, at)
    ensures |Scan(requests, trace)| >= count
    ensures forall k :: 0 <= k < count ==> Scan(requests, trace)[k] <= at[k]
    decreases |trace|
  {
    if count > 0 {
      assert at[count - 1] < |trace|;
      var n, last := |trace| - 1, count - 1;
      var front := trace[..n];
      if at[last] < n {
        forall k | 0 <= k < count ensures at[k] < n {}
        assert Embeds(requests[..count], front, at);
        ScanIsEarliest(requests, front, count, at);
      } else {
        forall k | 0 <= k < last ensures at[k] < n { assert at[k] < at[last]; }
        assert requests[..count][..last] == requests[..last];
        assert Embeds(requests[..last], front, at[..last]);
        ScanIsEarliest(requests, front, last, at[..last]);
        ScanEmbeds(requests, trace);
      }
    }
  }

  /** A longer trace extends the hits and never revises them. */
  lemma {:induction false} ScanGrows(requests: seq<Request>, trace: seq<Packet>, n: nat)
    requires n <= |trace|
    ensures Scan(requests, trace[..n]) <= Scan(requests, trace)
    decreases |trace| - n
  {
    if n < |trace| {
      ScanGrows(requests, trace, n + 1);
      assert trace[..n + 1][..n] == trace[..n];
    } else {
      assert trace[..n] == trace;
    }
  }
}
