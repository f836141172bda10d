/** The decoders from Ethernet down to TCP and UDP. A packet pointer is an offset into the captured
    frame; a read behind the end of the frame is an outcome of its own. The functions say what the
    decoders compute; the parser objects below compute it field by field. */
module PacketParser {
  import opened CapturedPackets
  import opened Timing
  import opened Wrappers

  datatype Layer = Ethernet | Ipv4 | Ipv6 | Tcp | Udp

  datatype Failure =
    | InvalidArgument  // std::invalid_argument, which the capture callback catches
    | OutOfRange       // std::out_of_range from the table of IPv6 header types
    | Terminate        // `throw;` without an active exception
    | OutsideFrame     // a read behind the captured bytes

  datatype Result<+T> = Ok(value: T) | Err(failure: Failure)

  /** Addresses are the raw address bytes instead of their text. */
  datatype Artefacts = Artefacts(ipType: Layer, src: seq<byte>, dst: seq<byte>,
                                 payloadType: Layer, srcPort: int, dstPort: int)

  /** payload is None for a null pointer. */
  datatype Decoded = Decoded(payload: Option<nat>, size: nat, artefacts: Artefacts)

  const ETHERTYPE_IPV4: int := 0x0800
  const ETHERTYPE_IPV6: int := 0x86dd
  const PROTO_TCP: int := 0x06
  const PROTO_UDP: int := 0x11
  const PROTO_NONE: int := 0x3b

  function U8(f: seq<byte>, at: nat): int
    requires at < |f|
  {
    f[at] as int
  }

  /** ntohs */
  function U16(f: seq<byte>, at: nat): int
    requires at + 1 < |f|
  {
    f[at] as int * 256 + f[at + 1] as int
  }

  /** ntohl */
  function U32(f: seq<byte>, at: nat): int
    requires at + 3 < |f|
  {
    U16(f, at) * 65536 + U16(f, at + 2)
  }

  // ----- headers

  datatype EthernetHeader = EthernetHeader(payload: nat, size: nat, etherType: int)

  function ParseEthernet(f: seq<byte>, at: nat, size: nat): Result<EthernetHeader> {
    if size < 14 then Err(InvalidArgument)
    else if at + 14 > |f| then Err(OutsideFrame)
    else Ok(EthernetHeader(at + 14, size - 14, U16(f, at + 12)))
  }

  datatype Ipv4Header = Ipv4Header(payload: nat, size: nat, proto: int, src: seq<byte>, dst: seq<byte>)

  function ParseIpv4(f: seq<byte>, at: nat, size: nat): Result<Ipv4Header> {
    if size < 20 then Err(InvalidArgument)
    else if at + 20 > |f| then Err(OutsideFrame)
    else if U8(f, at) / 16 != 4 then Err(Terminate)
    else
      var headerLength := U8(f, at) % 16 * 4;
      Ok(Ipv4Header(at + headerLength, U64(U16(f, at + 2) - headerLength), U8(f, at + 9),
                    f[at + 12..at + 16], f[at + 16..at + 20]))
  }

  /** The types of HeaderTypeMap that are marked as extension headers. */
  predicate IsExtension(next: int) {
    || next == 0x00 || next == 0x2b || next == 0x2c || next == 0x32 || next == 0x33 || next == 0x3c
    || next == 0x87 || next == 0x8b || next == 0x8c || next == 0xfd || next == 0xfe
  }

  predicate IsKnown(next: int) {
    IsExtension(next) || next == PROTO_TCP || next == PROTO_UDP || next == PROTO_NONE
  }

  datatype Walked = Walked(at: nat, size: nat, next: int)

  /** The extension header loop from the header at offset `at` on, with `size` bytes left. */
  function Walk(f: seq<byte>, at: nat, size: nat, next: int): (r: Result<Walked>)
    decreases size
  {
    if !IsKnown(next) then Err(OutOfRange)
    else if !IsExtension(next) then Ok(Walked(at, size, next))
    else if size < 64 then Err(Terminate)
    else if at + 2 > |f| then Err(OutsideFrame)
    else
      var length := U8(f, at + 1) * 8 + 8;
      if length > size then Err(Terminate)
      else Walk(f, at + length, size - length, U8(f, at))
  }

  datatype Ipv6Header = Ipv6Header(payload: Option<nat>, size: nat, next: int, src: seq<byte>, dst: seq<byte>)

  function ParseIpv6(f: seq<byte>, at: nat, size: nat): Result<Ipv6Header> {
    if size < 40 then Err(InvalidArgument)
    else if at + 40 > |f| then Err(OutsideFrame)
    else if U8(f, at) / 16 != 6 then Err(Terminate)
    else if size - 40 < U16(f, at + 4) then Err(InvalidArgument)
    else
      match Walk(f, at + 40, U16(f, at + 4), U8(f, at + 6))
      case Err(e) => Err(e)
      case Ok(w) =>
        var none := w.next == PROTO_NONE;
        Ok(Ipv6Header(if none then None else Some(w.at), if none then 0 else w.size, w.next,
                      f[at + 8..at + 24], f[at + 24..at + 40]))
  }

  datatype TransportHeader = TransportHeader(payload: nat, size: nat, srcPort: int, dstPort: int)

  function ParseTcp(f: seq<byte>, at: nat, size: nat): Result<TransportHeader> {
    if size < 20 then Err(InvalidArgument)
    else if at + 13 > |f| then Err(OutsideFrame)
    else
      var headerLength := U8(f, at + 12) / 16 * 4;
      Ok(TransportHeader(at + headerLength, U64(size - headerLength), U16(f, at), U16(f, at + 2)))
  }

  function ParseUdp(f: seq<byte>, at: nat, size: nat): Result<TransportHeader> {
    if size < 8 then Err(InvalidArgument)
    else if at + 8 > |f| then Err(OutsideFrame)
    else if U16(f, at + 4) > size then Err(InvalidArgument)
    else Ok(TransportHeader(at + 8, size - 8, U16(f, at), U16(f, at + 2)))
  }

  // ----- decodeUntil

  function DecodeTcp(layer: Layer, f: seq<byte>, at: nat, size: nat, a: Artefacts): Result<Decoded> {
    if layer != Tcp then Err(Terminate)
    else
      match ParseTcp(f, at, size)
      case Err(e) => Err(e)
      case Ok(h) =>
        Ok(Decoded(Some(h.payload), h.size, a.(payloadType := Tcp, srcPort := h.srcPort, dstPort := h.dstPort)))
  }

  function DecodeUdp(layer: Layer, f: seq<byte>, at: nat, size: nat, a: Artefacts): Result<Decoded> {
    if layer != Udp then Err(Terminate)
    else
      match ParseUdp(f, at, size)
      case Err(e) => Err(e)
      case Ok(h) =>
        Ok(Decoded(Some(h.payload), h.size, a.(payloadType := Udp, srcPort := h.srcPort, dstPort := h.dstPort)))
  }

  function DecodeTransport(layer: Layer, f: seq<byte>, at: nat, size: nat, proto: int, a: Artefacts): Result<Decoded> {
    if proto == PROTO_TCP then DecodeTcp(layer, f, at, size, a)
    else if proto == PROTO_UDP then DecodeUdp(layer, f, at, size, a)
    else Err(Terminate)
  }

  function DecodeIpv4(layer: Layer, f: seq<byte>, at: nat, size: nat, a: Artefacts): Result<Decoded> {
    match ParseIpv4(f, at, size)
    case Err(e) => Err(e)
    case Ok(h) =>
      var a' := a.(ipType := Ipv4, src := h.src, dst := h.dst);
      if layer == Ipv4 then Ok(Decoded(Some(h.payload), h.size, a'))
      else DecodeTransport(layer, f, h.payload, h.size, h.proto, a')
  }

  function DecodeIpv6(layer: Layer, f: seq<byte>, at: nat, size: nat, a: Artefacts): Result<Decoded> {
    match ParseIpv6(f, at, size)
    case Err(e) => Err(e)
    case Ok(h) =>
      var a' := a.(ipType := Ipv6, src := h.src, dst := h.dst);
      if layer == Ipv6 then Ok(Decoded(h.payload, h.size, a'))
      else if h.payload == None then Err(Terminate)
      else DecodeTransport(layer, f, h.payload.value, h.size, h.next, a')
  }

  /** `size` is the length on the wire; the captured bytes f may be fewer. */
  function DecodeFrame(layer: Layer, f: seq<byte>, size: nat, a: Artefacts): Result<Decoded> {
    match ParseEthernet(f, 0, size)
    case Err(e) => Err(e)
    case Ok(h) =>
      if layer == Ethernet then Ok(Decoded(Some(h.payload), h.size, a))
      else if h.etherType == ETHERTYPE_IPV4 then DecodeIpv4(layer, f, h.payload, h.size, a)
      else if h.etherType == ETHERTYPE_IPV6 then DecodeIpv6(layer, f, h.payload, h.size, a)
      else Err(Terminate)
  }

  // ----- the parser objects

  class TcpParser {
    var sport: int
    var dport: int
    var seqNumber: int
    var ackNumber: int
    var headerLength: nat
    var payload: nat
    var payloadSize: nat

    constructor ()
    {
      sport, dport, seqNumber, ackNumber, headerLength, payload, payloadSize := 0, 0, 0, 0, 0, 0, 0;
    }

    method ParseHeader(f: seq<byte>, packet: nat, size: nat) returns (failure: Option<Failure>)
      modifies this
      ensures match ParseTcp(f, packet, size)
              case Err(e) => failure == Some(e)
              case Ok(h) =>
                && failure == None && TransportHeader(payload, payloadSize, sport, dport) == h
                && seqNumber == ((f[packet + 4] as int * 256 + f[packet + 5] as int) * 256
                                 + f[packet + 6] as int) * 256 + f[packet + 7] as int
                && ackNumber == ((f[packet + 8] as int * 256 + f[packet + 9] as int) * 256
                                 + f[packet + 10] as int) * 256 + f[packet + 11] as int
                && packet + headerLength == payload
    {
      if size < 20 {
        return Some(InvalidArgument);
      }
      if packet + 13 > |f| {
        return Some(OutsideFrame);
      }
      sport := U16(f, packet);
      dport := U16(f, packet + 2);
      seqNumber := U32(f, packet + 4);
      ackNumber := U32(f, packet + 8);
      headerLength := U8(f, packet + 12) / 16 * 4;
      payload := packet + headerLength;
      payloadSize := U64(size - headerLength);
      return None;
    }

    static method DecodeUntil(layer: Layer, f: seq<byte>, packet: nat, size: nat, a: Artefacts)
      returns (r: Result<Decoded>)
      ensures r == DecodeTcp(layer, f, packet, size, a)
    {
      if layer != Tcp {
        return Err(Terminate);
      }
      var current := new TcpParser();
      var failure := current.ParseHeader(f, packet, size);
      if failure.Some? {
        return Err(failure.value);
      }
      var a' := a.(payloadType := Tcp, srcPort := current.sport, dstPort := current.dport);
      return Ok(Decoded(Some(current.payload), current.payloadSize, a'));
    }
  }

  class UdpParser {
    var sport: int
    var dport: int
    var checksum: int
    var payload: nat
    var payloadSize: nat

    constructor ()
    {
      sport, dport, checksum, payload, payloadSize := 0, 0, 0, 0, 0;
    }

    method ParseHeader(f: seq<byte>, packet: nat, size: nat) returns (failure: Option<Failure>)
      modifies this
      ensures match ParseUdp(f, packet, size)
              case Err(e) => failure == Some(e)
              case Ok(h) =>
                && failure == None && TransportHeader(payload, payloadSize, sport, dport) == h
                && checksum == f[packet + 6] as int * 256 + f[packet + 7] as int
    {
      if size < 8 {
        return Some(InvalidArgument);
      }
      if packet + 8 > |f| {
        return Some(OutsideFrame);
      }
      sport := U16(f, packet);
      dport := U16(f, packet + 2);
      checksum := U16(f, packet + 6);
      if U16(f, packet + 4) > size {
        return Some(InvalidArgument);
      }
      payload := packet + 8;
      payloadSize := size - 8;
      return None;
    }

    static method DecodeUntil(layer: Layer, f: seq<byte>, packet: nat, size: nat, a: Artefacts)
      returns (r: Result<Decoded>)
      ensures r == DecodeUdp(layer, f, packet, size, a)
    {
      if layer != Udp {
        return Err(Terminate);
      }
      var current := new UdpParser();
      var failure := current.ParseHeader(f, packet, size);
      if failure.Some? {
        return Err(failure.value);
      }
      var a' := a.(payloadType := Udp, srcPort := current.sport, dstPort := current.dport);
      return Ok(Decoded(Some(current.payload), current.payloadSize, a'));
    }
  }

  class Ipv4Parser {
    var headerLength: nat
    var proto: int
    var addrSrc: seq<byte>
    var addrDst: seq<byte>
    var payload: nat
    var payloadSize: nat

    constructor ()
    {
      headerLength, proto, addrSrc, addrDst, payload, payloadSize := 20, 0x12, [], [], 0, 0;
    }

    method ParseHeader(f: seq<byte>, packet: nat, size: nat) returns (failure: Option<Failure>)
      modifies this
      ensures match ParseIpv4(f, packet, size)
              case Err(e) => failure == Some(e)
              case Ok(h) =>
                && failure == None && Ipv4Header(payload, payloadSize, proto, addrSrc, addrDst) == h
                && packet + headerLength == payload
    {
      if size < 20 {
        return Some(InvalidArgument);
      }
      if packet + 20 > |f| {
        return Some(OutsideFrame);
      }
      var version := U8(f, packet) / 16;
      if version != 4 {
        return Some(Terminate);
      }
      headerLength := U8(f, packet) % 16 * 4;
      payload := packet + headerLength;
      payloadSize := U64(U16(f, packet + 2) - headerLength);
      proto := U8(f, packet + 9);
      addrSrc := f[packet + 12..packet + 16];
      addrDst := f[packet + 16..packet + 20];
      return None;
    }

    static method DecodeUntil(layer: Layer, f: seq<byte>, packet: nat, size: nat, a: Artefacts)
      returns (r: Result<Decoded>)
      ensures r == DecodeIpv4(layer, f, packet, size, a)
    {
      var current := new Ipv4Parser();
      var failure := current.ParseHeader(f, packet, size);
      if failure.Some? {
        return Err(failure.value);
      }
      var a' := a.(ipType := Ipv4, src := current.addrSrc, dst := current.addrDst);
      if layer == Ipv4 {
        return Ok(Decoded(Some(current.payload), current.payloadSize, a'));
      } else if current.proto == PROTO_TCP {
        r := TcpParser.DecodeUntil(layer, f, current.payload, current.payloadSize, a');
      } else if current.proto == PROTO_UDP {
        r := UdpParser.DecodeUntil(layer, f, current.payload, current.payloadSize, a');
      } else {
        r := Err(Terminate);
      }
    }
  }

  class Ipv6Parser {
    var hopLimit: int
    var nextHdr: int
    var addrSrc: seq<byte>
    var addrDst: seq<byte>
    var payload: Option<nat>
    var payloadSize: nat

    constructor ()
    {
      hopLimit, nextHdr, addrSrc, addrDst, payload, payloadSize := 0, 0, [], [], None, 0;
    }

    /** None for the exception of the table lookup. */
    static method IsExtensionHeader(next: int) returns (r: Option<bool>)
      ensures r == if IsKnown(next) then Some(IsExtension(next)) else None
    {
      r := if IsKnown(next) then Some(IsExtension(next)) else None;
    }

    method ParseHeader(f: seq<byte>, packet: nat, size: nat) returns (failure: Option<Failure>)
      modifies this
      ensures match ParseIpv6(f, packet, size)
              case Err(e) => failure == Some(e)
              case Ok(h) =>
                && failure == None && Ipv6Header(payload, payloadSize, nextHdr, addrSrc, addrDst) == h
                && hopLimit == f[packet + 7] as int
    {
      if size < 40 {
        return Some(InvalidArgument);
      }
      if packet + 40 > |f| {
        return Some(OutsideFrame);
      }
      var version := U8(f, packet) / 16;
      if version != 6 {
        return Some(Terminate);
      }
      payloadSize := U16(f, packet + 4);
      if size < 40 || size - 40 < payloadSize {
        return Some(InvalidArgument);
      }
      hopLimit := U8(f, packet + 7);
      addrSrc := f[packet + 8..packet + 24];
      addrDst := f[packet + 24..packet + 40];
      nextHdr := U8(f, packet + 6);
      var currentHeader := packet + 40;
      ghost var length, first := payloadSize, nextHdr;
      var extension := IsExtensionHeader(nextHdr);
      while extension == Some(true)
        invariant currentHeader + payloadSize == packet + 40 + length
        invariant Walk(f, currentHeader, payloadSize, nextHdr) == Walk(f, packet + 40, length, first)
        invariant extension == if IsKnown(nextHdr) then Some(IsExtension(nextHdr)) else None
        invariant hopLimit == U8(f, packet + 7)
        invariant addrSrc == f[packet + 8..packet + 24] && addrDst == f[packet + 24..packet + 40]
        decreases payloadSize
      {
        if payloadSize < 64 {
          return Some(Terminate);
        }
        if currentHeader + 2 > |f| {
          return Some(OutsideFrame);
        }
        nextHdr := U8(f, currentHeader);
        var offsetToNextHeader := U8(f, currentHeader + 1) * 8 + 8;
        if offsetToNextHeader > payloadSize {
          return Some(Terminate);
        }
        payloadSize := payloadSize - offsetToNextHeader;
        currentHeader := currentHeader + offsetToNextHeader;
        extension := IsExtensionHeader(nextHdr);
      }
      if extension == None {
        return Some(OutOfRange);
      }
      if nextHdr == PROTO_NONE {
        payload := None;
        payloadSize := 0;
        return None;
      }
      payload := Some(currentHeader);
      return None;
    }

    static method DecodeUntil(layer: Layer, f: seq<byte>, packet: nat, size: nat, a: Artefacts)
      returns (r: Result<Decoded>)
      ensures r == DecodeIpv6(layer, f, packet, size, a)
    {
      var current := new Ipv6Parser();
      var failure := current.ParseHeader(f, packet, size);
      if failure.Some? {
        return Err(failure.value);
      }
      var a' := a.(ipType := Ipv6, src := current.addrSrc, dst := current.addrDst);
      if layer == Ipv6 {
        return Ok(Decoded(current.payload, current.payloadSize, a'));
      } else if current.nextHdr == PROTO_TCP {
        r := TcpParser.DecodeUntil(layer, f, current.payload.value, current.payloadSize, a');
      } else if current.nextHdr == PROTO_UDP {
        r := UdpParser.DecodeUntil(layer, f, current.payload.value, current.payloadSize, a');
      } else {
        r := Err(Terminate);
      }
    }
  }

  class EthernetParser {
    var dhostAddr: seq<byte>
    var shostAddr: seq<byte>
    var payload: nat
    var payloadSize: nat
    var etherType: int

    constructor ()
    {
      dhostAddr, shostAddr, payload, payloadSize, etherType := [], [], 0, 0, 0;
    }

    method ParseHeader(f: seq<byte>, packet: nat, size: nat) returns (failure: Option<Failure>)
      modifies this
      ensures match ParseEthernet(f, packet, size)
              case Err(e) => failure == Some(e)
              case Ok(h) =>
                && failure == None && EthernetHeader(payload, payloadSize, etherType) == h
                && dhostAddr == f[packet..packet + 6] && shostAddr == f[packet + 6..packet + 12]
    {
      if size < 14 {
        return Some(InvalidArgument);
      }
      if packet + 14 > |f| {
        return Some(OutsideFrame);
      }
      dhostAddr := f[packet..packet + 6];
      shostAddr := f[packet + 6..packet + 12];
      payload := packet + 14;
      payloadSize := size - 14;
      etherType := U16(f, packet + 12);
      return None;
    }

    static method DecodeUntil(layer: Layer, f: seq<byte>, size: nat, a: Artefacts) returns (r: Result<Decoded>)
      ensures r == DecodeFrame(layer, f, size, a)
    {
      var current := new EthernetParser();
      var failure := current.ParseHeader(f, 0, size);
      if failure.Some? {
        return Err(failure.value);
      }
      if layer == Ethernet {
        return Ok(Decoded(Some(current.payload), current.payloadSize, a));
      } else if current.etherType == ETHERTYPE_IPV4 {
        r := Ipv4Parser.DecodeUntil(layer, f, current.payload, current.payloadSize, a);
      } else if current.etherType == ETHERTYPE_IPV6 {
        r := Ipv6Parser.DecodeUntil(layer, f, current.payload, current.payloadSize, a);
      } else {
        r := Err(Terminate);
      }
    }
  }

  // ----- the outcomes for any bytes, in the numbers of the standards

  /** One header of the IPv6 chain, for each next-header number. The eleven numbers that the table marks
      as extension headers are stepped over, the three others that it knows end the walk, and every
      number that is not in the table ends it with an exception. */
  lemma WalkByNumber(f: seq<byte>, at: nat, size: nat, next: int)
    ensures next == 6 || next == 17 || next == 59 ==> Walk(f, at, size, next) == Ok(Walked(at, size, next))
    ensures next == 0 || next == 43 || next == 44 || next == 50 || next == 51 || next == 60 || next == 135
            || next == 139 || next == 140 || next == 253 || next == 254 ==>
              Walk(f, at, size, next) ==
              if size < 64 then Err(Terminate)
              else if at + 2 > |f| then Err(OutsideFrame)
              else if (f[at + 1] as int + 1) * 8 > size then Err(Terminate)
              else Walk(f, at + (f[at + 1] as int + 1) * 8, size - (f[at + 1] as int + 1) * 8, f[at] as int)
    ensures next != 0 && next != 6 && next != 17 && next != 43 && next != 44 && next != 50 && next != 51 && next != 59
            && next != 60 && next != 135 && next != 139 && next != 140 && next != 253 && next != 254 ==>
              Walk(f, at, size, next) == Err(OutOfRange)
  {
  }

  /** A TCP segment of `size` bytes at offset `at`, as the captured bytes have it. */
  ghost predicate TcpOutcome(f: seq<byte>, at: nat, size: nat, a: Artefacts, r: Result<Decoded>) {
    if size < 20 then r == Err(InvalidArgument)
    else if at + 13 > |f| then r == Err(OutsideFrame)
    else
      && r.Ok? && r.value.payload == Some(at + f[at + 12] as int / 16 * 4)
      && r.value.size == (size - f[at + 12] as int / 16 * 4) % 0x1_0000_0000_0000_0000
      && r.value.artefacts == a.(payloadType := Tcp, srcPort := f[at] as int * 256 + f[at + 1] as int,
                                 dstPort := f[at + 2] as int * 256 + f[at + 3] as int)
  }

  ghost predicate UdpOutcome(f: seq<byte>, at: nat, size: nat, a: Artefacts, r: Result<Decoded>) {
    if size < 8 then r == Err(InvalidArgument)
    else if at + 8 > |f| then r == Err(OutsideFrame)
    else if f[at + 4] as int * 256 + f[at + 5] as int > size then r == Err(InvalidArgument)
    else
      && r.Ok? && r.value.payload == Some(at + 8) && r.value.size == size - 8
      && r.value.artefacts == a.(payloadType := Udp, srcPort := f[at] as int * 256 + f[at + 1] as int,
                                 dstPort := f[at + 2] as int * 256 + f[at + 3] as int)
  }

  /** No other protocol than TCP (6) and UDP (17) is decoded, and each only when it is asked for. */
  ghost predicate TransportOutcome(layer: Layer, f: seq<byte>, at: nat, size: nat, proto: int, a: Artefacts,
                                   r: Result<Decoded>)
  {
    if proto == 6 && layer == Tcp then TcpOutcome(f, at, size, a, r)
    else if proto == 17 && layer == Udp then UdpOutcome(f, at, size, a, r)
    else r == Err(Terminate)
  }

  lemma TransportByNumber(layer: Layer, f: seq<byte>, at: nat, size: nat, proto: int, a: Artefacts)
    ensures TransportOutcome(layer, f, at, size, proto, a, DecodeTransport(layer, f, at, size, proto, a))
  {
  }

  /** What decoding down to any layer makes of the captured bytes f of any frame with EtherType 08 00. */
  lemma Ipv4ByNumber(layer: Layer, f: seq<byte>, size: nat, a: Artefacts)
    requires layer != Ethernet && size >= 14 && |f| >= 14 && f[12] == 0x08 && f[13] == 0x00
    ensures var r := DecodeFrame(layer, f, size, a);
            if size < 34 then r == Err(InvalidArgument)
            else if |f| < 34 then r == Err(OutsideFrame)
            else if f[14] as int / 16 != 4 then r == Err(Terminate)
            else
              var a' := a.(ipType := Ipv4, src := f[26..30], dst := f[30..34]);
              var head := f[14] as int % 16 * 4;
              var length := (f[16] as int * 256 + f[17] as int - head) % 0x1_0000_0000_0000_0000;
              if layer == Ipv4 then r == Ok(Decoded(Some(14 + head), length, a'))
              else TransportOutcome(layer, f, 14 + head, length, f[23] as int, a', r)
  {
    hide DecodeTransport, TransportOutcome;
    if size >= 34 && |f| >= 34 {
      var a' := a.(ipType := Ipv4, src := f[26..30], dst := f[30..34]);
      var head := f[14] as int % 16 * 4;
      TransportByNumber(layer, f, 14 + head, U64(U16(f, 16) - head), f[23] as int, a');
    }
  }

  /** The same with EtherType 86 dd. */
  lemma Ipv6ByNumber(layer: Layer, f: seq<byte>, size: nat, a: Artefacts)
    requires layer != Ethernet && size >= 14 && |f| >= 14 && f[12] == 0x86 && f[13] == 0xdd
    ensures var r := DecodeFrame(layer, f, size, a);
            if size < 54 then r == Err(InvalidArgument)
            else if |f| < 54 then r == Err(OutsideFrame)
            else if f[14] as int / 16 != 6 then r == Err(Terminate)
            else if size - 54 < f[18] as int * 256 + f[19] as int then r == Err(InvalidArgument)
            else
              var a' := a.(ipType := Ipv6, src := f[22..38], dst := f[38..54]);
              match Walk(f, 54, f[18] as int * 256 + f[19] as int, f[20] as int)
              case Err(e) => r == Err(e)
              case Ok(w) =>
                if layer == Ipv6 && w.next == 59 then r == Ok(Decoded(None, 0, a'))
                else if layer == Ipv6 then r == Ok(Decoded(Some(w.at), w.size, a'))
                else TransportOutcome(layer, f, w.at, w.size, w.next, a', r)
  {
    hide DecodeTransport, TransportOutcome, Walk;
    if size >= 54 && |f| >= 54 {
      var a' := a.(ipType := Ipv6, src := f[22..38], dst := f[38..54]);
      match Walk(f, 54, U16(f, 18), U8(f, 20))
      case Err(_) =>
      case Ok(w) =>
        TransportByNumber(layer, f, w.at, w.size, w.next, a');
        NotTransport(layer, f, w.at, w.size, a');
    }
  }

  lemma NotTransport(layer: Layer, f: seq<byte>, at: nat, size: nat, a: Artefacts)
    ensures TransportOutcome(layer, f, at, size, 59, a, Err(Terminate))
  {
  }

  /** Frames that are too short, and frames with any other EtherType. */
  lemma OtherByNumber(layer: Layer, f: seq<byte>, size: nat, a: Artefacts)
    ensures size < 14 ==> DecodeFrame(layer, f, size, a) == Err(InvalidArgument)
    ensures size >= 14 && |f| < 14 ==> DecodeFrame(layer, f, size, a) == Err(OutsideFrame)
    ensures size >= 14 && |f| >= 14 && layer == Ethernet ==>
              DecodeFrame(layer, f, size, a) == Ok(Decoded(Some(14), size - 14, a))
    ensures size >= 14 && |f| >= 14 && layer != Ethernet
            && !(f[12] == 0x08 && f[13] == 0x00) && !(f[12] == 0x86 && f[13] == 0xdd) ==>
              DecodeFrame(layer, f, size, a) == Err(Terminate)
  {
  }

  // ----- what holds for any bytes whatsoever

  /** The extension walk stays inside its packet: it never reads outside, and where it stops, offset
      and remaining size still add up to the end of the packet. */
  lemma {:induction false} WalkStaysInside(f: seq<byte>, at: nat, size: nat, next: int)
    requires at + size <= |f|
    ensures Walk(f, at, size, next) != Err(OutsideFrame)
    ensures Walk(f, at, size, next).Ok? ==>
              var w := Walk(f, at, size, next).value; at <= w.at && w.at + w.size == at + size
    decreases size
  {
    if IsKnown(next) && IsExtension(next) && size >= 64 {
      var length := U8(f, at + 1) * 8 + 8;
      if length <= size {
        WalkStaysInside(f, at + length, size - length, U8(f, at));
      }
    }
  }

  /** No bytes make the IPv6 decoder, or the transport decoder behind it, read outside the frame. */
  lemma Ipv6NeverOutside(layer: Layer, f: seq<byte>, at: nat, size: nat, a: Artefacts)
    requires at + size <= |f|
    ensures DecodeIpv6(layer, f, at, size, a) != Err(OutsideFrame)
    ensures layer == Ipv6 && DecodeIpv6(layer, f, at, size, a).Ok? ==>
              var d := DecodeIpv6(layer, f, at, size, a).value;
              match d.payload
              case None => d.size == 0
              case Some(p) => at + 40 <= p && p + d.size == at + 40 + U16(f, at + 4) <= at + size
  {
    if size >= 40 && size - 40 >= U16(f, at + 4) {
      WalkStaysInside(f, at + 40, U16(f, at + 4), U8(f, at + 6));
    }
  }
}
