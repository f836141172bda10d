/** Well-formed frames, their encoding (RFC 791 section 3.1, RFC 8200 sections 3 and 4, RFC 9293
    section 3.1, RFC 768), and what the decoders make of them. */
module PacketRoundTrip {
  import opened CapturedPackets
  import opened Timing
  import opened Wrappers
  import opened PacketParser

  datatype Transport =
    | TcpSegment(srcPort: int, dstPort: int, numbers: seq<byte>, options: seq<byte>, reserved: int,
                 rest: seq<byte>, data: seq<byte>)
    | UdpDatagram(srcPort: int, dstPort: int, checksum: seq<byte>, data: seq<byte>)

  datatype Extension = Extension(kind: int, body: seq<byte>)

  datatype Network =
    | V4(tos: byte, middle: seq<byte>, checksum: seq<byte>, src: seq<byte>, dst: seq<byte>, options: seq<byte>,
         content: Transport)
    | V6(class_: int, flow: seq<byte>, hopLimit: byte, src: seq<byte>, dst: seq<byte>, extensions: seq<Extension>,
         content: Transport)

  datatype Frame = Frame(dhost: seq<byte>, shost: seq<byte>, network: Network)

  predicate IsPort(p: int) {
    0 <= p < 65536
  }

  predicate TransportOk(t: Transport) {
    && IsPort(t.srcPort) && IsPort(t.dstPort)
    && match t
       case TcpSegment(_, _, numbers, options, reserved, rest, data) =>
         |data| < 65536 && |numbers| == 8 && |options| <= 40 && |options| % 4 == 0 && 0 <= reserved < 16 && |rest| == 7
       case UdpDatagram(_, _, checksum, data) => |checksum| == 2 && 8 + |data| < 65536
  }

  /** The extension headers with the common format, a length in units of eight bytes; this leaves out
      the fragment, authentication and encapsulating security headers. */
  predicate ExtensionOk(e: Extension) {
    && (e.kind == 0x00 || e.kind == 0x2b || e.kind == 0x3c || e.kind == 0x87
        || e.kind == 0x8b || e.kind == 0x8c || e.kind == 0xfd || e.kind == 0xfe)
    && |e.body| % 8 == 6 && |e.body| <= 255 * 8 + 6
  }

  predicate NetworkOk(n: Network) {
    && TransportOk(n.content)
    && match n
       case V4(_, middle, checksum, src, dst, options, content) =>
         && |middle| == 5 && |checksum| == 2 && |src| == |dst| == 4
         && |options| <= 40 && |options| % 4 == 0
         && 20 + |options| + |EncodeTransport(content)| < 65536
       case V6(class_, flow, _, src, dst, extensions, content) =>
         && 0 <= class_ < 16 && |flow| == 3 && |src| == |dst| == 16
         && (forall i :: 0 <= i < |extensions| ==> ExtensionOk(extensions[i]))
         && |EncodeExtensions(extensions, Proto(content))| + |EncodeTransport(content)| < 65536
  }

  predicate FrameOk(f: Frame) {
    |f.dhost| == |f.shost| == 6 && NetworkOk(f.network)
  }

  // ----- encoding

  function Byte(x: int): byte {
    (x % 256) as byte
  }

  function Word(x: int): seq<byte> {
    [Byte(x / 256), Byte(x)]
  }

  function Proto(t: Transport): int {
    if t.TcpSegment? then 6 else 17
  }

  function TransportHead(t: Transport): seq<byte> {
    match t
    case TcpSegment(s, d, numbers, options, reserved, rest, _) =>
      Word(s) + Word(d) + numbers + [Byte((5 + |options| / 4) * 16 + reserved)] + rest + options
    case UdpDatagram(s, d, checksum, data) =>
      Word(s) + Word(d) + Word(8 + |data|) + checksum
  }

  function EncodeTransport(t: Transport): seq<byte> {
    TransportHead(t) + t.data
  }

  function EncodeExtension(e: Extension, next: int): seq<byte> {
    [Byte(next), Byte(|e.body| / 8)] + e.body
  }

  function FirstKind(extensions: seq<Extension>, proto: int): int {
    if extensions == [] then proto else extensions[0].kind
  }

  function EncodeExtensions(extensions: seq<Extension>, proto: int): seq<byte> {
    if extensions == [] then []
    else EncodeExtension(extensions[0], FirstKind(extensions[1..], proto)) + EncodeExtensions(extensions[1..], proto)
  }

  function NetworkHead(n: Network): seq<byte> {
    match n
    case V4(tos, middle, checksum, src, dst, options, content) =>
      [Byte(4 * 16 + 5 + |options| / 4), tos] + Word(20 + |options| + |EncodeTransport(content)|)
      + middle + [Byte(Proto(content))] + checksum + src + dst + options
    case V6(class_, flow, hopLimit, src, dst, extensions, content) =>
      [Byte(6 * 16 + class_)] + flow
      + Word(|EncodeExtensions(extensions, Proto(content))| + |EncodeTransport(content)|)
      + [Byte(FirstKind(extensions, Proto(content))), hopLimit] + src + dst
      + EncodeExtensions(extensions, Proto(content))
  }

  function EtherType(n: Network): seq<byte> {
    if n.V4? then [0x08, 0x00] else [0x86, 0xdd]
  }

  function FrameHead(f: Frame): seq<byte> {
    f.dhost + f.shost + EtherType(f.network)
  }

  function Encode(f: Frame): seq<byte> {
    FrameHead(f) + NetworkHead(f.network) + EncodeTransport(f.network.content)
  }

  // ----- pieces of a frame

  ghost predicate At(f: seq<byte>, at: nat, s: seq<byte>) {
    at + |s| <= |f| && f[at..at + |s|] == s
  }

  lemma AtSplit(f: seq<byte>, at: nat, s: seq<byte>, t: seq<byte>)
    ensures At(f, at, s + t) <==> At(f, at, s) && At(f, at + |s|, t)
  {
    if at + |s| + |t| <= |f| {
      var whole := f[at..at + |s| + |t|];
      assert whole[..|s|] == f[at..at + |s|] && whole[|s|..] == f[at + |s|..at + |s| + |t|];
      assert (s + t)[..|s|] == s && (s + t)[|s|..] == t;
      assert whole == whole[..|s|] + whole[|s|..];
    }
  }

  lemma WordAt(f: seq<byte>, at: nat, x: int)
    requires At(f, at, Word(x)) && 0 <= x < 65536
    ensures U16(f, at) == x
  {
    assert f[at..at + 2][0] == f[at] && f[at..at + 2][1] == f[at + 1];
  }


  lemma ByteAt(f: seq<byte>, at: nat, s: seq<byte>, i: nat)
    requires At(f, at, s) && i < |s|
    ensures f[at + i] == s[i]
  {
    assert f[at..at + |s|][i] == f[at + i];
  }

  // ----- transport

  lemma TcpRoundTrip(f: seq<byte>, at: nat, t: Transport)
    requires TransportOk(t) && t.TcpSegment? && At(f, at, EncodeTransport(t))
    ensures ParseTcp(f, at, |EncodeTransport(t)|) ==
            Ok(TransportHeader(at + |TransportHead(t)|, |t.data|, t.srcPort, t.dstPort))
  {
    var offset := [Byte((5 + |t.options| / 4) * 16 + t.reserved)];
    var p2 := Word(t.srcPort) + Word(t.dstPort);
    var p3 := p2 + t.numbers;
    var p4 := p3 + offset;
    assert |p2| == 4 && |p3| == 12 && |p4| == 13;
    AtSplit(f, at, TransportHead(t), t.data);
    AtSplit(f, at, p4 + t.rest, t.options);
    AtSplit(f, at, p4, t.rest);
    AtSplit(f, at, p3, offset);
    AtSplit(f, at, p2, t.numbers);
    AtSplit(f, at, Word(t.srcPort), Word(t.dstPort));
    WordAt(f, at, t.srcPort);
    WordAt(f, at + 2, t.dstPort);
    ByteAt(f, at + 12, offset, 0);
    TcpFields(f, at, t);
  }

  /** The arithmetic of the data offset. */
  lemma TcpFields(f: seq<byte>, at: nat, t: Transport)
    requires TransportOk(t) && t.TcpSegment? && at + 20 <= |f|
    requires U16(f, at) == t.srcPort && U16(f, at + 2) == t.dstPort
    requires f[at + 12] == Byte((5 + |t.options| / 4) * 16 + t.reserved)
    ensures ParseTcp(f, at, |EncodeTransport(t)|) ==
            Ok(TransportHeader(at + |TransportHead(t)|, |t.data|, t.srcPort, t.dstPort))
  {
    assert |TransportHead(t)| == 20 + |t.options|;
    OffsetNibble(|t.options|, t.reserved);
    SmallU64(|t.data|);
  }

  lemma OffsetNibble(options: nat, reserved: int)
    requires options <= 40 && options % 4 == 0 && 0 <= reserved < 16
    ensures Byte((5 + options / 4) * 16 + reserved) as int / 16 * 4 == 20 + options
  {
  }

  lemma UdpRoundTrip(f: seq<byte>, at: nat, t: Transport)
    requires TransportOk(t) && t.UdpDatagram? && At(f, at, EncodeTransport(t))
    ensures ParseUdp(f, at, |EncodeTransport(t)|) ==
            Ok(TransportHeader(at + |TransportHead(t)|, |t.data|, t.srcPort, t.dstPort))
  {
    var p2 := Word(t.srcPort) + Word(t.dstPort);
    var length := Word(8 + |t.data|);
    AtSplit(f, at, TransportHead(t), t.data);
    AtSplit(f, at, p2 + length, t.checksum);
    AtSplit(f, at, p2, length);
    AtSplit(f, at, Word(t.srcPort), Word(t.dstPort));
    WordAt(f, at, t.srcPort);
    WordAt(f, at + 2, t.dstPort);
    WordAt(f, at + 4, 8 + |t.data|);
  }

  /** The layer that a transport belongs to. */
  function LayerOf(t: Transport): Layer {
    if t.TcpSegment? then Tcp else Udp
  }

  /** What decoding should give for the transport at offset `at`. */
  function TransportResult(layer: Layer, t: Transport, at: nat, a: Artefacts): Result<Decoded> {
    if layer == LayerOf(t)
    then Ok(Decoded(Some(at + |TransportHead(t)|), |t.data|,
                    a.(payloadType := layer, srcPort := t.srcPort, dstPort := t.dstPort)))
    else Err(Terminate)
  }

  lemma TransportRoundTrip(layer: Layer, f: seq<byte>, at: nat, t: Transport, a: Artefacts)
    requires TransportOk(t) && At(f, at, EncodeTransport(t))
    ensures DecodeTransport(layer, f, at, |EncodeTransport(t)|, Proto(t), a) == TransportResult(layer, t, at, a)
  {
    hide ParseTcp, ParseUdp, EncodeTransport, TransportHead, TransportOk, At;
    if t.TcpSegment? {
      TcpRoundTrip(f, at, t);
    } else {
      UdpRoundTrip(f, at, t);
    }
  }

  // ----- IPv4

  lemma Ipv4RoundTrip(f: seq<byte>, at: nat, n: Network, size: nat)
    requires NetworkOk(n) && n.V4? && At(f, at, NetworkHead(n)) && size >= 20
    ensures ParseIpv4(f, at, size) ==
            Ok(Ipv4Header(at + |NetworkHead(n)|, |EncodeTransport(n.content)|, Proto(n.content), n.src, n.dst))
  {
    hide ParseIpv4, EncodeTransport, TransportOk, At, Byte, U16, U8;
    var first := [Byte(4 * 16 + 5 + |n.options| / 4), n.tos];
    var length := 20 + |n.options| + |EncodeTransport(n.content)|;
    var proto := [Byte(Proto(n.content))];
    Ipv4Pieces(f, at, first, Word(length), n.middle, proto, n.checksum, n.src, n.dst, n.options);
    WordAt(f, at + 2, length);
    ByteAt(f, at, first, 0);
    ByteAt(f, at + 9, proto, 0);
    Ipv4Fields(f, at, n, size);
  }

  lemma Ipv4Pieces(f: seq<byte>, at: nat, first: seq<byte>, length: seq<byte>, middle: seq<byte>, proto: seq<byte>,
                   checksum: seq<byte>, src: seq<byte>, dst: seq<byte>, options: seq<byte>)
    requires |first| == |length| == |checksum| == 2 && |middle| == 5 && |proto| == 1 && |src| == |dst| == 4
    requires At(f, at, first + length + middle + proto + checksum + src + dst + options)
    ensures At(f, at, first) && At(f, at + 2, length) && At(f, at + 9, proto)
    ensures at + 20 <= |f| && f[at + 12..at + 16] == src && f[at + 16..at + 20] == dst
  {
    var p4 := first + length;
    var p9 := p4 + middle;
    var p10 := p9 + proto;
    var p12 := p10 + checksum;
    AtSplit(f, at, p12 + src + dst, options);
    AtSplit(f, at, p12 + src, dst);
    AtSplit(f, at, p12, src);
    AtSplit(f, at, p10, checksum);
    AtSplit(f, at, p9, proto);
    AtSplit(f, at, p4, middle);
    AtSplit(f, at, first, length);
  }

  lemma Ipv4HeadSize(n: Network)
    requires NetworkOk(n) && n.V4?
    ensures |NetworkHead(n)| == 20 + |n.options|
  {
  }

  lemma Ipv4Fields(f: seq<byte>, at: nat, n: Network, size: nat)
    requires NetworkOk(n) && n.V4? && size >= 20 && at + 20 <= |f|
    requires f[at] == Byte(4 * 16 + 5 + |n.options| / 4) && f[at + 9] == Byte(Proto(n.content))
    requires U16(f, at + 2) == 20 + |n.options| + |EncodeTransport(n.content)|
    requires f[at + 12..at + 16] == n.src && f[at + 16..at + 20] == n.dst
    ensures ParseIpv4(f, at, size) ==
            Ok(Ipv4Header(at + |NetworkHead(n)|, |EncodeTransport(n.content)|, Proto(n.content), n.src, n.dst))
  {
    hide NetworkHead, EncodeTransport;
    Ipv4HeadSize(n);
    assert U8(f, at) % 16 * 4 == 20 + |n.options|;
    SmallU64(|EncodeTransport(n.content)|);
  }

  // ----- IPv6

  /** The test of the code at every extension header: 64 bytes must be left. It passes everywhere
      exactly when it passes at the last one. */
  predicate RoomAtLast(extensions: seq<Extension>, proto: int, size: nat) {
    extensions == [] || |EncodeExtension(extensions[|extensions| - 1], proto)| + size >= 64
  }

  lemma {:induction false} LastIsShortest(extensions: seq<Extension>, proto: int)
    requires extensions != []
    ensures |EncodeExtensions(extensions, proto)| >= |EncodeExtension(extensions[|extensions| - 1], proto)|
  {
    if |extensions| > 1 {
      LastIsShortest(extensions[1..], proto);
    }
  }

  lemma RoomStep(extensions: seq<Extension>, proto: int, size: nat)
    requires extensions != []
    ensures RoomAtLast(extensions, proto, size) <==>
            |EncodeExtensions(extensions, proto)| + size >= 64 && RoomAtLast(extensions[1..], proto, size)
  {
    LastIsShortest(extensions, proto);
  }

  /** What the walk should give when the transport of `size` bytes begins at `end`. */
  function WalkResult(extensions: seq<Extension>, proto: int, end: nat, size: nat): Result<Walked> {
    if RoomAtLast(extensions, proto, size) then Ok(Walked(end, size, proto)) else Err(Terminate)
  }

  /** The walk over well-formed extension headers ends at the transport header if, and only if, each
      extension header leaves 64 bytes; otherwise the code gives up on a correct packet. */
  lemma {:induction false} WalkRoundTrip(f: seq<byte>, at: nat, extensions: seq<Extension>, proto: int,
                                         end: nat, size: nat, total: nat)
    requires forall i :: 0 <= i < |extensions| ==> ExtensionOk(extensions[i])
    requires proto == 6 || proto == 17
    requires At(f, at, EncodeExtensions(extensions, proto))
    requires end == at + |EncodeExtensions(extensions, proto)| && total == end - at + size
    ensures Walk(f, at, total, FirstKind(extensions, proto)) == WalkResult(extensions, proto, end, size)
    decreases |extensions|
  {
    hide EncodeExtension, At;
    if extensions != [] {
      var head, tail := extensions[0], extensions[1..];
      var next := FirstKind(tail, proto);
      var first, others := EncodeExtension(head, next), EncodeExtensions(tail, proto);
      AtSplit(f, at, first, others);
      assert ExtensionOk(head);
      FirstKindIsByte(tail, proto);
      RoomStep(extensions, proto, size);
      ExtensionStep(f, at, head, next, at + |first|, total - |first|, total);
      if total >= 64 {
        WalkRoundTrip(f, at + |first|, tail, proto, end, size, total - |first|);
      }
    }
  }

  /** One round of the loop. */
  lemma ExtensionStep(f: seq<byte>, at: nat, e: Extension, next: int, after: nat, size: nat, total: nat)
    requires ExtensionOk(e) && 0 <= next < 256 && At(f, at, EncodeExtension(e, next))
    requires after == at + |EncodeExtension(e, next)| && total == after - at + size
    ensures Walk(f, at, total, e.kind) == if total < 64 then Err(Terminate) else Walk(f, after, size, next)
  {
    var bytes := EncodeExtension(e, next);
    ByteAt(f, at, bytes, 0);
    ByteAt(f, at, bytes, 1);
    assert bytes[0] == Byte(next) && bytes[1] == Byte(|e.body| / 8);
    assert U8(f, at + 1) * 8 + 8 == |bytes|;
  }

  lemma Ipv6Head(n: Network)
    requires NetworkOk(n) && n.V6?
    ensures var extra := EncodeExtensions(n.extensions, Proto(n.content));
            && NetworkHead(n) == [Byte(6 * 16 + n.class_)] + n.flow + Word(|extra| + |EncodeTransport(n.content)|)
                                 + [Byte(FirstKind(n.extensions, Proto(n.content))), n.hopLimit] + n.src + n.dst + extra
            && |NetworkHead(n)| == 40 + |extra|
    ensures 0 <= n.class_ < 16 && |n.flow| == 3 && |n.src| == |n.dst| == 16
    ensures forall i :: 0 <= i < |n.extensions| ==> ExtensionOk(n.extensions[i])
    ensures |EncodeExtensions(n.extensions, Proto(n.content))| + |EncodeTransport(n.content)| < 65536
  {
    hide EncodeExtensions, EncodeTransport, TransportOk, ExtensionOk, Byte, FirstKind;
  }

  lemma Ipv6RoundTrip(f: seq<byte>, at: nat, n: Network, size: nat)
    requires NetworkOk(n) && n.V6? && At(f, at, NetworkHead(n))
    requires size >= |NetworkHead(n)| + |EncodeTransport(n.content)|
    ensures ParseIpv6(f, at, size) ==
            if RoomAtLast(n.extensions, Proto(n.content), |EncodeTransport(n.content)|)
            then Ok(Ipv6Header(Some(at + |NetworkHead(n)|), |EncodeTransport(n.content)|, Proto(n.content),
                               n.src, n.dst))
            else Err(Terminate)
  {
    hide Walk, ParseIpv6, NetworkHead, NetworkOk, EncodeExtensions, EncodeTransport, ExtensionOk, Byte, U8, U16;
    hide FirstKind, RoomAtLast, At;
    Ipv6Head(n);
    var proto, extra := Proto(n.content), EncodeExtensions(n.extensions, Proto(n.content));
    var length := |extra| + |EncodeTransport(n.content)|;
    var first := [Byte(6 * 16 + n.class_)];
    var kind := FirstKind(n.extensions, proto);
    var next := [Byte(kind), n.hopLimit];
    Ipv6Pieces(f, at, first, n.flow, Word(length), next, n.src, n.dst, extra);
    ByteAt(f, at, first, 0);
    WordAt(f, at + 4, length);
    ByteAt(f, at + 6, next, 0);
    WalkRoundTrip(f, at + 40, n.extensions, proto, at + 40 + |extra|, |EncodeTransport(n.content)|, length);
    FirstKindIsByte(n.extensions, proto);
    Ipv6Fields(f, at, n, size, length, kind, Walk(f, at + 40, length, kind));
  }

  lemma Ipv6Pieces(f: seq<byte>, at: nat, first: seq<byte>, flow: seq<byte>, length: seq<byte>, next: seq<byte>,
                   src: seq<byte>, dst: seq<byte>, extra: seq<byte>)
    requires |first| == 1 && |flow| == 3 && |length| == |next| == 2 && |src| == |dst| == 16
    requires At(f, at, first + flow + length + next + src + dst + extra)
    ensures At(f, at, first) && At(f, at + 4, length) && At(f, at + 6, next) && At(f, at + 40, extra)
    ensures at + 40 <= |f| && f[at + 8..at + 24] == src && f[at + 24..at + 40] == dst
  {
    var p4 := first + flow;
    var p6 := p4 + length;
    var p8 := p6 + next;
    AtSplit(f, at, p8 + src + dst, extra);
    AtSplit(f, at, p8 + src, dst);
    AtSplit(f, at, p8, src);
    AtSplit(f, at, p6, next);
    AtSplit(f, at, p4, length);
    AtSplit(f, at, first, flow);
  }

  lemma Ipv6Fields(f: seq<byte>, at: nat, n: Network, size: nat, length: nat, kind: int, walked: Result<Walked>)
    requires n.V6? && 0 <= n.class_ < 16 && 0 <= kind < 256 && at + 40 <= |f| && size >= 40 + length
    requires f[at] == Byte(6 * 16 + n.class_) && f[at + 6] == Byte(kind)
    requires f[at + 8..at + 24] == n.src && f[at + 24..at + 40] == n.dst
    requires U16(f, at + 4) == length && Walk(f, at + 40, length, kind) == walked
    requires walked.Ok? ==> walked.value.next != 59
    ensures ParseIpv6(f, at, size) ==
            match walked
            case Ok(w) => Ok(Ipv6Header(Some(w.at), w.size, w.next, n.src, n.dst))
            case Err(e) => Err(e)
  {
    hide Walk;
  }

  lemma FirstKindIsByte(extensions: seq<Extension>, proto: int)
    requires forall i :: 0 <= i < |extensions| ==> ExtensionOk(extensions[i])
    requires 0 <= proto < 256
    ensures 0 <= FirstKind(extensions, proto) < 256
  {
    if extensions != [] {
      assert ExtensionOk(extensions[0]);
    }
  }

  // ----- whole frames

  /** The IPv6 decoder accepts the extension headers; there is no such condition for IPv4. */
  predicate Accepted(n: Network) {
    n.V6? ==> RoomAtLast(n.extensions, Proto(n.content), |EncodeTransport(n.content)|)
  }

  function NetworkLayer(n: Network): Layer {
    if n.V4? then Ipv4 else Ipv6
  }

  /** What the network decoder should return for a packet that begins at offset `at`. */
  function NetworkResult(layer: Layer, n: Network, at: nat, a: Artefacts): Result<Decoded> {
    var a' := a.(ipType := NetworkLayer(n), src := n.src, dst := n.dst);
    var content := at + |NetworkHead(n)|;
    if !Accepted(n) then Err(Terminate)
    else if layer == NetworkLayer(n) then Ok(Decoded(Some(content), |EncodeTransport(n.content)|, a'))
    else TransportResult(layer, n.content, content, a')
  }

  /** What decodeUntil should return for a frame of `size` bytes on the wire, padding included. */
  function Expected(layer: Layer, f: Frame, size: nat, a: Artefacts): Result<Decoded>
    requires size >= 14
  {
    if layer == Ethernet then Ok(Decoded(Some(14), size - 14, a))
    else NetworkResult(layer, f.network, 14, a)
  }

  lemma NetworkHeadSize(n: Network)
    requires NetworkOk(n)
    ensures |NetworkHead(n)| >= 20
  {
  }

  lemma NetworkRoundTrip(layer: Layer, f: seq<byte>, at: nat, n: Network, size: nat, a: Artefacts)
    requires NetworkOk(n) && size >= |NetworkHead(n)| + |EncodeTransport(n.content)|
    requires At(f, at, NetworkHead(n)) && At(f, at + |NetworkHead(n)|, EncodeTransport(n.content))
    ensures (if n.V4? then DecodeIpv4(layer, f, at, size, a) else DecodeIpv6(layer, f, at, size, a)) ==
            NetworkResult(layer, n, at, a)
  {
    hide Walk, ParseIpv4, ParseIpv6, NetworkHead, EncodeExtensions, EncodeTransport, TransportOk, ExtensionOk;
    hide DecodeTransport, TransportResult, RoomAtLast, At;
    NetworkHeadSize(n);
    var a' := a.(ipType := NetworkLayer(n), src := n.src, dst := n.dst);
    TransportRoundTrip(layer, f, at + |NetworkHead(n)|, n.content, a');
    if n.V4? {
      Ipv4RoundTrip(f, at, n, size);
    } else {
      Ipv6RoundTrip(f, at, n, size);
    }
  }

  lemma FramePieces(f: Frame, padding: seq<byte>)
    requires FrameOk(f)
    ensures var bytes := Encode(f) + padding;
            && |FrameHead(f)| == 14 && |bytes| >= 14
            && At(bytes, 12, EtherType(f.network))
            && At(bytes, 14, NetworkHead(f.network))
            && At(bytes, 14 + |NetworkHead(f.network)|, EncodeTransport(f.network.content))
  {
    var bytes := Encode(f) + padding;
    assert At(bytes, 0, bytes) && |FrameHead(f)| == 14;
    AtSplit(bytes, 0, Encode(f), padding);
    AtSplit(bytes, 0, FrameHead(f) + NetworkHead(f.network), EncodeTransport(f.network.content));
    AtSplit(bytes, 0, FrameHead(f), NetworkHead(f.network));
    AtSplit(bytes, 0, f.dhost + f.shost, EtherType(f.network));
  }

  /** For every well-formed frame, with any padding behind it, captured or not, and for every layer: the
      decoders return exactly the expected payload position, size, ports and addresses, and they fail
      exactly where `Expected` says so. */
  lemma RoundTrip(layer: Layer, f: Frame, padding: seq<byte>, size: nat, a: Artefacts)
    requires FrameOk(f) && size >= |Encode(f)|
    ensures size >= 14 && DecodeFrame(layer, Encode(f) + padding, size, a) == Expected(layer, f, size, a)
  {
    hide NetworkHead, EncodeTransport, EncodeExtensions, TransportOk, ExtensionOk, DecodeIpv4, DecodeIpv6;
    hide NetworkResult, Byte, Word;
    var bytes := Encode(f) + padding;
    FramePieces(f, padding);
    ByteAt(bytes, 12, EtherType(f.network), 0);
    ByteAt(bytes, 12, EtherType(f.network), 1);
    NetworkRoundTrip(layer, bytes, 14, f.network, size - 14, a);
  }

  /** A client that sends a well-formed frame through the decoders gets its content back. */
  method DecodeEncoded(layer: Layer, f: Frame, padding: seq<byte>, a: Artefacts) returns (r: Result<Decoded>)
    requires FrameOk(f)
    ensures |Encode(f)| >= 14 && r == Expected(layer, f, |Encode(f) + padding|, a)
    ensures layer == LayerOf(f.network.content) && Accepted(f.network) ==>
              && r.Ok? && r.value.payload.Some? && r.value.payload.value + r.value.size <= |Encode(f)|
              && Encode(f)[r.value.payload.value..r.value.payload.value + r.value.size] == f.network.content.data
  {
    var bytes := Encode(f) + padding;
    RoundTrip(layer, f, padding, |bytes|, a);
    if layer == LayerOf(f.network.content) && Accepted(f.network) {
      DecodedBytes(f, padding, |bytes|, a);
    }
    r := EthernetParser.DecodeUntil(layer, bytes, |bytes|, a);
  }

  /** The bytes at the returned position are the transport data, whatever padding follows. */
  lemma DecodedBytes(f: Frame, padding: seq<byte>, size: nat, a: Artefacts)
    requires FrameOk(f) && Accepted(f.network) && size >= |Encode(f)|
    ensures var r := DecodeFrame(LayerOf(f.network.content), Encode(f) + padding, size, a);
            && r.Ok? && r.value.payload.Some?
            && r.value.payload.value + r.value.size <= |Encode(f)|
            && Encode(f)[r.value.payload.value..r.value.payload.value + r.value.size] == f.network.content.data
            && r.value.artefacts.srcPort == f.network.content.srcPort
            && r.value.artefacts.dstPort == f.network.content.dstPort
            && r.value.artefacts.src == f.network.src && r.value.artefacts.dst == f.network.dst
  {
    hide NetworkHead, DecodeFrame, NetworkOk, TransportOk, TransportHead;
    var t := f.network.content;
    RoundTrip(LayerOf(t), f, padding, size, a);
    assert Encode(f) + [] == Encode(f);
    FramePieces(f, []);
    AtSplit(Encode(f), 14 + |NetworkHead(f.network)|, TransportHead(t), t.data);
  }

  /** Well-formed is not enough for IPv6: a hop-by-hop header in front of a short segment is refused. */
  lemma ShortPacketRefused(a: Artefacts) returns (f: Frame)
    ensures FrameOk(f) && f.network.V6? && DecodeFrame(Tcp, Encode(f), |Encode(f)|, a) == Err(Terminate)
  {
    var segment := TcpSegment(443, 50000, Zeros(8), [], 0, Zeros(7), [104, 105]);
    var options := Extension(0x00, Zeros(6));
    f := Frame(Zeros(6), Zeros(6), V6(0, Zeros(3), 64, Zeros(16), Zeros(16), [options], segment));
    assert ExtensionOk(options) && |EncodeTransport(segment)| == 22;
    assert |EncodeExtension(options, 6)| == 8;
    assert EncodeExtensions([options], 6) == EncodeExtension(options, 6);
    RoundTrip(Tcp, f, [], |Encode(f)|, a);
    assert Encode(f) + [] == Encode(f);
  }

  function Zeros(n: nat): (s: seq<byte>)
    ensures |s| == n
  {
    seq(n, _ => 0)
  }
}
