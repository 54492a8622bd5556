/**
 The PDU codec of pdu_fbs.c: how pdu_write emits the tables of a PDU and how pdu_read decodes
 them into the caller's NCodecPdu, which it does not clear first.

 An NCodecPdu in memory (`Held`) is more than what its caller sees (`NCodecPdu`): the address and
 the adapter of an IP message lie in parts of the transport union that reading another kind of
 PDU leaves alone, and come to light again at the next IP message without them.
 */
module Pdu {
  import opened Bytes
  import opened Wire
  import opened Streams
  import opened Codec

  type uint16 = x: int | 0 <= x < 0x1_0000
  type uint32 = x: int | 0 <= x < WORD
  type uint64 = x: int | 0 <= x < WORD * WORD
  type V6Addr = a: seq<uint16> | |a| == 8 witness [0, 0, 0, 0, 0, 0, 0, 0]

  //////////////////////////////////////////////////////////////////////////////
  // NCodecPdu as its caller sees it, each tagged union as one value
  //////////////////////////////////////////////////////////////////////////////

  datatype CanMetadata = CanMetadata(frameFormat: byte, frameType: byte, interfaceId: uint32, networkId: uint32)

  datatype IpAddr =
    | NoAddr
    | V4(src4: uint32, dst4: uint32)
    | V6(src6: V6Addr, dst6: V6Addr)

  datatype SoAd =
    | NoSoAd
    | DoIp(protocolVersion: byte, payloadType: uint16)
    | SomeIp(messageId: uint32, length: uint32, requestId: uint32,
             someIpVersion: byte, interfaceVersion: byte, messageType: byte, returnCode: byte)

  datatype Ethernet = Ethernet(dstMac: uint64, srcMac: uint64, ethertype: uint16, pcp: byte, dei: byte, vid: uint16)

  datatype IpMetadata = IpMetadata(
    eth: Ethernet, protocol: byte, srcPort: uint16, dstPort: uint16, addr: IpAddr, soAd: SoAd)

  datatype StructMetadata = StructMetadata(
    typeName: Option<seq<byte>>, varName: Option<seq<byte>>, encoding: Option<seq<byte>>,
    aligned: uint16, packed: bool,
    arch: Option<seq<byte>>, os: Option<seq<byte>>, abi: Option<seq<byte>>)

  datatype Transport =
    | NoTransport
    | CanTransport(can: CanMetadata)
    | IpTransport(ip: IpMetadata)
    | StructTransport(object_: StructMetadata)

  datatype NCodecPdu = NCodecPdu(
    id: uint32, payload: Option<seq<byte>>, payloadLen: nat, swcId: uint32, ecuId: uint32, transport: Transport)

  //////////////////////////////////////////////////////////////////////////////
  // The tables of a message; a union member is present or absent
  //////////////////////////////////////////////////////////////////////////////

  datatype V4Table = V4Table(src: uint32, dst: uint32)
  datatype V6Table = V6Table(src: V6Addr, dst: V6Addr)
  datatype AddrTable = AddrV4(v4: V4Table) | AddrV6(v6: V6Table)

  datatype DoIpTable = DoIpTable(protocolVersion: byte, payloadType: uint16)
  datatype SomeIpTable = SomeIpTable(
    messageId: uint32, length: uint32, requestId: uint32,
    protocolVersion: byte, interfaceVersion: byte, messageType: byte, returnCode: byte)
  datatype AdapterTable = AdapterDoIp(doIp: DoIpTable) | AdapterSomeIp(someIp: SomeIpTable)

  datatype CanTable = CanTable(messageFormat: byte, frameType: byte, interfaceId: uint32, networkId: uint32)

  datatype IpTable = IpTable(
    ethDstMac: uint64, ethSrcMac: uint64, ethEthertype: uint16, ethTciPcp: byte, ethTciDei: byte, ethTciVid: uint16,
    addr: Option<AddrTable>, ipProtocol: byte, ipSrcPort: uint16, ipDstPort: uint16, adapter: Option<AdapterTable>)

  datatype StructTable = StructTable(
    typeName: Option<seq<byte>>, varName: Option<seq<byte>>, encoding: Option<seq<byte>>,
    attributeAligned: uint16, attributePacked: bool,
    platformArch: Option<seq<byte>>, platformOs: Option<seq<byte>>, platformAbi: Option<seq<byte>>)

  datatype TransportTable = TransportCan(can: CanTable) | TransportIp(ip: IpTable) | TransportStruct(md: StructTable)

  datatype PduTable = PduTable(
    id: uint32, payload: seq<byte>, swcId: uint32, ecuId: uint32, transport: Option<TransportTable>)

  //////////////////////////////////////////////////////////////////////////////
  // pdu_write
  //////////////////////////////////////////////////////////////////////////////

  /** The sender identification of a codec. */
  datatype SenderIds = SenderIds(swcId: byte, ecuId: byte)

  function EmitCan(can: CanMetadata): CanTable
  {
    CanTable(can.frameFormat, can.frameType, can.interfaceId, can.networkId)
  }

  function EmitIp(ip: IpMetadata): IpTable
  {
    // At most one of each pair is set.
    var v4 := if ip.addr.V4? then Some(V4Table(ip.addr.src4, ip.addr.dst4)) else None;
    var v6 := if ip.addr.V6? then Some(V6Table(ip.addr.src6, ip.addr.dst6)) else None;
    var doIp := if ip.soAd.DoIp? then Some(DoIpTable(ip.soAd.protocolVersion, ip.soAd.payloadType)) else None;
    var someIp :=
      if ip.soAd.SomeIp? then
        Some(SomeIpTable(ip.soAd.messageId, ip.soAd.length, ip.soAd.requestId, ip.soAd.someIpVersion,
                         ip.soAd.interfaceVersion, ip.soAd.messageType, ip.soAd.returnCode))
      else None;
    IpTable(
      ip.eth.dstMac, ip.eth.srcMac, ip.eth.ethertype, ip.eth.pcp, ip.eth.dei, ip.eth.vid,
      if v4.Some? then Some(AddrV4(v4.value)) else if v6.Some? then Some(AddrV6(v6.value)) else None,
      ip.protocol, ip.srcPort, ip.dstPort,
      if doIp.Some? then Some(AdapterDoIp(doIp.value))
      else if someIp.Some? then Some(AdapterSomeIp(someIp.value))
      else None)
  }

  /** A string that is NULL is not added and reads back as NULL. */
  function EmitStruct(s: StructMetadata): StructTable
  {
    StructTable(s.typeName, s.varName, s.encoding, s.aligned, s.packed, s.arch, s.os, s.abi)
  }

  function Emit(ids: SenderIds, p: NCodecPdu): PduTable
  {
    PduTable(
      p.id,
      if p.payload.Some? then p.payload.value else [],
      if p.swcId != 0 then p.swcId else ids.swcId,
      if p.ecuId != 0 then p.ecuId else ids.ecuId,
      match p.transport
      case NoTransport => None
      case CanTransport(can) => Some(TransportCan(EmitCan(can)))
      case IpTransport(ip) => Some(TransportIp(EmitIp(ip)))
      case StructTransport(s) => Some(TransportStruct(EmitStruct(s))))
  }

  /** What each field of the emitted tables is. */
  lemma EmitFields(ids: SenderIds, p: NCodecPdu)
    ensures
      var t := Emit(ids, p);
      && t.id == p.id && t.payload == (if p.payload.Some? then p.payload.value else [])
      && t.swcId == (if p.swcId == 0 then ids.swcId else p.swcId)
      && t.ecuId == (if p.ecuId == 0 then ids.ecuId else p.ecuId)
      && (p.transport.NoTransport? <==> t.transport.None?)
      && (p.transport.CanTransport? ==>
            && t.transport.Some? && t.transport.value.TransportCan?
            && var m, c := p.transport.can, t.transport.value.can;
               && c.messageFormat == m.frameFormat && c.frameType == m.frameType
               && c.interfaceId == m.interfaceId && c.networkId == m.networkId)
      && (p.transport.IpTransport? ==> t.transport.Some? && t.transport.value.TransportIp?)
      && (p.transport.StructTransport? ==>
            && t.transport.Some? && t.transport.value.TransportStruct?
            && var m, s := p.transport.object_, t.transport.value.md;
               && s.typeName == m.typeName && s.varName == m.varName && s.encoding == m.encoding
               && s.attributeAligned == m.aligned && s.attributePacked == m.packed
               && s.platformArch == m.arch && s.platformOs == m.os && s.platformAbi == m.abi)
  {
  }

  lemma EmitIpFields(ids: SenderIds, p: NCodecPdu)
    requires p.transport.IpTransport?
    ensures Emit(ids, p).transport.Some? && Emit(ids, p).transport.value.TransportIp?
    ensures
      var m, t := p.transport.ip, Emit(ids, p).transport.value.ip;
      && t.ethDstMac == m.eth.dstMac && t.ethSrcMac == m.eth.srcMac && t.ethEthertype == m.eth.ethertype
      && t.ethTciPcp == m.eth.pcp && t.ethTciDei == m.eth.dei && t.ethTciVid == m.eth.vid
      && t.ipProtocol == m.protocol && t.ipSrcPort == m.srcPort && t.ipDstPort == m.dstPort
      && (m.addr.NoAddr? <==> t.addr.None?)
      && (m.addr.V4? ==>
            && t.addr.Some? && t.addr.value.AddrV4?
            && t.addr.value.v4.src == m.addr.src4 && t.addr.value.v4.dst == m.addr.dst4)
      && (m.addr.V6? ==>
            && t.addr.Some? && t.addr.value.AddrV6?
            && t.addr.value.v6.src == m.addr.src6 && t.addr.value.v6.dst == m.addr.dst6)
      && (m.soAd.NoSoAd? <==> t.adapter.None?)
      && (m.soAd.DoIp? ==>
            && t.adapter.Some? && t.adapter.value.AdapterDoIp?
            && t.adapter.value.doIp.protocolVersion == m.soAd.protocolVersion
            && t.adapter.value.doIp.payloadType == m.soAd.payloadType)
      && (m.soAd.SomeIp? ==>
            && t.adapter.Some? && t.adapter.value.AdapterSomeIp?
            && var s := t.adapter.value.someIp;
               && s.messageId == m.soAd.messageId && s.length == m.soAd.length && s.requestId == m.soAd.requestId
               && s.protocolVersion == m.soAd.someIpVersion && s.interfaceVersion == m.soAd.interfaceVersion
               && s.messageType == m.soAd.messageType && s.returnCode == m.soAd.returnCode)
  {
  }

  /** The payload pointer and length agree. */
  predicate WellFormed(p: NCodecPdu)
  {
    p.payloadLen == if p.payload.Some? then |p.payload.value| else 0
  }

  method PduWrite(nc: Codec<PduTable>, ids: SenderIds, p: NCodecPdu) returns (n: nat)
    requires nc.Valid() && ids.swcId == nc.ownId && WellFormed(p)
    modifies nc`streamInitialized, nc`builder
    ensures nc.Valid() && nc.streamInitialized
    ensures nc.builder == old(nc.builder) + [Emit(ids, p)]
    ensures n == p.payloadLen
  {
    nc.Write(Emit(ids, p));
    n := p.payloadLen;
  }

  //////////////////////////////////////////////////////////////////////////////
  // pdu_read
  //////////////////////////////////////////////////////////////////////////////

  /** The transport type and the member it selects, without the nested unions of an IP message. */
  datatype Selected =
    | NoneSelected
    | CanSelected(can: CanMetadata)
    | IpSelected(eth: Ethernet, protocol: byte, srcPort: uint16, dstPort: uint16)
    | StructSelected(object_: StructMetadata)

  /** An NCodecPdu in memory. The tags and bytes of address and adapter are there in any case. */
  datatype Held = Held(
    id: uint32, payload: Option<seq<byte>>, payloadLen: nat, swcId: uint32, ecuId: uint32,
    selected: Selected, addr: IpAddr, soAd: SoAd)

  const ZEROED := Held(0, None, 0, 0, 0, NoneSelected, NoAddr, NoSoAd)

  /** What the caller sees of it. */
  function Seen(h: Held): NCodecPdu
  {
    NCodecPdu(
      h.id, h.payload, h.payloadLen, h.swcId, h.ecuId,
      match h.selected
      case NoneSelected => NoTransport
      case CanSelected(can) => CanTransport(can)
      case IpSelected(eth, protocol, srcPort, dstPort) =>
        IpTransport(IpMetadata(eth, protocol, srcPort, dstPort, h.addr, h.soAd))
      case StructSelected(o) => StructTransport(o))
  }

  /** The three pointers to the platform strings of a struct message, as words of memory. */
  type PointerWords = w: seq<uint16> | |w| == 12 witness seq(12, _ => 0)

  /** A PDU in the stream, and where its platform strings lie. */
  datatype Arrival = Arrival(t: PduTable, words: PointerWords)

  /** The platform pointers of a struct message lie over the first 24 bytes of the address. */
  function Overlaid(w: PointerWords, a: IpAddr): IpAddr
  {
    match a
    case NoAddr => NoAddr
    case V4(_, _) => V4(w[0] as nat + 0x1_0000 * w[1] as nat, w[2] as nat + 0x1_0000 * w[3] as nat)
    case V6(_, dst) => V6(w[..8], w[8..] + dst[4..])
  }

  /** The NCodecPdu a caller passes to pdu_read. */
  class PduBuffer {
    var held: Held

    constructor ()
      ensures held == Held(0, None, 0, 0, 0, NoneSelected, NoAddr, NoSoAd)
    {
      held := ZEROED;
    }

    /** Sixteen bytes at the start of the union. */
    method DecodeCan(t: CanTable)
      modifies this
      ensures Seen(held) == Seen(old(held)).(transport := CanTransport(MetadataOfCan(t)))
      ensures held.addr == old(held).addr && held.soAd == old(held).soAd
    {
      held := held.(selected := CanSelected(CanMetadata(t.messageFormat, t.frameType, t.interfaceId, t.networkId)));
    }

    /** Every scalar of an IP message, and of the nested unions what the message carries. */
    method DecodeIp(t: IpTable)
      modifies this
      ensures held == IpInto(old(held), t)
    {
      var eth := Ethernet(t.ethDstMac, t.ethSrcMac, t.ethEthertype, t.ethTciPcp, t.ethTciDei, t.ethTciVid);
      held := held.(selected := IpSelected(eth, t.ipProtocol, t.ipSrcPort, t.ipDstPort));
      if t.addr.Some? {
        match t.addr.value {
          case AddrV4(a) => held := held.(addr := V4(a.src, a.dst));
          case AddrV6(a) => held := held.(addr := V6(a.src, a.dst));
        }
      }
      if t.adapter.Some? {
        match t.adapter.value {
          case AdapterDoIp(a) => held := held.(soAd := DoIp(a.protocolVersion, a.payloadType));
          case AdapterSomeIp(a) =>
            held := held.(soAd := SomeIp(a.messageId, a.length, a.requestId, a.protocolVersion,
                                         a.interfaceVersion, a.messageType, a.returnCode));
        }
      }
    }

    method DecodeStruct(t: StructTable, words: PointerWords)
      modifies this
      ensures Seen(held) == Seen(old(held)).(transport := StructTransport(MetadataOfStruct(t)))
      ensures held.addr == Overlaid(words, old(held).addr) && held.soAd == old(held).soAd
    {
      held := held.(
        selected := StructSelected(StructMetadata(
          t.typeName, t.varName, t.encoding, t.attributeAligned, t.attributePacked,
          t.platformArch, t.platformOs, t.platformAbi)),
        addr := Overlaid(words, held.addr));
    }

    /** The head of the queue is written over the buffer, else -ENOMSG and an empty payload. */
    method PduRead(nc: Codec<PduTable>, words: PointerWords) returns (r: int)
      requires nc.Valid() && nc.WellFramed()
      modifies this, nc`msgPtr, nc`msgLen, nc`vector, nc`vectorIdx, nc`vectorLen, nc.stream`pos, nc.stream`len
      ensures nc.Valid() && nc.WellFramed()
      ensures
        var q := old(nc.Pending());
        if q == [] then
          r == -42 && nc.Pending() == [] && held == old(held).(payload := None, payloadLen := 0)
        else
          && r == held.payloadLen == |q[0].payload| && nc.Pending() == q[1..]
          && held == ReadInto(old(held), Arrival(q[0], words))
          && held.id == q[0].id && held.payload == Some(q[0].payload)
          && held.swcId == q[0].swcId && held.ecuId == q[0].ecuId
          && (q[0].transport.None? ==>
                held.selected == old(held).selected && held.addr == old(held).addr && held.soAd == old(held).soAd)
    {
      hide ValidCursor, Queue, Framed, Offers, BehindFirst, Resting;
      // Whoever ignores the result at least sees no payload.
      held := held.(payloadLen := 0, payload := None);
      var found := nc.Read();
      if found.None? { return -ENOMSG; }
      var t := found.value;
      held := held.(
        id := t.id, payload := Some(t.payload), payloadLen := |t.payload|, swcId := t.swcId, ecuId := t.ecuId);
      if t.transport.Some? {
        match t.transport.value {
          case TransportCan(can) => DecodeCan(can);
          case TransportIp(ip) => DecodeIp(ip);
          case TransportStruct(md) => DecodeStruct(md, words);
        }
      }
      return held.payloadLen;
    }
  }

  function MetadataOfCan(t: CanTable): CanMetadata
  {
    CanMetadata(t.messageFormat, t.frameType, t.interfaceId, t.networkId)
  }

  function MetadataOfStruct(t: StructTable): StructMetadata
  {
    StructMetadata(t.typeName, t.varName, t.encoding, t.attributeAligned, t.attributePacked,
                   t.platformArch, t.platformOs, t.platformAbi)
  }

  function AddrOf(a: AddrTable): IpAddr
  {
    match a
    case AddrV4(v) => V4(v.src, v.dst)
    case AddrV6(v) => V6(v.src, v.dst)
  }

  function SoAdOf(a: AdapterTable): SoAd
  {
    match a
    case AdapterDoIp(d) => DoIp(d.protocolVersion, d.payloadType)
    case AdapterSomeIp(s) =>
      SomeIp(s.messageId, s.length, s.requestId, s.protocolVersion, s.interfaceVersion, s.messageType, s.returnCode)
  }

  function IpInto(h: Held, t: IpTable): Held
  {
    h.(selected := IpSelected(
         Ethernet(t.ethDstMac, t.ethSrcMac, t.ethEthertype, t.ethTciPcp, t.ethTciDei, t.ethTciVid),
         t.ipProtocol, t.ipSrcPort, t.ipDstPort),
       addr := if t.addr.Some? then AddrOf(t.addr.value) else h.addr,
       soAd := if t.adapter.Some? then SoAdOf(t.adapter.value) else h.soAd)
  }

  /** What one read leaves in a buffer. */
  function ReadInto(before: Held, a: Arrival): Held
  {
    var t := a.t;
    var h := before.(
      id := t.id, payload := Some(t.payload), payloadLen := |t.payload|, swcId := t.swcId, ecuId := t.ecuId);
    if t.transport.None? then h
    else
      match t.transport.value
      case TransportCan(c) => h.(selected := CanSelected(MetadataOfCan(c)))
      case TransportIp(ip) => IpInto(h, ip)
      case TransportStruct(s) =>
        h.(selected := StructSelected(MetadataOfStruct(s)), addr := Overlaid(a.words, h.addr))
  }

  /** What a sequence of reads leaves in it. */
  function ReadRun(before: Held, arrivals: seq<Arrival>): Held
  {
    if arrivals == [] then before
    else ReadInto(ReadRun(before, arrivals[..|arrivals| - 1]), arrivals[|arrivals| - 1])
  }

  //////////////////////////////////////////////////////////////////////////////
  // Round trip
  //////////////////////////////////////////////////////////////////////////////

  /** The PDU with the sender's ids filled in; a NULL payload becomes an empty one. */
  function Defaulted(ids: SenderIds, p: NCodecPdu): NCodecPdu
  {
    p.(payload := Some(if p.payload.Some? then p.payload.value else []),
       swcId := if p.swcId == 0 then ids.swcId else p.swcId,
       ecuId := if p.ecuId == 0 then ids.ecuId else p.ecuId)
  }

  /** Read into a zeroed NCodecPdu, every PDU comes back, whatever its transport. */
  lemma RoundTrip(ids: SenderIds, p: NCodecPdu, words: PointerWords)
    requires WellFormed(p)
    ensures Seen(ReadInto(ZEROED, Arrival(Emit(ids, p), words))) == Defaulted(ids, p)
  {
  }

  /** Nothing is held in the parts that a PDU with transport `sent` does not carry. */
  predicate Vacant(sent: Transport, h: Held)
  {
    match sent
    case NoTransport => h.selected == NoneSelected
    case IpTransport(ip) => (ip.addr == NoAddr ==> h.addr == NoAddr) && (ip.soAd == NoSoAd ==> h.soAd == NoSoAd)
    case _ => true
  }

  /** The PDU that an arrival stands for. */
  function Arrived(a: Arrival): NCodecPdu
  {
    Seen(ReadInto(ZEROED, a))
  }

  lemma ArrivedIff(a: Arrival, before: Held)
    ensures Seen(ReadInto(before, a)) == Arrived(a) <==> Vacant(Arrived(a).transport, before)
  {
  }

  /** Read into any NCodecPdu, the PDU comes back if and only if those parts of it are vacant. */
  lemma ReusedBuffer(ids: SenderIds, p: NCodecPdu, words: PointerWords, before: Held)
    requires WellFormed(p)
    ensures Seen(ReadInto(before, Arrival(Emit(ids, p), words))) == Defaulted(ids, p) <==> Vacant(p.transport, before)
  {
    hide ReadInto, Emit, Seen, Vacant;
    RoundTrip(ids, p, words);
    ArrivedIff(Arrival(Emit(ids, p), words), before);
  }

  //////////////////////////////////////////////////////////////////////////////
  // One NCodecPdu for many reads
  //////////////////////////////////////////////////////////////////////////////

  function AddrIn(t: PduTable): Option<AddrTable>
  {
    if t.transport.Some? && t.transport.value.TransportIp? then t.transport.value.ip.addr else None
  }

  function AdapterIn(t: PduTable): Option<AdapterTable>
  {
    if t.transport.Some? && t.transport.value.TransportIp? then t.transport.value.ip.adapter else None
  }

  predicate IsStruct(t: PduTable)
  {
    t.transport.Some? && t.transport.value.TransportStruct?
  }

  /** The number of the last arrival that meets the condition, if any does. */
  function LastWith(arrivals: seq<Arrival>, meets: PduTable -> bool): (i: Option<nat>)
    ensures i.Some? ==> i.value < |arrivals| && meets(arrivals[i.value].t)
    ensures forall k | (if i.Some? then i.value + 1 else 0) <= k < |arrivals| :: !meets(arrivals[k].t)
  {
    if arrivals == [] then None
    else if meets(arrivals[|arrivals| - 1].t) then Some(|arrivals| - 1)
    else LastWith(arrivals[..|arrivals| - 1], meets)
  }

  /** What the last arrival with an address left, and struct messages since have made of it. */
  function AddrLeft(arrivals: seq<Arrival>): IpAddr
  {
    var i, s := LastWith(arrivals, t => AddrIn(t).Some?), LastWith(arrivals, t => IsStruct(t));
    if i.None? then NoAddr
    else
      var a := AddrOf(AddrIn(arrivals[i.value].t).value);
      if s.Some? && i.value < s.value then Overlaid(arrivals[s.value].words, a) else a
  }

  function SoAdLeft(arrivals: seq<Arrival>): SoAd
  {
    var i := LastWith(arrivals, t => AdapterIn(t).Some?);
    if i.None? then NoSoAd else SoAdOf(AdapterIn(arrivals[i.value].t).value)
  }

  lemma OneRead(h: Held, a: Arrival)
    ensures ReadInto(h, a).addr ==
      if AddrIn(a.t).Some? then AddrOf(AddrIn(a.t).value)
      else if IsStruct(a.t) then Overlaid(a.words, h.addr)
      else h.addr
    ensures ReadInto(h, a).soAd == if AdapterIn(a.t).Some? then SoAdOf(AdapterIn(a.t).value) else h.soAd
    ensures ReadInto(h, a).selected == NoneSelected <==> h.selected == NoneSelected && a.t.transport.None?
    ensures ReadInto(h, a).selected == if a.t.transport.None? then h.selected else ReadInto(ZEROED, a).selected
    ensures a.t.transport.Some? ==> Shows(ReadInto(h, a).selected, a.t.transport.value)
  {
    hide Overlaid, AddrOf, SoAdOf;
  }

  /** The selected member is, field by field, the metadata of the table. */
  predicate Shows(s: Selected, t: TransportTable)
  {
    match t
    case TransportCan(c) =>
      && s.CanSelected?
      && s.can.frameFormat == c.messageFormat && s.can.frameType == c.frameType
      && s.can.interfaceId == c.interfaceId && s.can.networkId == c.networkId
    case TransportIp(ip) =>
      && s.IpSelected?
      && s.eth.dstMac == ip.ethDstMac && s.eth.srcMac == ip.ethSrcMac && s.eth.ethertype == ip.ethEthertype
      && s.eth.pcp == ip.ethTciPcp && s.eth.dei == ip.ethTciDei && s.eth.vid == ip.ethTciVid
      && s.protocol == ip.ipProtocol && s.srcPort == ip.ipSrcPort && s.dstPort == ip.ipDstPort
    case TransportStruct(md) =>
      && s.StructSelected?
      && s.object_.typeName == md.typeName && s.object_.varName == md.varName && s.object_.encoding == md.encoding
      && s.object_.aligned == md.attributeAligned && s.object_.packed == md.attributePacked
      && s.object_.arch == md.platformArch && s.object_.os == md.platformOs && s.object_.abi == md.platformAbi
  }

  /**
   After any sequence of reads, into any NCodecPdu, the transport type and its fields are those of
   the last message that carried a transport, as a zeroed NCodecPdu would show them, or what they
   were before if none did.
   */
  lemma {:induction false} TransportLeft(before: Held, arrivals: seq<Arrival>)
    ensures
      var s, i := ReadRun(before, arrivals).selected, LastWith(arrivals, (t: PduTable) => t.transport.Some?);
      if i.None? then s == before.selected
      else Shows(s, arrivals[i.value].t.transport.value) && s == ReadInto(ZEROED, arrivals[i.value]).selected
  {
    hide ReadInto, Shows;
    if arrivals != [] {
      var n := |arrivals| - 1;
      TransportLeft(before, arrivals[..n]);
      OneRead(ReadRun(before, arrivals[..n]), arrivals[n]);
    }
  }

  /** The words that a struct message writes over an address, one by one. */
  lemma OverlaidWords(w: PointerWords, a: IpAddr)
    ensures Overlaid(w, NoAddr) == NoAddr
    ensures a.V4? ==> Overlaid(w, a) == V4(w[0] as nat + 65536 * w[1] as nat, w[2] as nat + 65536 * w[3] as nat)
    ensures a.V6? ==>
      && Overlaid(w, a).V6?
      && (forall k | 0 <= k < 8 :: Overlaid(w, a).src6[k] == w[k])
      && (forall k | 0 <= k < 4 :: Overlaid(w, a).dst6[k] == w[8 + k])
      && (forall k | 4 <= k < 8 :: Overlaid(w, a).dst6[k] == a.dst6[k])
  {
  }

  lemma OverlaidTwice(w: PointerWords, w': PointerWords, a: IpAddr)
    ensures Overlaid(w, Overlaid(w', a)) == Overlaid(w, a)
  {
    if a.V6? { assert (w'[8..] + a.dst6[4..])[4..] == a.dst6[4..]; }
  }

  /** One more arrival. */
  lemma LeftoversStep(arrivals: seq<Arrival>)
    requires arrivals != []
    ensures
      var a, init := arrivals[|arrivals| - 1], arrivals[..|arrivals| - 1];
      && AddrLeft(arrivals) == (
           if AddrIn(a.t).Some? then AddrOf(AddrIn(a.t).value)
           else if IsStruct(a.t) then Overlaid(a.words, AddrLeft(init))
           else AddrLeft(init))
      && SoAdLeft(arrivals) == if AdapterIn(a.t).Some? then SoAdOf(AdapterIn(a.t).value) else SoAdLeft(init)
  {
    hide Overlaid, AddrOf, SoAdOf, AddrIn, AdapterIn, IsStruct;
    var a, init := arrivals[|arrivals| - 1], arrivals[..|arrivals| - 1];
    NoOverlay(a.words);
    var i, s := LastWith(init, t => AddrIn(t).Some?), LastWith(init, t => IsStruct(t));
    if i.Some? && s.Some? {
      OverlaidTwice(a.words, arrivals[s.value].words, AddrOf(AddrIn(arrivals[i.value].t).value));
    }
  }

  lemma NoOverlay(w: PointerWords)
    ensures Overlaid(w, NoAddr) == NoAddr
  {
  }

  /**
   After any sequence of reads into a zeroed NCodecPdu the address is that of the last message
   that carried one, whatever came since, but for the bytes the last struct message since then
   wrote over it; the adapter is that of the last message that carried one.
   */
  lemma {:induction false} Leftovers(arrivals: seq<Arrival>)
    ensures ReadRun(ZEROED, arrivals).addr == AddrLeft(arrivals)
    ensures ReadRun(ZEROED, arrivals).soAd == SoAdLeft(arrivals)
    ensures ReadRun(ZEROED, arrivals).selected == NoneSelected
      <==> forall k | 0 <= k < |arrivals| :: arrivals[k].t.transport.None?
  {
    hide Overlaid, AddrOf, SoAdOf, AddrIn, AdapterIn, IsStruct, ReadInto;
    if arrivals != [] {
      var init := arrivals[..|arrivals| - 1];
      Leftovers(init);
      OneRead(ReadRun(ZEROED, init), arrivals[|arrivals| - 1]);
      hide AddrLeft, SoAdLeft;
      LeftoversStep(arrivals);
    }
  }

  /** A PDU lacks a transport, an address or an adapter where an earlier one had it. */
  predicate Omits(p: NCodecPdu, earlier: NCodecPdu)
  {
    match p.transport
    case NoTransport => earlier.transport != NoTransport
    case IpTransport(ip) =>
      && earlier.transport.IpTransport?
      && ((ip.addr == NoAddr && earlier.transport.ip.addr != NoAddr)
          || (ip.soAd == NoSoAd && earlier.transport.ip.soAd != NoSoAd))
    case _ => false
  }

  /** Behind any sequence of reads, a PDU comes back if and only if it omits nothing those carried. */
  lemma ReadBehind(before: seq<Arrival>, a: Arrival)
    ensures Seen(ReadInto(ReadRun(ZEROED, before), a)) == Arrived(a)
      <==> forall k | 0 <= k < |before| :: !Omits(Arrived(a), Arrived(before[k]))
  {
    Leftovers(before);
    hide ReadInto, Seen, ReadRun, AddrLeft, SoAdLeft, Arrived;
    ArrivedIff(a, ReadRun(ZEROED, before));
    AddressKept(before);
    AdapterKept(before);
    forall k | 0 <= k < |before| ensures Arrived(before[k]).transport == NoTransport <==> before[k].t.transport.None? {
      TransportArrives(before[k]);
    }
  }

  lemma TransportArrives(a: Arrival)
    ensures Arrived(a).transport == NoTransport <==> a.t.transport.None?
    ensures Carries(Arrived(a), true) <==> AddrIn(a.t).Some?
    ensures Carries(Arrived(a), false) <==> AdapterIn(a.t).Some?
  {
  }

  predicate Carries(p: NCodecPdu, addr: bool)
  {
    p.transport.IpTransport? && if addr then p.transport.ip.addr != NoAddr else p.transport.ip.soAd != NoSoAd
  }

  lemma AddressKept(before: seq<Arrival>)
    ensures AddrLeft(before) == NoAddr <==> forall k | 0 <= k < |before| :: !Carries(Arrived(before[k]), true)
  {
    hide Arrived, Carries, AddrIn;
    forall k | 0 <= k < |before| ensures Carries(Arrived(before[k]), true) <==> AddrIn(before[k].t).Some? {
      TransportArrives(before[k]);
    }
  }

  lemma AdapterKept(before: seq<Arrival>)
    ensures SoAdLeft(before) == NoSoAd <==> forall k | 0 <= k < |before| :: !Carries(Arrived(before[k]), false)
  {
    hide Arrived, Carries, AdapterIn;
    forall k | 0 <= k < |before| ensures Carries(Arrived(before[k]), false) <==> AdapterIn(before[k].t).Some? {
      TransportArrives(before[k]);
    }
  }

  //////////////////////////////////////////////////////////////////////////////
  // From writer to reader
  //////////////////////////////////////////////////////////////////////////////

  /** Any layout of PDU vectors with the round-trip contract; the sender is the swc_id. */
  ghost predicate PduSchema(sch: Schema<PduTable>)
  {
    ValidSchema(sch) && forall t: PduTable :: Sender(sch, t) == Some(t.swcId as nat)
  }

  function EmitAll(ids: SenderIds, ps: seq<NCodecPdu>): (ts: seq<PduTable>)
    ensures |ts| == |ps|
    ensures forall i | 0 <= i < |ts| :: ts[i] == Emit(ids, ps[i])
  {
    seq(|ps|, i requires 0 <= i < |ps| => Emit(ids, ps[i]))
  }

  /** What a caller sees that passes a zeroed NCodecPdu to every read, or the same one to all. */
  function EachZeroed(arrivals: seq<Arrival>): (r: seq<NCodecPdu>)
    ensures |r| == |arrivals|
  {
    seq(|arrivals|, i requires 0 <= i < |arrivals| => Arrived(arrivals[i]))
  }

  function OneBuffer(arrivals: seq<Arrival>): (r: seq<NCodecPdu>)
    ensures |r| == |arrivals|
  {
    seq(|arrivals|, i requires 0 <= i < |arrivals| => Seen(ReadRun(ZEROED, arrivals[..i + 1])))
  }

  /** The PDUs as sent, without those that carry the reader's own swc_id. */
  function Received(ids: SenderIds, own: byte, ps: seq<NCodecPdu>): seq<NCodecPdu>
  {
    if ps == [] then []
    else
      var p := Defaulted(ids, ps[0]);
      (if own != 0 && p.swcId == own then [] else [p]) + Received(ids, own, ps[1..])
  }

  /** The arrivals are those of the given tables, wherever their strings lie. */
  predicate ArrivalsOf(arrivals: seq<Arrival>, ts: seq<PduTable>)
  {
    |arrivals| == |ts| && forall i | 0 <= i < |ts| :: arrivals[i].t == ts[i]
  }

  lemma {:induction false} KeptAreReceived(
    sch: Schema<PduTable>, ids: SenderIds, own: byte, ps: seq<NCodecPdu>, arrivals: seq<Arrival>)
    requires PduSchema(sch) && forall i | 0 <= i < |ps| :: WellFormed(ps[i])
    requires ArrivalsOf(arrivals, Keep(sch, own, EmitAll(ids, ps)))
    ensures EachZeroed(arrivals) == Received(ids, own, ps)
    decreases |ps|
  {
    hide ReadInto, Emit, Defaulted, ValidSchema, Seen;
    if ps != [] {
      var t, rest := Emit(ids, ps[0]), EmitAll(ids, ps[1..]);
      assert EmitAll(ids, ps)[1..] == rest;
      assert Sender(sch, t) == Some(t.swcId as nat);
      SwcDefaulted(ids, ps[0]);
      if Wanted(sch, own, t) {
        assert ([t] + Keep(sch, own, rest))[1..] == Keep(sch, own, rest);
        RoundTrip(ids, ps[0], arrivals[0].words);
        KeptAreReceived(sch, ids, own, ps[1..], arrivals[1..]);
        assert EachZeroed(arrivals) == [Arrived(arrivals[0])] + EachZeroed(arrivals[1..]);
      } else {
        assert [] + Keep(sch, own, rest) == Keep(sch, own, rest);
        KeptAreReceived(sch, ids, own, ps[1..], arrivals);
      }
    }
  }

  lemma SwcDefaulted(ids: SenderIds, p: NCodecPdu)
    ensures Emit(ids, p).swcId == Defaulted(ids, p).swcId
  {
  }

  /** No PDU lacks a part that one before it had. */
  predicate NoneOmits(ps: seq<NCodecPdu>)
  {
    forall i, k | 0 <= k < i < |ps| :: !Omits(ps[i], ps[k])
  }

  lemma OneBufferIff(arrivals: seq<Arrival>)
    ensures OneBuffer(arrivals) == EachZeroed(arrivals) <==> NoneOmits(EachZeroed(arrivals))
  {
    hide ReadInto, Seen, Omits;
    var ps := EachZeroed(arrivals);
    forall i | 0 <= i < |arrivals|
      ensures OneBuffer(arrivals)[i] == ps[i] <==> forall k | 0 <= k < i :: !Omits(ps[i], ps[k])
    {
      var before := arrivals[..i];
      assert arrivals[..i + 1][..i] == before;
      ReadBehind(before, arrivals[i]);
      assert forall k | 0 <= k < i :: ps[k] == Arrived(before[k]);
    }
  }

  /**
   Written and flushed by one codec and read by another, every list of PDUs arrives with the
   sender's ids filled in, less those that carry the reader's own swc_id: always, if each is read
   into a zeroed NCodecPdu, and if all are read into the same one, exactly when none of them
   lacks a transport, an address or an adapter that one before it had.
   */
  lemma WriteFlushRead(sch: Schema<PduTable>, ids: SenderIds, own: byte, ps: seq<NCodecPdu>)
    requires PduSchema(sch) && forall i | 0 <= i < |ps| :: WellFormed(ps[i])
    requires |Message(sch, EmitAll(ids, ps))| <= BUFFER_LEN
    ensures Framed(Message(sch, EmitAll(ids, ps)))
    ensures forall arrivals | ArrivalsOf(arrivals, Unread(sch, own, Message(sch, EmitAll(ids, ps)))) ::
      && EachZeroed(arrivals) == Received(ids, own, ps)
      && (OneBuffer(arrivals) == Received(ids, own, ps) <==> NoneOmits(Received(ids, own, ps)))
  {
    hide Keep, Unread, Framed, Clean, ValidSchema, EachZeroed, OneBuffer, ArrivalsOf;
    var ts := EmitAll(ids, ps);
    UnreadMessage(sch, own, ts);
    forall arrivals | ArrivalsOf(arrivals, Unread(sch, own, Message(sch, ts)))
      ensures EachZeroed(arrivals) == Received(ids, own, ps)
      ensures OneBuffer(arrivals) == Received(ids, own, ps) <==> NoneOmits(Received(ids, own, ps))
    {
      KeptAreReceived(sch, ids, own, ps, arrivals);
      OneBufferIff(arrivals);
    }
  }
}
