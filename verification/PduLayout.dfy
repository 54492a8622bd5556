/**
 A concrete layout of SPDU bodies, which meets the round-trip contract of a PDU schema: tables
 are lists of fields, and a table inside another is a field that holds its bytes.
 */
module PduLayout {
  import opened Bytes
  import opened Streams
  import opened Wire
  import opened Codec
  import opened Pdu
  import Can

  const SPDU: seq<byte> := [83, 80, 68, 85]

  //////////////////////////////////////////////////////////////////////////////
  // Fields
  //////////////////////////////////////////////////////////////////////////////

  /** A scalar, or bytes that may be absent. */
  datatype Field = Num(n: uint32) | Blob(bytes: Option<seq<byte>>)

  function PutField(f: Field): seq<byte>
  {
    match f
    case Num(n) => [1] + LittleEndian(n)
    case Blob(None) => [2]
    case Blob(Some(b)) => [3] + PutBytes(b)
  }

  function GetField(s: seq<byte>): (r: Option<(Field, seq<byte>)>)
    ensures r.Some? ==> |r.value.1| < |s|
  {
    if s == [] then None
    else if s[0] == 1 then if |s| < 5 then None else Some((Num(FromLittleEndian(s[1..5])), s[5..]))
    else if s[0] == 2 then Some((Blob(None), s[1..]))
    else if s[0] == 3 then
      match GetBytes(s[1..])
      case None => None
      case Some((b, rest)) => Some((Blob(Some(b)), rest))
    else None
  }

  lemma GetPutField(f: Field, rest: seq<byte>)
    ensures GetField(PutField(f) + rest) == Some((f, rest))
  {
    hide LittleEndian, FromLittleEndian, PutBytes, GetBytes;
    var s := PutField(f) + rest;
    match f
    case Num(n) =>
      LittleEndianRoundTrip(n);
      assert s[1..5] == LittleEndian(n) && s[5..] == rest;
    case Blob(None) => assert s[1..] == rest;
    case Blob(Some(b)) =>
      GetPutBytes(b, rest);
      assert s[1..] == PutBytes(b) + rest;
  }

  function PutFields(fs: seq<Field>): seq<byte>
  {
    if fs == [] then [] else PutField(fs[0]) + PutFields(fs[1..])
  }

  function GetFields(s: seq<byte>): Option<seq<Field>>
    decreases |s|
  {
    if s == [] then Some([])
    else
      match GetField(s)
      case None => None
      case Some((f, rest)) =>
        match GetFields(rest)
        case None => None
        case Some(fs) => Some([f] + fs)
  }

  lemma {:induction false} GetPutFields(fs: seq<Field>)
    ensures GetFields(PutFields(fs)) == Some(fs)
  {
    hide PutField, GetField;
    if fs != [] {
      GetPutField(fs[0], PutFields(fs[1..]));
      GetPutFields(fs[1..]);
      assert PutFields(fs) != [] by { GetPutField(fs[0], []); }
      assert fs == [fs[0]] + fs[1..];
    }
  }

  predicate IsNum(f: Field, bound: nat)
  {
    f.Num? && f.n < bound
  }

  predicate AllNums(fs: seq<Field>, bound: nat)
  {
    forall i | 0 <= i < |fs| :: IsNum(fs[i], bound)
  }

  //////////////////////////////////////////////////////////////////////////////
  // Tables
  //////////////////////////////////////////////////////////////////////////////

  function PutAddr(a: AddrTable): seq<Field>
  {
    match a
    case AddrV4(v) => [Num(v.src), Num(v.dst)]
    case AddrV6(v) => PutWords(v.src) + PutWords(v.dst)
  }

  function PutWords(ws: seq<uint16>): (fs: seq<Field>)
    ensures |fs| == |ws|
    ensures forall i | 0 <= i < |ws| :: fs[i] == Num(ws[i])
  {
    seq(|ws|, i requires 0 <= i < |ws| => Num(ws[i]))
  }

  function GetWords(fs: seq<Field>): (ws: seq<uint16>)
    requires AllNums(fs, 0x1_0000)
    ensures |ws| == |fs|
    ensures forall i | 0 <= i < |fs| :: ws[i] == fs[i].n
  {
    seq(|fs|, i requires 0 <= i < |fs| => assert IsNum(fs[i], 0x1_0000); fs[i].n)
  }

  function GetAddr(fs: seq<Field>): Option<AddrTable>
  {
    if |fs| == 2 && AllNums(fs, WORD) then
      assert IsNum(fs[0], WORD) && IsNum(fs[1], WORD);
      Some(AddrV4(V4Table(fs[0].n, fs[1].n)))
    else if |fs| == 16 && AllNums(fs, 0x1_0000) then
      assert forall i | 0 <= i < 8 :: fs[..8][i] == fs[i] && fs[8..][i] == fs[i + 8];
      Some(AddrV6(V6Table(GetWords(fs[..8]), GetWords(fs[8..]))))
    else None
  }

  lemma GetPutAddr(a: AddrTable)
    ensures GetAddr(PutAddr(a)) == Some(a)
  {
    if a.AddrV6? {
      var fs := PutAddr(a);
      assert fs[..8] == PutWords(a.v6.src) && fs[8..] == PutWords(a.v6.dst);
      assert GetWords(fs[..8]) == a.v6.src && GetWords(fs[8..]) == a.v6.dst;
    }
  }

  function PutAdapter(a: AdapterTable): seq<Field>
  {
    match a
    case AdapterDoIp(d) => [Num(d.protocolVersion), Num(d.payloadType)]
    case AdapterSomeIp(s) =>
      [Num(s.messageId), Num(s.length), Num(s.requestId), Num(s.protocolVersion), Num(s.interfaceVersion),
       Num(s.messageType), Num(s.returnCode)]
  }

  function GetAdapter(fs: seq<Field>): Option<AdapterTable>
  {
    if |fs| == 2 && IsNum(fs[0], 256) && IsNum(fs[1], 0x1_0000) then Some(AdapterDoIp(DoIpTable(fs[0].n, fs[1].n)))
    else if |fs| == 7 && IsNum(fs[0], WORD) && IsNum(fs[1], WORD) && IsNum(fs[2], WORD) && AllNums(fs[3..], 256) then
      assert forall i | 3 <= i < 7 :: fs[3..][i - 3] == fs[i];
      Some(AdapterSomeIp(SomeIpTable(fs[0].n, fs[1].n, fs[2].n, fs[3].n, fs[4].n, fs[5].n, fs[6].n)))
    else None
  }

  lemma GetPutAdapter(a: AdapterTable)
    ensures GetAdapter(PutAdapter(a)) == Some(a)
  {
  }

  function PutCan(t: CanTable): seq<Field>
  {
    [Num(t.messageFormat), Num(t.frameType), Num(t.interfaceId), Num(t.networkId)]
  }

  function GetCan(fs: seq<Field>): Option<CanTable>
  {
    if |fs| == 4 && IsNum(fs[0], 256) && IsNum(fs[1], 256) && IsNum(fs[2], WORD) && IsNum(fs[3], WORD)
    then Some(CanTable(fs[0].n, fs[1].n, fs[2].n, fs[3].n))
    else None
  }

  lemma GetPutCan(t: CanTable)
    ensures GetCan(PutCan(t)) == Some(t)
  {
  }

  /** A table inside another, if it is there. */
  function PutTable(fs: Option<seq<Field>>): Field
  {
    Blob(if fs.Some? then Some(PutFields(fs.value)) else None)
  }

  function Low(n: uint64): uint32 { n % WORD }
  function High(n: uint64): uint32 { n / WORD }

  function PutIp(t: IpTable): seq<Field>
  {
    [Num(Low(t.ethDstMac)), Num(High(t.ethDstMac)), Num(Low(t.ethSrcMac)), Num(High(t.ethSrcMac)),
     Num(t.ethEthertype), Num(t.ethTciPcp), Num(t.ethTciDei), Num(t.ethTciVid),
     PutTable(if t.addr.Some? then Some(PutAddr(t.addr.value)) else None),
     Num(t.ipProtocol), Num(t.ipSrcPort), Num(t.ipDstPort),
     PutTable(if t.adapter.Some? then Some(PutAdapter(t.adapter.value)) else None)]
  }

  predicate IpShape(fs: seq<Field>)
  {
    && |fs| == 13
    && IsNum(fs[0], WORD) && IsNum(fs[1], WORD) && IsNum(fs[2], WORD) && IsNum(fs[3], WORD)
    && IsNum(fs[4], 0x1_0000) && IsNum(fs[5], 256) && IsNum(fs[6], 256) && IsNum(fs[7], 0x1_0000)
    && fs[8].Blob?
    && IsNum(fs[9], 256) && IsNum(fs[10], 0x1_0000) && IsNum(fs[11], 0x1_0000)
    && fs[12].Blob?
  }

  /** The address of an IP table: absent, there, or unreadable. */
  function AddrField(f: Field): Option<Option<AddrTable>>
    requires f.Blob?
  {
    if f.bytes.None? then Some(None)
    else
      match GetFields(f.bytes.value)
      case None => None
      case Some(fs) => var a := GetAddr(fs); if a.Some? then Some(a) else None
  }

  function AdapterField(f: Field): Option<Option<AdapterTable>>
    requires f.Blob?
  {
    if f.bytes.None? then Some(None)
    else
      match GetFields(f.bytes.value)
      case None => None
      case Some(fs) => var a := GetAdapter(fs); if a.Some? then Some(a) else None
  }

  function GetIp(fs: seq<Field>): Option<IpTable>
  {
    if !IpShape(fs) || AddrField(fs[8]).None? || AdapterField(fs[12]).None? then None
    else
      Some(IpTable(
        fs[0].n + WORD * fs[1].n, fs[2].n + WORD * fs[3].n, fs[4].n, fs[5].n, fs[6].n, fs[7].n,
        AddrField(fs[8]).value, fs[9].n, fs[10].n, fs[11].n, AdapterField(fs[12]).value))
  }

  lemma GetPutIp(t: IpTable)
    ensures GetIp(PutIp(t)) == Some(t)
  {
    hide PutAddr, GetAddr, PutAdapter, GetAdapter, PutFields, GetFields;
    if t.addr.Some? {
      GetPutAddr(t.addr.value);
      GetPutFields(PutAddr(t.addr.value));
    }
    if t.adapter.Some? {
      GetPutAdapter(t.adapter.value);
      GetPutFields(PutAdapter(t.adapter.value));
    }
  }

  function PutStruct(t: StructTable): seq<Field>
  {
    [Blob(t.typeName), Blob(t.varName), Blob(t.encoding), Num(t.attributeAligned),
     Num(if t.attributePacked then 1 else 0), Blob(t.platformArch), Blob(t.platformOs), Blob(t.platformAbi)]
  }

  function GetStruct(fs: seq<Field>): Option<StructTable>
  {
    if |fs| == 8 && fs[0].Blob? && fs[1].Blob? && fs[2].Blob? && IsNum(fs[3], 0x1_0000) && IsNum(fs[4], 2)
       && fs[5].Blob? && fs[6].Blob? && fs[7].Blob?
    then
      Some(StructTable(fs[0].bytes, fs[1].bytes, fs[2].bytes, fs[3].n, fs[4].n == 1,
                       fs[5].bytes, fs[6].bytes, fs[7].bytes))
    else None
  }

  lemma GetPutStruct(t: StructTable)
    ensures GetStruct(PutStruct(t)) == Some(t)
  {
  }

  function PutTransport(t: TransportTable): seq<Field>
  {
    match t
    case TransportCan(c) => PutCan(c)
    case TransportIp(ip) => PutIp(ip)
    case TransportStruct(s) => PutStruct(s)
  }

  /** The union is told by its type: 1 for CAN, 2 for IP, 3 for a struct. */
  function TypeOf(t: TransportTable): uint32
  {
    match t
    case TransportCan(_) => 1
    case TransportIp(_) => 2
    case TransportStruct(_) => 3
  }

  function GetTransport(kind: nat, fs: seq<Field>): Option<TransportTable>
  {
    if kind == 1 then var c := GetCan(fs); if c.Some? then Some(TransportCan(c.value)) else None
    else if kind == 2 then var ip := GetIp(fs); if ip.Some? then Some(TransportIp(ip.value)) else None
    else if kind == 3 then var s := GetStruct(fs); if s.Some? then Some(TransportStruct(s.value)) else None
    else None
  }

  lemma GetPutTransport(t: TransportTable)
    ensures GetTransport(TypeOf(t), PutTransport(t)) == Some(t)
  {
    hide PutCan, GetCan, PutIp, GetIp, PutStruct, GetStruct;
    match t
    case TransportCan(c) => GetPutCan(c);
    case TransportIp(ip) => GetPutIp(ip);
    case TransportStruct(s) => GetPutStruct(s);
  }

  function PutPdu(t: PduTable): seq<Field>
  {
    [Num(t.id), Blob(Some(t.payload)), Num(t.swcId), Num(t.ecuId)]
    + if t.transport.None? then []
      else [Num(TypeOf(t.transport.value)), Blob(Some(PutFields(PutTransport(t.transport.value))))]
  }

  predicate PduShape(fs: seq<Field>)
  {
    && |fs| >= 4 && fs[0].Num? && fs[1].Blob? && fs[1].bytes.Some? && fs[2].Num? && fs[3].Num?
    && (|fs| == 4 || (|fs| == 6 && fs[4].Num? && fs[5].Blob? && fs[5].bytes.Some?))
  }

  function GetPdu(fs: seq<Field>): Option<PduTable>
  {
    if !PduShape(fs) then None
    else
      var t := PduTable(fs[0].n, fs[1].bytes.value, fs[2].n, fs[3].n, None);
      if |fs| == 4 then Some(t)
      else
        match GetFields(fs[5].bytes.value)
        case None => None
        case Some(gs) =>
          var transport := GetTransport(fs[4].n, gs);
          if transport.Some? then Some(t.(transport := transport)) else None
  }

  lemma GetPutPdu(t: PduTable)
    ensures GetPdu(PutPdu(t)) == Some(t)
  {
    hide PutTransport, GetTransport, PutFields, GetFields;
    if t.transport.Some? {
      GetPutTransport(t.transport.value);
      GetPutFields(PutTransport(t.transport.value));
    }
  }

  //////////////////////////////////////////////////////////////////////////////
  // Bodies
  //////////////////////////////////////////////////////////////////////////////

  function PutPdus(v: seq<PduTable>): seq<Field>
  {
    if v == [] then [] else [Blob(Some(PutFields(PutPdu(v[0]))))] + PutPdus(v[1..])
  }

  function GetPdus(fs: seq<Field>): Option<seq<PduTable>>
  {
    if fs == [] then Some([])
    else if !fs[0].Blob? || fs[0].bytes.None? then None
    else
      match GetFields(fs[0].bytes.value)
      case None => None
      case Some(gs) =>
        var t, rest := GetPdu(gs), GetPdus(fs[1..]);
        if t.None? || rest.None? then None else Some([t.value] + rest.value)
  }

  lemma {:induction false} GetPutPdus(v: seq<PduTable>)
    ensures GetPdus(PutPdus(v)) == Some(v)
  {
    hide PutPdu, GetPdu, PutFields, GetFields;
    if v != [] {
      GetPutPdu(v[0]);
      GetPutFields(PutPdu(v[0]));
      GetPutPdus(v[1..]);
      assert PutPdus(v)[1..] == PutPdus(v[1..]);
      assert v == [v[0]] + v[1..];
    }
  }

  /** Root offset, identifier, and the vector behind a presence byte. */
  function EncodeBody(v: seq<PduTable>): seq<byte>
  {
    [0, 0, 0, 0] + SPDU + [1] + PutFields(PutPdus(v))
  }

  function DecodeBody(body: seq<byte>): Option<seq<PduTable>>
  {
    if |body| < 9 || body[8] != 1 then None
    else
      match GetFields(body[9..])
      case None => None
      case Some(fs) => GetPdus(fs)
  }

  function SwcOf(t: PduTable): Option<nat>
  {
    Some(t.swcId)
  }

  const PDU: Schema<PduTable> := Schema(SPDU, v => EncodeBody(v), body => DecodeBody(body), t => SwcOf(t))

  /** Every vector of PDUs of any transport is read back from this layout. */
  lemma PduSchemaValid()
    ensures PduSchema(PDU)
    ensures forall v: seq<PduTable> :: |Encode(PDU, v)| >= 8 && Encode(PDU, v)[4..8] == [83, 80, 68, 85]
  {
    hide PutPdus, GetPdus, PutFields, GetFields;
    forall v: seq<PduTable>
      ensures HasIdentifier(PDU.ident, Encode(PDU, v)) && Decode(PDU, Encode(PDU, v)) == Some(v)
    {
      var body := EncodeBody(v);
      GetPutPdus(v);
      GetPutFields(PutPdus(v));
      assert body[4..8] == SPDU && body[9..] == PutFields(PutPdus(v));
    }
  }

  //////////////////////////////////////////////////////////////////////////////
  // From writer to reader in this layout
  //////////////////////////////////////////////////////////////////////////////

  /** PDUs are written, flushed as one message, and the stream is moved to its start. */
  method SendAll(ids: SenderIds, ps: seq<NCodecPdu>) returns (stream: BufferStream)
    requires forall i | 0 <= i < |ps| :: WellFormed(ps[i])
    requires ps != [] && |Message(PDU, EmitAll(ids, ps))| <= BUFFER_LEN
    ensures fresh(stream) && stream.Valid() && fresh(stream.buffer)
    ensures stream.State().Rest() == Message(PDU, EmitAll(ids, ps))
  {
    hide Message, ValidCursor, Emit, WellFormed;
    stream := new BufferStream();
    ghost var empty := stream.State();
    var writer := new Codec<PduTable>(PDU, stream, ids.swcId);
    for i := 0 to |ps|
      invariant writer.Valid() && writer.ownId == ids.swcId && stream.State() == empty
      invariant writer.builder == EmitAll(ids, ps[..i]) && (writer.streamInitialized <==> i > 0)
    {
      var _ := PduWrite(writer, ids, ps[i]);
    }
    assert ps[..|ps|] == ps;
    var _ := writer.Flush();
    WriteAtEnd(empty, Message(PDU, EmitAll(ids, ps)));
    assert empty.Data() == [];
    var _ := stream.Seek(0, SEEK_SET);
  }

  /** The tables as they arrive, the platform strings of each at the same place. */
  function At(words: PointerWords, ts: seq<PduTable>): (arrivals: seq<Arrival>)
    ensures ArrivalsOf(arrivals, ts)
  {
    seq(|ts|, i requires 0 <= i < |ts| => Arrival(ts[i], words))
  }

  /** Reads until -ENOMSG, all into one NCodecPdu. */
  method ReceiveAll(nc: Codec<PduTable>, words: PointerWords) returns (seen: seq<NCodecPdu>)
    requires nc.Valid() && nc.WellFramed()
    modifies nc`msgPtr, nc`msgLen, nc`vector, nc`vectorIdx, nc`vectorLen, nc.stream`pos, nc.stream`len
    ensures nc.Valid() && nc.WellFramed() && nc.Pending() == []
    ensures seen == OneBuffer(At(words, old(nc.Pending())))
  {
    hide ValidCursor, Queue, Framed, ReadInto, Seen;
    ghost var all := nc.Pending();
    ghost var n := 0;
    var pdu := new PduBuffer();
    seen := [];
    while true
      invariant nc.Valid() && nc.WellFramed() && n <= |all| && nc.Pending() == all[n..]
      invariant seen == OneBuffer(At(words, all[..n]))
      invariant pdu.held == ReadRun(ZEROED, At(words, all[..n]))
      decreases |all| - n
    {
      var r := pdu.PduRead(nc, words);
      if r == -ENOMSG { break; }
      OneMoreSeen(words, all, n);
      seen := seen + [Seen(pdu.held)];
      n := n + 1;
    }
    assert all[..n] == all;
  }

  lemma OneMoreSeen(words: PointerWords, all: seq<PduTable>, n: nat)
    requires n < |all|
    ensures
      var h := ReadInto(ReadRun(ZEROED, At(words, all[..n])), Arrival(all[n], words));
      && ReadRun(ZEROED, At(words, all[..n + 1])) == h
      && OneBuffer(At(words, all[..n + 1])) == OneBuffer(At(words, all[..n])) + [Seen(h)]
  {
    hide ReadInto, Seen;
    var a, b := At(words, all[..n]), At(words, all[..n + 1]);
    assert b[..n] == a;
    forall i | 0 <= i < n ensures OneBuffer(b)[i] == OneBuffer(a)[i] {
      assert b[..i + 1] == a[..i + 1];
    }
    assert b[..n + 1] == b;
  }

  lemma TablesSent(ids: SenderIds, own: byte, ps: seq<NCodecPdu>)
    requires |Message(PDU, EmitAll(ids, ps))| <= BUFFER_LEN
    ensures Framed(Message(PDU, EmitAll(ids, ps)))
    ensures Unread(PDU, own, Message(PDU, EmitAll(ids, ps))) == Keep(PDU, own, EmitAll(ids, ps))
  {
    hide Unread, Framed, Clean, Keep, EmitAll, ValidSchema;
    PduSchemaValid();
    UnreadMessage(PDU, own, EmitAll(ids, ps));
  }

  /**
   PDUs written by one codec and read by another through a single NCodecPdu come back with the
   sender's ids filled in, less those that carry the reader's own swc_id, exactly when none of
   those left lacks a transport, an address or an adapter that one before it had.
   */
  method Exchange(ids: SenderIds, own: byte, ps: seq<NCodecPdu>, words: PointerWords)
    returns (seen: seq<NCodecPdu>)
    requires forall i | 0 <= i < |ps| :: WellFormed(ps[i])
    requires ps != [] && |Message(PDU, EmitAll(ids, ps))| <= BUFFER_LEN
    ensures seen == OneBuffer(At(words, Keep(PDU, own, EmitAll(ids, ps))))
    ensures seen == Pdu.Received(ids, own, ps) <==> NoneOmits(Pdu.Received(ids, own, ps))
  {
    hide Queue, Framed, Message, ValidCursor, Ahead, PduSchema, EmitAll, Unread, OneBuffer, Omits, WellFormed,
      Keep;
    PduSchemaValid();
    var stream := SendAll(ids, ps);
    var reader := new Codec<PduTable>(PDU, stream, own);
    WriteFlushRead(PDU, ids, own, ps);
    TablesSent(ids, own, ps);
    OnlyStreamAhead(PDU, own, NO_MESSAGE, stream.State());
    seen := ReceiveAll(reader, words);
  }

  //////////////////////////////////////////////////////////////////////////////
  // Truncation in this layout
  //////////////////////////////////////////////////////////////////////////////

  lemma {:induction false} BytesLength(p: seq<byte>)
    ensures |PutBytes(p)| == 2 * |p| + 1
  {
    if p != [] { BytesLength(p[1..]); }
  }

  /** Another number, or other bytes of the same length, take the same room. */
  lemma {:induction false} SameRoom(fs: seq<Field>, gs: seq<Field>, i: nat)
    requires i < |fs| == |gs| && gs == fs[i := gs[i]] && |PutField(fs[i])| == |PutField(gs[i])|
    ensures |PutFields(fs)| == |PutFields(gs)|
  {
    hide PutField;
    if i > 0 {
      assert gs[1..] == fs[1..][i - 1 := gs[i]];
      SameRoom(fs[1..], gs[1..], i - 1);
    } else {
      assert gs[1..] == fs[1..];
    }
  }

  /** A PDU takes the same room whoever sent it. */
  lemma SameSize(v: seq<PduTable>, i: nat, swc: byte)
    requires i < |v|
    ensures |Encode(PDU, v[i := v[i].(swcId := swc)])| == |Encode(PDU, v)|
  {
    hide PutTransport, PutFields, TypeOf;
    var t, t' := v[i], v[i].(swcId := swc);
    var b, b' := PutFields(PutPdu(t)), PutFields(PutPdu(t'));
    assert PutPdu(t') == PutPdu(t)[2 := Num(swc)];
    SameRoom(PutPdu(t), PutPdu(t'), 2);
    BytesLength(b);
    BytesLength(b');
    PutPdusAt(v, i);
    PutPdusAt(v[i := t'], i);
    var fs, gs := PutPdus(v), PutPdus(v[i := t']);
    forall k | 0 <= k < |v| ensures gs[k] == if k == i then Blob(Some(b')) else fs[k] {
      PutPdusAt(v, k);
      PutPdusAt(v[i := t'], k);
    }
    SameRoom(fs, gs, i);
  }

  lemma {:induction false} PutPdusAt(v: seq<PduTable>, i: nat)
    requires i < |v|
    ensures |PutPdus(v)| == |v| && PutPdus(v)[i] == Blob(Some(PutFields(PutPdu(v[i]))))
  {
    hide PutPdu, PutFields;
    if |v| > 1 { PutPdusAt(v[1..], if i > 0 then i - 1 else 0); }
  }

  /**
   A codec truncated while it stands in a message that pdu_write made delivers exactly what is
   written from then on, whatever that is, if and only if its parsing state is settled.
   */
  lemma PduTruncation(own: byte, c: Cursor, st: Stream, v: seq<PduTable>)
    requires ValidCursor(c) && Reachable(c) && st.Valid()
    requires c.msgPtr.Some? ==> c.vector && c.msgLen == |Encode(PDU, v)| && c.vectorLen == |v|
    ensures AsFresh(PDU, own, c, st) <==> Settled(c)
  {
    hide AsFresh, Encode, Decode, ValidSchema;
    PduSchemaValid();
    if !Settled(c) {
      var i, other := c.vectorIdx, if own == 1 then 2 else 1;
      var v' := v[i := v[i].(swcId := other)];
      SameSize(v, i, other);
      assert Wanted(PDU, own, v'[i]) by { SwcSent(v'[i]); }
      assert Replaceable(PDU, own, c.msgLen, i);
    }
    TruncateIff(PDU, own, c, st);
  }

  lemma SwcSent(t: PduTable)
    ensures Sender(PDU, t) == Some(t.swcId as nat)
  {
  }

  /**
   A PDU delivered twice: the reader took the first of two PDUs, the second being its own, and is
   truncated; the same message comes again, but with the second PDU from another component.
   */
  lemma PduDeliveredTwice(own: byte, x: PduTable, y: PduTable)
    requires own != 0 && x.swcId != own && y.swcId != own && |Message(PDU, [x, y])| <= BUFFER_LEN
    ensures
      var m, m' := Message(PDU, [x, y.(swcId := own)]), Message(PDU, [x, y]);
      && |m| == |m'|
      && var c := Cursor(Some(4), |m| - 4, true, 1, 2);
         var st := Stream(Placed(0, m), |m|, |m|);
         var after := Rewritten(st, m');
         && Framed(after.Rest())
         && Current(PDU, own, c, st) == []
         && Unread(PDU, own, after.Rest()) == [x, y]
         && Queue(PDU, own, c, after) == [y, x, y]
  {
    hide Encode, Decode, ValidSchema, Framed, Queue, Current, Unread;
    PduSchemaValid();
    var v, w := [x, y.(swcId := own)], [x, y];
    SameSize(w, 1, own);
    assert v == w[1 := w[1].(swcId := own)];
    SwcSent(x);
    SwcSent(y);
    SwcSent(v[1]);
    DeliveredTwice(PDU, own, v, w);
  }

  //////////////////////////////////////////////////////////////////////////////
  // CAN frames and PDUs in one stream
  //////////////////////////////////////////////////////////////////////////////

  /**
   A message of frames and a message of PDUs in one stream, in either order: a reader of frames
   delivers the frames and a reader of PDUs the PDUs, each less its own.
   */
  lemma MixedStream(frames: seq<Can.Frame>, pdus: seq<PduTable>, node: byte, swc: byte)
    requires |Encode(Can.CAN, frames)| < WORD && |Encode(PDU, pdus)| < WORD
    ensures
      var f, p := Message(Can.CAN, frames), Message(PDU, pdus);
      && Framed(f + p) && Framed(p + f)
      && Unread(Can.CAN, node, f + p) == Unread(Can.CAN, node, p + f) == Keep(Can.CAN, node, frames)
      && Unread(PDU, swc, f + p) == Unread(PDU, swc, p + f) == Keep(PDU, swc, pdus)
  {
    hide Encode, Decode, Message, Unread, Framed, Clean, Keep, ValidSchema;
    Can.CanSchemaValid();
    PduSchemaValid();
    var f, p := Message(Can.CAN, frames), Message(PDU, pdus);
    UnreadMessage(Can.CAN, node, frames);
    UnreadMessage(PDU, swc, pdus);
    ForeignMessage(Can.CAN, PDU, node, pdus);
    ForeignMessage(PDU, Can.CAN, swc, frames);
    UnreadConcat(Can.CAN, node, f, p);
    UnreadConcat(Can.CAN, node, p, f);
    UnreadConcat(PDU, swc, f, p);
    UnreadConcat(PDU, swc, p, f);
  }

  lemma ForeignMessage<E(!new), F(!new)>(sch: Schema<E>, other: Schema<F>, own: nat, v: seq<F>)
    requires ValidSchema(other) && |Encode(other, v)| < WORD && sch.ident != other.ident
    ensures Clean(sch, Message(other, v)) && Framed(Message(other, v))
    ensures Unread(sch, own, Message(other, v)) == []
  {
    hide Encode, Decode, Keep;
    MessageShape(other, v);
    NoMessage();
    assert HasIdentifier(other.ident, Encode(other, v));
  }
}
