/**
 The CAN codec of frame_can_fbs.c: the frames of an SFRA message, how can_write stamps a
 message with its sender, and what can_read hands to the caller.

 The body layout here is one concrete instance of a schema, with a round trip proved for
 every vector; everything else holds for any valid schema.
 */
module Can {
  import opened Bytes
  import opened Wire
  import opened Streams
  import opened Codec

  type uint32 = x: int | 0 <= x < WORD

  const SFRA: seq<byte> := [83, 70, 82, 65]
  const CAN_BASE_FRAME: byte := 0

  datatype CanFrame = CanFrame(
    frameId: uint32, frameType: byte, payload: seq<byte>, busId: byte, nodeId: byte, interfaceId: byte)

  /** An element of the frames vector: its union is absent, of another frame type, or a CAN frame. */
  datatype Frame = Absent | Other(kind: byte) | Can(frame: CanFrame)

  function SenderOf(f: Frame): Option<nat>
  {
    if f.Can? then Some(f.frame.nodeId) else None
  }

  //////////////////////////////////////////////////////////////////////////////
  // A concrete body layout
  //////////////////////////////////////////////////////////////////////////////

  function PutFrame(f: Frame): seq<byte>
  {
    match f
    case Absent => [0]
    case Other(kind) => [1, kind]
    case Can(c) =>
      [2] + LittleEndian(c.frameId) + [c.frameType, c.busId, c.nodeId, c.interfaceId] + PutBytes(c.payload)
  }

  function GetFrame(s: seq<byte>): (r: Option<(Frame, seq<byte>)>)
    ensures r.Some? ==> |r.value.1| < |s|
  {
    if s == [] then None
    else if s[0] == 0 then Some((Absent, s[1..]))
    else if s[0] == 1 then if |s| < 2 then None else Some((Other(s[1]), s[2..]))
    else if |s| < 9 then None
    else
      match GetBytes(s[9..])
      case None => None
      case Some((p, rest)) =>
        Some((Can(CanFrame(FromLittleEndian(s[1..5]), s[5], p, s[6], s[7], s[8])), rest))
  }

  lemma GetPutFrame(f: Frame, rest: seq<byte>)
    ensures GetFrame(PutFrame(f) + rest) == Some((f, rest))
  {
    hide LittleEndian, FromLittleEndian, PutBytes, GetBytes;
    var s := PutFrame(f) + rest;
    match f
    case Absent => assert s[1..] == rest;
    case Other(kind) => assert s[2..] == rest;
    case Can(c) => GetPutCan(c, rest);
  }

  lemma GetPutCan(c: CanFrame, rest: seq<byte>)
    ensures GetFrame(PutFrame(Can(c)) + rest) == Some((Can(c), rest))
  {
    hide LittleEndian, FromLittleEndian, PutBytes, GetBytes;
    var id, payload := LittleEndian(c.frameId), PutBytes(c.payload);
    var s := PutFrame(Can(c)) + rest;
    LittleEndianRoundTrip(c.frameId);
    GetPutBytes(c.payload, rest);
    assert s == [2] + id + [c.frameType, c.busId, c.nodeId, c.interfaceId] + (payload + rest);
    assert s[1..5] == id && s[9..] == payload + rest;
  }

  function PutFrames(v: seq<Frame>): seq<byte>
  {
    if v == [] then [] else PutFrame(v[0]) + PutFrames(v[1..])
  }

  function GetFrames(s: seq<byte>): Option<seq<Frame>>
    decreases |s|
  {
    if s == [] then Some([])
    else
      match GetFrame(s)
      case None => None
      case Some((f, rest)) =>
        match GetFrames(rest)
        case None => None
        case Some(v) => Some([f] + v)
  }

  lemma {:induction false} GetPutFrames(v: seq<Frame>)
    ensures GetFrames(PutFrames(v)) == Some(v)
  {
    hide PutFrame, GetFrame;
    if v != [] {
      GetPutFrame(v[0], PutFrames(v[1..]));
      GetPutFrames(v[1..]);
      assert PutFrames(v) != [] by { GetPutFrame(v[0], []); }
      assert v == [v[0]] + v[1..];
    }
  }

  /** Root offset, identifier, and the vector behind a presence byte. */
  function EncodeBody(v: seq<Frame>): seq<byte>
  {
    [0, 0, 0, 0] + SFRA + [1] + PutFrames(v)
  }

  function DecodeBody(body: seq<byte>): Option<seq<Frame>>
  {
    if |body| < 9 || body[8] != 1 then None else GetFrames(body[9..])
  }

  const CAN: Schema<Frame> := Schema(SFRA, v => EncodeBody(v), body => DecodeBody(body), f => SenderOf(f))

  /** Any layout of frames vectors with the round-trip contract. */
  ghost predicate FrameSchema(sch: Schema<Frame>)
  {
    ValidSchema(sch) && forall f: Frame :: Sender(sch, f) == SenderOf(f)
  }

  /** The concrete layout meets the round-trip contract of a schema. */
  lemma CanSchemaValid()
    ensures FrameSchema(CAN)
    ensures forall v: seq<Frame> :: |Encode(CAN, v)| >= 8 && Encode(CAN, v)[4..8] == [83, 70, 82, 65]
  {
    hide PutFrames, GetFrames;
    forall v: seq<Frame>
      ensures HasIdentifier(CAN.ident, Encode(CAN, v)) && Decode(CAN, Encode(CAN, v)) == Some(v)
    {
      var body := EncodeBody(v);
      GetPutFrames(v);
      assert body[4..8] == SFRA && body[9..] == PutFrames(v);
    }
  }

  //////////////////////////////////////////////////////////////////////////////
  // Truncation in this layout
  //////////////////////////////////////////////////////////////////////////////

  lemma {:induction false} PutFramesConcat(a: seq<Frame>, b: seq<Frame>)
    ensures PutFrames(a + b) == PutFrames(a) + PutFrames(b)
  {
    hide PutFrame;
    if a == [] {
      assert a + b == b;
    } else {
      assert (a + b)[1..] == a[1..] + b;
      PutFramesConcat(a[1..], b);
    }
  }

  function AbsentFrames(k: nat): (v: seq<Frame>)
    ensures |v| == k
  {
    if k == 0 then [] else [Absent] + AbsentFrames(k - 1)
  }

  lemma {:induction false} AbsentBytes(k: nat)
    ensures |PutFrames(AbsentFrames(k))| == k
  {
    if k > 0 {
      AbsentBytes(k - 1);
      assert AbsentFrames(k)[1..] == AbsentFrames(k - 1);
    }
  }

  /** The shortest frame that a reader with this id wants. */
  function Shortest(own: byte): Frame
  {
    Can(CanFrame(0, 0, [], 0, if own == 1 then 2 else 1, 0))
  }

  lemma ShortestWanted(own: byte)
    ensures Wanted(CAN, own, Shortest(own)) && |PutFrame(Shortest(own))| == 10
  {
    assert PutBytes([]) == [0];
  }

  lemma CanReplaceable(own: byte, n: nat, i: nat)
    requires n >= 19 + i
    ensures Replaceable(CAN, own, n, i)
  {
    hide PutFrame, Wanted, PutFrames;
    var f, a, b := Shortest(own), AbsentFrames(i), AbsentFrames(n - 19 - i);
    var v := a + ([f] + b);
    ShortestWanted(own);
    AbsentBytes(i);
    AbsentBytes(n - 19 - i);
    PutFramesConcat(a, [f] + b);
    PutFramesConcat([f], b);
    PutOneFrame(f);
    assert v[i] == f;
    assert |Encode(CAN, v)| == n;
  }

  lemma PutOneFrame(f: Frame)
    ensures PutFrames([f]) == PutFrame(f)
  {
    hide PutFrame;
    assert PutFrames([f][1..]) == [];
  }

  lemma {:induction false} FramesTakeBytes(s: seq<byte>, v: seq<Frame>)
    requires GetFrames(s) == Some(v)
    ensures |s| >= |v|
    ensures (exists i :: 0 <= i < |v| && v[i].Can?) ==> |s| >= |v| + 9
    decreases |s|
  {
    hide GetFrame;
    if s != [] {
      var (f, rest) := GetFrame(s).value;
      assert v == [f] + GetFrames(rest).value;
      FramesTakeBytes(rest, v[1..]);
      if f.Can? { FrameTakesBytes(s); }
      if i :| 0 <= i < |v| && v[i].Can? {
        if i > 0 { assert v[1..][i - 1].Can?; }
      }
    }
  }

  lemma FrameTakesBytes(s: seq<byte>)
    requires GetFrame(s).Some? && GetFrame(s).value.0.Can?
    ensures |s| >= |GetFrame(s).value.1| + 10
  {
    hide GetBytes;
  }

  /**
   In every state that calls of can_read leave: a truncated codec delivers exactly what is
   written from then on, whatever that is, if and only if its parsing state is settled.
   */
  lemma CanTruncation(own: byte, c: Cursor, st: Stream)
    requires ValidCursor(c) && Reachable(c) && st.Valid() && Resting(CAN, own, c, st)
    ensures AsFresh(CAN, own, c, st) <==> Settled(c)
  {
    hide AsFresh, Replaceable, GetFrames, PutFrames, PutFrame, Keep, LittleEndian;
    CanSchemaValid();
    if !Settled(c) && !c.vector && c.msgLen < 19 {
      StaysStuck(own, c, st);
    } else {
      if !Settled(c) {
        if c.vector { BehindDelivered(own, c, st); }
        CanReplaceable(own, c.msgLen, NextIndex(c));
      }
      TruncateIff(CAN, own, c, st);
    }
  }

  /** A message of another schema, of zeros. */
  const FOREIGN: seq<byte> := [60, 0, 0, 0] + seq(60, _ => 0)

  lemma ForeignIsClean()
    ensures Clean(CAN, FOREIGN) && Framed(FOREIGN) && forall own: byte :: Unread(CAN, own, FOREIGN) == []
  {
    assert FOREIGN[..4] == [60, 0, 0, 0];
    assert PrefixOf(FOREIGN) == 60 && FOREIGN[4 + 60..] == [];
    NoMessage();
    assert BodyOf(FOREIGN) == FOREIGN[4..64];
    assert BodyOf(FOREIGN)[4..8][0] == FOREIGN[8] == 0 != SFRA[0];
  }

  /** Stuck on a message too short for any frame, it stays stuck when another is written. */
  lemma StaysStuck(own: byte, c: Cursor, st: Stream)
    requires ValidCursor(c) && Reachable(c) && st.Valid() && Stuck(CAN, c, st) && c.msgLen < 19
    ensures !AsFresh(CAN, own, c, st)
  {
    hide PutFrames, PutFrame, Keep, LittleEndian, Framed, Unread, Clean, ValidSchema;
    var v := [Shortest(own)];
    var m := Message(CAN, v);
    CanSchemaValid();
    ShortestWanted(own);
    PutOneFrame(Shortest(own));
    KeepAll(CAN, own, v);
    if |m| <= c.msgPtr.value {
      StuckIsNotFresh(CAN, own, c, st, v);
    } else {
      var d := FOREIGN + m;
      ForeignIsClean();
      UnreadMessage(CAN, own, v);
      UnreadConcat(CAN, own, FOREIGN, m);
      StuckOnZeros(c, Rewritten(st, d));
      assert Queue(CAN, own, c, Rewritten(st, d)) == [];
    }
  }

  lemma StuckOnZeros(c: Cursor, st: Stream)
    requires ValidCursor(c) && Reachable(c) && st.Valid() && c.msgPtr.Some? && !c.vector && c.msgLen < 19
    requires c.msgPtr.value < 23 && FOREIGN <= st.buffer
    ensures Stuck(CAN, c, st)
  {
    hide GetFrames;
    var body := BodyAt(c, st);
    if |body| > 8 { assert body[8] == st.buffer[c.msgPtr.value + 8] == FOREIGN[c.msgPtr.value + 8] == 0; }
  }

  lemma BehindDelivered(own: byte, c: Cursor, st: Stream)
    requires ValidCursor(c) && st.Valid() && Resting(CAN, own, c, st) && c.vector && c.vectorIdx < c.vectorLen
    ensures c.msgLen >= 19 + c.vectorIdx
  {
    hide GetFrames;
    var body := BodyAt(c, st);
    var v := Decode(CAN, body).value;
    assert v[c.vectorIdx - 1].Can?;
    FramesTakeBytes(body[9..], v);
  }

  //////////////////////////////////////////////////////////////////////////////
  // can_write and can_read
  //////////////////////////////////////////////////////////////////////////////

  /** The sender metadata of a codec. */
  datatype Ids = Ids(busId: byte, nodeId: byte, interfaceId: byte)

  /** What a caller of can_write sets. */
  datatype CanMessage = CanMessage(frameId: uint32, frameType: byte, payload: seq<byte>)

  function Stamped(ids: Ids, m: CanMessage): Frame
  {
    Can(CanFrame(m.frameId, m.frameType, m.payload, ids.busId, ids.nodeId, ids.interfaceId))
  }

  function AllStamped(ids: Ids, ms: seq<CanMessage>): (v: seq<Frame>)
    ensures |v| == |ms|
    ensures forall i | 0 <= i < |v| :: v[i] == Stamped(ids, ms[i])
  {
    seq(|ms|, i requires 0 <= i < |ms| => Stamped(ids, ms[i]))
  }

  method CanWrite(nc: Codec<Frame>, ids: Ids, msg: CanMessage) returns (n: nat)
    requires nc.Valid() && ids.nodeId == nc.ownId
    modifies nc`streamInitialized, nc`builder
    ensures nc.Valid() && nc.streamInitialized
    ensures nc.builder == old(nc.builder) + [Stamped(ids, msg)]
    ensures
      var e := nc.builder[|nc.builder| - 1];
      && nc.builder[..|nc.builder| - 1] == old(nc.builder) && e.Can?
      && e.frame.frameId == msg.frameId && e.frame.frameType == msg.frameType && e.frame.payload == msg.payload
      && e.frame.busId == ids.busId && e.frame.nodeId == ids.nodeId && e.frame.interfaceId == ids.interfaceId
    ensures n == |msg.payload|
  {
    nc.Write(Stamped(ids, msg));
    n := |msg.payload|;
  }

  /** The NCodecCanMessage of a caller of can_read. */
  class NCodecCanMessage {
    var frameId: uint32
    var frameType: byte
    var buffer: Option<seq<byte>>
    var len: nat
    var sender: Ids

    constructor ()
    {
      frameId, frameType, buffer, len, sender := 0, 0, None, 0, Ids(0, 0, 0);
    }
  }

  /** The head of the queue is a CAN frame and is handed over field by field, else -ENOMSG. */
  method CanRead(nc: Codec<Frame>, msg: NCodecCanMessage) returns (r: int)
    requires nc.Valid() && nc.WellFramed() && FrameSchema(nc.schema)
    modifies nc`msgPtr, nc`msgLen, nc`vector, nc`vectorIdx, nc`vectorLen, nc.stream`pos, nc.stream`len, msg
    ensures nc.Valid() && nc.WellFramed()
    ensures
      var q := old(nc.Pending());
      if q == [] then
        && r == -42 && nc.Pending() == []
        && msg.len == 0 && msg.buffer == None && msg.frameType == 0
        && msg.frameId == old(msg.frameId) && msg.sender == old(msg.sender)
      else
        && nc.Pending() == q[1..] && msg.buffer.Some? && r == msg.len == |msg.buffer.value|
        && q[0].Can?
        && msg.frameId == q[0].frame.frameId && msg.frameType == q[0].frame.frameType
        && msg.buffer == Some(q[0].frame.payload)
        && msg.sender.busId == q[0].frame.busId && msg.sender.nodeId == q[0].frame.nodeId
        && msg.sender.interfaceId == q[0].frame.interfaceId
        && !(nc.ownId != 0 && msg.sender.nodeId == nc.ownId)
    ensures nc.stream.len == old(nc.stream.len)
    ensures old(nc.Drained() && Offers(nc.schema, nc.ownId, nc.stream.State().Rest())) ==>
      nc.stream.State().Rest() == old(BehindFirst(nc.schema, nc.ownId, nc.stream.State().Rest()))
  {
    hide ValidCursor, Queue, Framed, Offers, BehindFirst, Resting;
    msg.len, msg.frameType, msg.buffer := 0, CAN_BASE_FRAME, None;
    ghost var q := nc.Pending();
    var found := nc.Read();
    if found.None? { return -ENOMSG; }
    QueueWanted(nc.schema, nc.ownId, old(nc.Parsing()), old(nc.stream.State()));
    assert Wanted(nc.schema, nc.ownId, found.value);
    assert SenderOf(found.value) == Sender(nc.schema, found.value);
    var f := found.value.frame;
    msg.frameId, msg.frameType, msg.buffer, msg.len := f.frameId, f.frameType, Some(f.payload), |f.payload|;
    msg.sender := Ids(f.busId, f.nodeId, f.interfaceId);
    return msg.len;
  }

  //////////////////////////////////////////////////////////////////////////////
  // Frames that outlive a truncation
  //////////////////////////////////////////////////////////////////////////////

  /** Frames are written, flushed as one message, and the stream is moved to its start. */
  method SendAll(ids: Ids, msgs: seq<CanMessage>) returns (stream: BufferStream)
    requires msgs != [] && |Message(CAN, AllStamped(ids, msgs))| <= BUFFER_LEN
    ensures fresh(stream) && stream.Valid() && fresh(stream.buffer)
    ensures stream.State().Rest() == Message(CAN, AllStamped(ids, msgs))
  {
    hide Message, ValidCursor;
    stream := new BufferStream();
    ghost var empty := stream.State();
    var writer := new Codec<Frame>(CAN, stream, ids.nodeId);
    for i := 0 to |msgs|
      invariant writer.Valid() && writer.ownId == ids.nodeId && stream.State() == empty
      invariant writer.builder == AllStamped(ids, msgs[..i]) && (writer.streamInitialized <==> i > 0)
    {
      var _ := CanWrite(writer, ids, msgs[i]);
    }
    assert msgs[..|msgs|] == msgs;
    var _ := writer.Flush();
    WriteAtEnd(empty, Message(CAN, AllStamped(ids, msgs)));
    assert empty.Data() == [];
    var _ := stream.Seek(0, SEEK_SET);
  }

  /** What a new reader finds in that message. */
  lemma FramesSent(ids: Ids, own: byte, msgs: seq<CanMessage>, st: Stream)
    requires msgs != [] && (own == 0 || own != ids.nodeId)
    requires st.Valid() && st.Rest() == Message(CAN, AllStamped(ids, msgs))
    ensures
      var s := st.Rest();
      && Framed(s) && Offers(CAN, own, s) && BehindFirst(CAN, own, s) == []
      && Queue(CAN, own, NO_MESSAGE, st) == AllStamped(ids, msgs)
  {
    hide LittleEndian, GetFrames, PutFrames, Framed, Keep;
    CanSchemaValid();
    var v := AllStamped(ids, msgs);
    UnreadMessage(CAN, own, v);
    MessageShape(CAN, v);
    assert Decode(CAN, Encode(CAN, v)) == Some(v) && HasIdentifier(SFRA, Encode(CAN, v));
    KeepAll(CAN, own, v);
    NothingKept(CAN, own);
  }

  /** With nothing left in the stream, truncation takes nothing from the queue. */
  lemma QueueSurvives(sch: Schema<Frame>, own: byte, c: Cursor, st: Stream)
    requires ValidCursor(c) && st.Valid() && st.Rest() == [] && Framed(st.Rest())
    ensures
      var t := st.(len := 0, pos := 0);
      Framed(t.Rest()) && Queue(sch, own, c, t) == Queue(sch, own, c, st)
  {
    hide Framed, Keep, Decode;
    assert st.(len := 0, pos := 0).Rest() == [];
  }

  /** One frame is taken from the only message, and the stream truncated. */
  method TakeOne(nc: Codec<Frame>)
    requires nc.Valid() && nc.WellFramed() && FrameSchema(nc.schema) && nc.Drained()
    requires Offers(nc.schema, nc.ownId, nc.stream.State().Rest())
    requires BehindFirst(nc.schema, nc.ownId, nc.stream.State().Rest()) == [] && nc.Pending() != []
    modifies nc, nc.stream
    ensures nc.Valid() && nc.WellFramed() && nc.stream.len == 0
    ensures nc.Pending() == old(nc.Pending())[1..]
  {
    hide Queue, Framed, Offers, BehindFirst, Resting, Ahead, FrameSchema, ValidCursor;
    var first := new NCodecCanMessage();
    var _ := CanRead(nc, first);
    QueueSurvives(nc.schema, nc.ownId, nc.Parsing(), nc.stream.State());
    nc.Truncate();
  }

  /**
   Why a reader must drain before it truncates: the reader takes the first of some frames and
   truncates; with the stream empty it is still given all the others.
   */
  method StaleFrames(ids: Ids, own: byte, msgs: seq<CanMessage>) returns (left: nat, stale: seq<Frame>)
    requires msgs != [] && (own == 0 || own != ids.nodeId)
    requires |Message(CAN, AllStamped(ids, msgs))| <= BUFFER_LEN
    ensures left == 0 && stale == AllStamped(ids, msgs)[1..]
  {
    hide Queue, Framed, Message, ValidCursor, Offers, BehindFirst, Ahead, FrameSchema, AllStamped;
    CanSchemaValid();
    var stream := SendAll(ids, msgs);
    FramesSent(ids, own, msgs, stream.State());
    var reader := new Codec<Frame>(CAN, stream, own);
    TakeOne(reader);
    left := stream.len;
    stale := reader.ReadAll();
  }
}
