/**
 One FMU of fmu.c: fmi2SetString, fmi2DoStep and fmi2GetString over a bus topology with one
 CAN codec.

 `Node` is what the calls make of the stream and the reset flag; the functions on it say what
 each call does. The builder is empty between calls, and the parsing state is that of the last
 fmi2DoStep.
 */
module Fmu {
  import opened Bytes
  import opened Streams
  import opened Wire
  import opened Codec
  import opened Can
  import opened Topology
  import Ascii85

  datatype Node = Node(st: Stream, resetCalled: bool)

  function AllReceived(st: Stream, payloads: seq<seq<byte>>): (r: Stream)
    requires st.Valid()
    ensures r.Valid()
    decreases |payloads|
  {
    if payloads == [] then st else AllReceived(Received(st, payloads[0]), payloads[1..])
  }

  /** fmi2SetString: one reset attempt, then the payloads of the indexed variables. */
  function NodeSet(n: Node, payloads: seq<seq<byte>>): (n': Node)
    requires n.st.Valid()
    ensures n'.st.Valid()
  {
    Node(AllReceived(if n.resetCalled then n.st else Truncated(n.st), payloads), true)
  }

  /** fmi2DoStep after reading: the stream is emptied and the frames written are flushed. */
  function NodeStep(sch: Schema<Frame>, n: Node, v: seq<Frame>): (n': Node)
    requires n.st.Valid()
    ensures n'.st.Valid()
  {
    n.(st := if v == [] then Truncated(n.st) else Truncated(n.st).Written(Message(sch, v)))
  }

  /** fmi2GetString of some variables, of which some or none are sent from the stream. */
  function NodeGet(n: Node, asked: bool, sent: bool): (n': Node)
    requires n.st.Valid()
    ensures n'.st.Valid()
  {
    Node(if sent then n.st.(pos := n.st.len) else n.st, n.resetCalled && !asked)
  }

  class Fmu {
    const topology: BusTopology<Frame>
    const ncodec: Codec<Frame>
    const ids: Ids

    ghost function Repr(): set<object>
    {
      {topology, ncodec, ncodec.stream, ncodec.stream.buffer}
    }

    /** Kept by every call in any order: nothing is waiting in the builder. */
    ghost predicate Valid()
      reads Repr()
    {
      Writing() && !ncodec.streamInitialized
    }

    /** The same with frames waiting in the builder, as between write and flush. */
    ghost predicate Writing()
      reads Repr()
    {
      && topology.codecs == {ncodec}
      && topology.Valid()
      && ncodec in topology.busNcodec.Values
      && ncodec.Valid()
      && ncodec.ownId == ids.nodeId
    }

    ghost function State(): (n: Node)
      requires ncodec.stream.Valid()
      reads topology, ncodec.stream, ncodec.stream.buffer
      ensures n.st.Valid()
    {
      Node(ncodec.stream.State(), topology.resetCalled)
    }

    /** fmi2ExitInitializationMode, with the node's ids and annotated variables as parameters. */
    constructor (
      sch: Schema<Frame>, ids: Ids, busId: string,
      rx: set<string>, tx: set<string>, encode: set<string>, decode: set<string>)
      ensures Valid() && this.ids == ids && ncodec.schema == sch && ncodec.Drained()
      ensures fresh(Repr())
      ensures !topology.resetCalled && ncodec.stream.len == 0 && ncodec.stream.pos == 0
      ensures topology.rxVrIndex.Keys == rx && topology.txVrIndex.Keys == tx
      ensures topology.encodeFunc == encode && topology.decodeFunc == decode
    {
      hide KeyOf, FreeListKept, ValidCursor, Extended;
      var stream := new BufferStream();
      var nc := new Codec<Frame>(sch, stream, ids.nodeId);
      var bt := new BusTopology<Frame>();
      bt.Add(busId, nc, rx, tx, encode, decode);
      topology, ncodec, this.ids := bt, nc, ids;
      new;
      assert topology.busNcodec[busId] == ncodec;
    }

    /** fmi2SetString: bus rx. */
    method SetString(vr: seq<nat>, value: seq<Option<seq<byte>>>)
      requires Valid() && |vr| == |value|
      requires forall i | 0 <= i < |vr| ::
        value[i].Some? && KeyOf(vr[i]) in topology.decodeFunc ==> Ascii85.WellFormed(value[i].value)
      modifies Repr()
      ensures Valid() && SameMaps() && SameParsing()
      ensures State() == NodeSet(old(State()), Inputs(topology.rxVrIndex.Keys, topology.decodeFunc, vr, value))
    {
      hide KeyOf, Payload, Received, Truncated, Inputs, AllReceived;
      ghost var rx, dec := topology.rxVrIndex.Keys, topology.decodeFunc;
      ResetTopology();
      ghost var start := ncodec.stream.State();
      assert vr[0..] == vr && value[0..] == value;
      for i := 0 to |vr|
        invariant Valid() && SameMaps() && SameParsing() && topology.resetCalled
        invariant AllReceived(ncodec.stream.State(), Inputs(rx, dec, vr[i..], value[i..]))
               == AllReceived(start, Inputs(rx, dec, vr, value))
      {
        InputsStep(rx, dec, vr, value, i, ncodec.stream.State());
        if value[i].None? { continue; }
        ReceiveOne(vr[i], value[i].value);
      }
      NoInputs(rx, dec, vr, value, ncodec.stream.State());
    }

    method ResetTopology()
      requires Valid()
      modifies Repr()
      ensures Valid() && SameMaps() && SameParsing() && topology.resetCalled
      ensures ncodec.stream.State() ==
        if old(topology.resetCalled) then old(ncodec.stream.State()) else Truncated(old(ncodec.stream.State()))
    {
      hide KeyOf, Truncated, FreeListKept, KeysHolding, ValidCursor;
      topology.Reset();
    }

    method ReceiveOne(vr: nat, data: seq<byte>)
      requires Valid()
      requires KeyOf(vr) in topology.decodeFunc ==> Ascii85.WellFormed(data)
      modifies ncodec.stream, ncodec.stream.buffer
      ensures Valid()
      ensures ncodec.stream.State() ==
        if KeyOf(vr) !in topology.rxVrIndex then old(ncodec.stream.State())
        else Received(old(ncodec.stream.State()), Payload(topology.decodeFunc, vr, data))
    {
      hide FreeListKept, ValidCursor, KeyOf, Payload, Received, Ascii85.WellFormed;
      topology.Rx(vr, data);
    }

    /** The indexes of the topology are those before the call. */
    twostate predicate SameMaps()
      reads topology
    {
      && topology.rxVrIndex == old(topology.rxVrIndex) && topology.txVrIndex == old(topology.txVrIndex)
      && topology.encodeFunc == old(topology.encodeFunc) && topology.decodeFunc == old(topology.decodeFunc)
    }

    /** And the parsing state of the codec is. */
    twostate predicate SameParsing()
      reads ncodec
    {
      ncodec.Parsing() == old(ncodec.Parsing())
    }

    /**
     fmi2DoStep: reads until -ENOMSG, truncates, writes the given messages and flushes. The
     frames read are all that the codec had to deliver, which for a drained codec are those of
     the stream; and it is drained then unless a message without a vector was in the way.
     */
    method DoStep(msgs: seq<CanMessage>) returns (received: seq<Frame>)
      requires Valid() && ncodec.WellFramed()
      modifies Repr()
      ensures Valid() && SameMaps()
      ensures received == old(ncodec.Pending())
      ensures old(ncodec.Drained()) ==>
        received == old(Unread(ncodec.schema, ids.nodeId, ncodec.stream.State().Rest()))
      ensures State() == NodeStep(ncodec.schema, old(State()), AllStamped(ids, msgs))
      ensures ncodec.Drained() <==> old(ncodec.WillDrain())
    {
      hide Unread, Truncated, Message, Queue, ValidCursor, FreeListKept, Ahead;
      if ncodec.Drained() { DrainedQueue(ncodec.schema, ids.nodeId, ncodec.Parsing(), ncodec.stream.State()); }
      received := ReadFrames();
      WriteFrames(msgs);
    }

    /** The read loop takes all there is before the codec is truncated. */
    method ReadFrames() returns (received: seq<Frame>)
      requires Valid() && ncodec.WellFramed()
      modifies ncodec, ncodec.stream
      ensures Valid()
      ensures received == old(ncodec.Pending())
      ensures ncodec.stream.State() == Truncated(old(ncodec.stream.State()))
      ensures ncodec.Drained() <==> old(ncodec.WillDrain())
    {
      hide Framed, Queue, Ahead, ValidCursor, KeyOf, FreeListKept, Decode;
      received := ncodec.ReadAll();
      ncodec.Truncate();
    }

    method WriteFrames(msgs: seq<CanMessage>)
      requires Valid()
      modifies ncodec`streamInitialized, ncodec`builder, ncodec.stream, ncodec.stream.buffer
      ensures Valid() && SameParsing()
      ensures ncodec.stream.State() ==
        if msgs == [] then old(ncodec.stream.State())
        else old(ncodec.stream.State()).Written(Message(ncodec.schema, AllStamped(ids, msgs)))
    {
      hide KeyOf, FreeListKept, Message;
      for i := 0 to |msgs|
        invariant Writing() && SameParsing() && ncodec.stream.State() == old(ncodec.stream.State())
        invariant ncodec.builder == AllStamped(ids, msgs[..i]) && (ncodec.streamInitialized <==> i > 0)
      {
        var _ := CanWrite(ncodec, ids, msgs[i]);
      }
      assert msgs[..|msgs|] == msgs;
      var _ := ncodec.Flush();
    }

    /** fmi2GetString: bus tx. Every variable sent carries the whole stream. */
    method GetString(vr: seq<nat>) returns (value: seq<Option<seq<byte>>>)
      requires Valid()
      modifies Repr()
      ensures Valid() && SameMaps() && SameParsing() && |value| == |vr|
      ensures forall i | 0 <= i < |vr| ::
        value[i] == OutputText(topology.txVrIndex.Keys, topology.encodeFunc, vr[i], old(ncodec.stream.State()).Data())
      ensures forall i | 0 <= i < |vr| ::
        var data := old(ncodec.stream.buffer[..ncodec.stream.len]);
        value[i] == if KeyOf(vr[i]) !in topology.txVrIndex then None
                    else if KeyOf(vr[i]) in topology.encodeFunc then Some(Ascii85.Encoded(data)) else Some(data)
      ensures State() == NodeGet(old(State()), vr != [], AnySent(topology.txVrIndex.Keys, vr))
    {
      hide KeyOf, OutputText, FreeListKept, ValidCursor, NodeGet, AnySent;
      ghost var tx, encode, data := topology.txVrIndex.Keys, topology.encodeFunc, ncodec.stream.State().Data();
      value := [];
      NoneSent(State(), tx);
      assert vr[..0] == [];
      for i := 0 to |vr|
        invariant Valid() && SameMaps() && SameParsing() && |value| == i && ncodec.stream.State().Data() == data
        invariant forall j | 0 <= j < i :: value[j] == OutputText(tx, encode, vr[j], data)
        invariant State() == NodeGet(old(State()), i > 0, AnySent(tx, vr[..i]))
      {
        var v := SendOne(vr[i]);
        value := value + [v];
        OneMoreSent(old(State()), tx, vr, i);
      }
      assert vr[..|vr|] == vr;
      forall i | 0 <= i < |vr| { TextGiven(tx, encode, vr[i], data); }
    }

    method SendOne(vr: nat) returns (value: Option<seq<byte>>)
      requires Valid()
      modifies Repr()
      ensures Valid() && SameMaps() && SameParsing()
      ensures value == OutputText(topology.txVrIndex.Keys, topology.encodeFunc, vr, old(ncodec.stream.State()).Data())
      ensures State() == NodeGet(old(State()), true, KeyOf(vr) in topology.txVrIndex.Keys)
      ensures ncodec.stream.State().Data() == old(ncodec.stream.State().Data())
    {
      hide KeyOf, Text, FreeListKept, ValidCursor;
      var data, len := topology.Tx(vr);
      value := if data == null then None else Some(data[..len]);
    }
  }

  /** The text of a variable that is sent; any other is NULL. */
  function OutputText(tx: set<string>, encode: set<string>, vr: nat, data: seq<byte>): Option<seq<byte>>
  {
    if KeyOf(vr) in tx then Some(Text(encode, vr, data)) else None
  }

  lemma TextGiven(tx: set<string>, encode: set<string>, vr: nat, data: seq<byte>)
    ensures OutputText(tx, encode, vr, data) ==
      if KeyOf(vr) !in tx then None
      else if KeyOf(vr) in encode then Some(Ascii85.Encoded(data)) else Some(data)
  {
  }

  predicate AnySent(tx: set<string>, vr: seq<nat>)
  {
    exists v | v in vr :: KeyOf(v) in tx
  }

  lemma NoneSent(n: Node, tx: set<string>)
    requires n.st.Valid()
    ensures NodeGet(n, false, AnySent(tx, [])) == n
  {
  }

  lemma OneMoreSent(n: Node, tx: set<string>, vr: seq<nat>, i: nat)
    requires n.st.Valid() && i < |vr|
    ensures NodeGet(NodeGet(n, i > 0, AnySent(tx, vr[..i])), true, KeyOf(vr[i]) in tx)
         == NodeGet(n, true, AnySent(tx, vr[..i + 1]))
  {
    hide KeyOf;
    assert vr[..i + 1] == vr[..i] + [vr[i]];
  }

  lemma DrainedQueue(sch: Schema<Frame>, own: nat, c: Cursor, st: Stream)
    requires ValidCursor(c) && st.Valid() && Framed(st.Rest()) && c.msgPtr.None?
    ensures Queue(sch, own, c, st) == Unread(sch, own, st.Rest())
    ensures Ahead(sch, c, st) == NeverSticks(sch, st.Rest())
  {
    hide Framed;
    OnlyStreamAhead(sch, own, c, st);
  }

  /** The payloads that the indexed variables among vr bring, in order. */
  function Inputs(rx: set<string>, decode: set<string>, vr: seq<nat>, value: seq<Option<seq<byte>>>): seq<seq<byte>>
    requires |vr| == |value|
  {
    if vr == [] then []
    else
      (if value[0].Some? && KeyOf(vr[0]) in rx then [Payload(decode, vr[0], value[0].value)] else [])
      + Inputs(rx, decode, vr[1..], value[1..])
  }

  /**
   A value is received if it is not NULL and its variable is indexed: as it is, or decoded if the
   variable is configured for that.
   */
  lemma InputOfOne(rx: set<string>, decode: set<string>, vr: nat, value: Option<seq<byte>>)
    ensures Inputs(rx, decode, [vr], [value]) ==
      if value.None? || KeyOf(vr) !in rx then []
      else if KeyOf(vr) in decode then [Ascii85.Decoded(value.value)]
      else [value.value]
  {
    hide KeyOf;
    assert Inputs(rx, decode, [vr][1..], [value][1..]) == [];
  }

  /** And values are received in the order of the call. */
  lemma {:induction false} InputsConcat(
    rx: set<string>, decode: set<string>, vr: seq<nat>, value: seq<Option<seq<byte>>>,
    vr': seq<nat>, value': seq<Option<seq<byte>>>)
    requires |vr| == |value| && |vr'| == |value'|
    ensures Inputs(rx, decode, vr + vr', value + value')
         == Inputs(rx, decode, vr, value) + Inputs(rx, decode, vr', value')
    decreases |vr|
  {
    hide KeyOf, Payload;
    if vr == [] {
      assert vr + vr' == vr' && value + value' == value';
    } else {
      assert (vr + vr')[1..] == vr[1..] + vr' && (value + value')[1..] == value[1..] + value';
      InputsConcat(rx, decode, vr[1..], value[1..], vr', value');
    }
  }

  lemma NoInputs(rx: set<string>, dec: set<string>, vr: seq<nat>, value: seq<Option<seq<byte>>>, st: Stream)
    requires |vr| == |value| && st.Valid()
    ensures AllReceived(st, Inputs(rx, dec, vr[|vr|..], value[|vr|..])) == st
  {
  }

  lemma InputsStep(rx: set<string>, dec: set<string>, vr: seq<nat>, value: seq<Option<seq<byte>>>, i: nat, st: Stream)
    requires i < |vr| == |value| && st.Valid()
    ensures
      var st' := if value[i].Some? && KeyOf(vr[i]) in rx then Received(st, Payload(dec, vr[i], value[i].value)) else st;
      AllReceived(st, Inputs(rx, dec, vr[i..], value[i..]))
        == AllReceived(st', Inputs(rx, dec, vr[i + 1..], value[i + 1..]))
  {
    hide KeyOf, Payload, Received;
    var rest := Inputs(rx, dec, vr[i + 1..], value[i + 1..]);
    assert vr[i..][1..] == vr[i + 1..] && value[i..][1..] == value[i + 1..];
    if value[i].Some? && KeyOf(vr[i]) in rx {
      var p := Payload(dec, vr[i], value[i].value);
      assert Inputs(rx, dec, vr[i..], value[i..]) == [p] + rest;
      assert ([p] + rest)[1..] == rest;
    } else {
      assert Inputs(rx, dec, vr[i..], value[i..]) == [] + rest == rest;
    }
  }
}
