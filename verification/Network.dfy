/**
 A network of FMUs: an importer copies the text each FMU last gave by fmi2GetString into the
 rx variables of others by fmi2SetString, and runs fmi2DoStep.

 `Net` is the network as the code runs it, in bytes: streams, ASCII85 texts, truncations.
 `Mail` is the simple form, in frames: boxes of limited size that hold frames, and published
 parcels of frames. Every run of the first delivers what the second delivers, for any
 interleaving and any order of calls, also when values are dropped for lack of room.
 */
module Network {
  import opened Bytes
  import opened Streams
  import opened Wire
  import opened Codec
  import opened Can
  import opened Topology
  import opened Fmu
  import Ascii85

  /** One fmi2SetString, fmi2DoStep or fmi2GetString call on FMU i. */
  datatype Action =
    | Set(i: nat, sources: seq<nat>)
    | Step(i: nat, msgs: seq<CanMessage>)
    | Get(i: nat)

  /** The frames one fmi2DoStep of FMU i read. */
  datatype Delivery = Delivery(i: nat, frames: seq<Frame>)

  predicate InRange(a: Action, n: nat)
  {
    a.i < n && (a.Set? ==> forall k | 0 <= k < |a.sources| :: a.sources[k] < n)
  }

  //////////////////////////////////////////////////////////////////////////////
  // The network in bytes
  //////////////////////////////////////////////////////////////////////////////

  datatype Net = Net(nodes: seq<Node>, outputs: seq<Option<seq<byte>>>)

  predicate NetValid(net: Net, n: nat)
  {
    |net.nodes| == |net.outputs| == n && forall i | 0 <= i < n :: net.nodes[i].st.Valid()
  }

  /** The importer passes no value for an output that was never got. */
  function Payloads(outputs: seq<Option<seq<byte>>>, sources: seq<nat>): seq<seq<byte>>
    requires forall k | 0 <= k < |sources| :: sources[k] < |outputs|
  {
    if sources == [] then []
    else
      (if outputs[sources[0]].Some? then [Ascii85.Decoded(outputs[sources[0]].value)] else [])
      + Payloads(outputs, sources[1..])
  }

  /**
   Seen from the FMU object: rx variables wired to the given sources, each configured for
   ascii85, bring exactly these payloads to fmi2SetString.
   */
  lemma {:induction false} WiredInputs(
    rx: set<string>, decode: set<string>, vr: seq<nat>, value: seq<Option<seq<byte>>>,
    outputs: seq<Option<seq<byte>>>, sources: seq<nat>)
    requires |vr| == |value| == |sources|
    requires forall k | 0 <= k < |sources| :: sources[k] < |outputs| && value[k] == outputs[sources[k]]
    requires forall k | 0 <= k < |vr| :: KeyOf(vr[k]) in rx && KeyOf(vr[k]) in decode
    ensures Inputs(rx, decode, vr, value) == Payloads(outputs, sources)
    decreases |vr|
  {
    hide KeyOf, Ascii85.Decoded;
    if vr != [] { WiredInputs(rx, decode, vr[1..], value[1..], outputs, sources[1..]); }
  }

  function NodeOf(sch: Schema<Frame>, ids: seq<Ids>, net: Net, a: Action): (n: Node)
    requires NetValid(net, |ids|) && InRange(a, |ids|)
    ensures n.st.Valid()
  {
    match a
    case Set(i, sources) => NodeSet(net.nodes[i], Payloads(net.outputs, sources))
    case Step(i, msgs) => NodeStep(sch, net.nodes[i], AllStamped(ids[i], msgs))
    case Get(i) => NodeGet(net.nodes[i], true, true)
  }

  function NetStep(sch: Schema<Frame>, ids: seq<Ids>, net: Net, a: Action): (net': Net)
    requires NetValid(net, |ids|) && InRange(a, |ids|)
    ensures NetValid(net', |ids|)
  {
    Net(
      net.nodes[a.i := NodeOf(sch, ids, net, a)],
      if a.Get? then net.outputs[a.i := Some(Ascii85.Encoded(net.nodes[a.i].st.Data()))] else net.outputs)
  }

  function NetDelivers(sch: Schema<Frame>, ids: seq<Ids>, net: Net, a: Action): seq<Delivery>
    requires NetValid(net, |ids|) && InRange(a, |ids|)
  {
    if a.Step? && Framed(net.nodes[a.i].st.Rest())
    then [Delivery(a.i, Unread(sch, ids[a.i].nodeId, net.nodes[a.i].st.Rest()))]
    else []
  }

  //////////////////////////////////////////////////////////////////////////////
  // The network in frames
  //////////////////////////////////////////////////////////////////////////////

  /** Frames, and the bytes they take in a stream. */
  datatype Parcel = Parcel(frames: seq<Frame>, size: nat)

  datatype Box = Box(content: Parcel, unread: seq<Frame>, resetCalled: bool)

  datatype Mail = Mail(boxes: seq<Box>, published: seq<Option<Parcel>>)

  const NOTHING := Parcel([], 0)

  /** What a step leaves in the box: the frames as one message if it fits, else nothing. */
  function Posted(sch: Schema<Frame>, v: seq<Frame>): (p: Parcel)
    ensures p.size <= BUFFER_LEN
  {
    if v == [] || |Message(sch, v)| > BUFFER_LEN then NOTHING else Parcel(v, |Message(sch, v)|)
  }

  /** An arrival is added whole or dropped whole. */
  function Added(content: Parcel, p: Parcel): Parcel
  {
    if content.size + p.size > BUFFER_LEN then content
    else Parcel(content.frames + p.frames, content.size + p.size)
  }

  function Arrivals(published: seq<Option<Parcel>>, sources: seq<nat>): seq<Parcel>
    requires forall k | 0 <= k < |sources| :: sources[k] < |published|
  {
    if sources == [] then []
    else (if published[sources[0]].Some? then [published[sources[0]].value] else []) + Arrivals(published, sources[1..])
  }

  /** Every arrival makes the whole content unread again. */
  function AllAdded(b: Box, arrivals: seq<Parcel>): Box
    decreases |arrivals|
  {
    if arrivals == [] then b
    else
      var content := Added(b.content, arrivals[0]);
      AllAdded(b.(content := content, unread := content.frames), arrivals[1..])
  }

  function BoxOf(sch: Schema<Frame>, ids: seq<Ids>, mail: Mail, a: Action): Box
    requires |mail.boxes| == |mail.published| == |ids| && InRange(a, |ids|)
  {
    var b := mail.boxes[a.i];
    match a
    case Set(i, sources) =>
      AllAdded(if b.resetCalled then b else Box(NOTHING, [], true), Arrivals(mail.published, sources))
    case Step(i, msgs) => Box(Posted(sch, AllStamped(ids[i], msgs)), [], b.resetCalled)
    case Get(i) => Box(b.content, [], false)
  }

  function MailStep(sch: Schema<Frame>, ids: seq<Ids>, mail: Mail, a: Action): (mail': Mail)
    requires |mail.boxes| == |mail.published| == |ids| && InRange(a, |ids|)
    ensures |mail'.boxes| == |mail'.published| == |ids|
  {
    Mail(
      mail.boxes[a.i := BoxOf(sch, ids, mail, a)],
      if a.Get? then mail.published[a.i := Some(mail.boxes[a.i].content)] else mail.published)
  }

  function MailDelivers(sch: Schema<Frame>, ids: seq<Ids>, mail: Mail, a: Action): seq<Delivery>
    requires |mail.boxes| == |mail.published| == |ids| && InRange(a, |ids|)
  {
    if a.Step? then [Delivery(a.i, Keep(sch, ids[a.i].nodeId, mail.boxes[a.i].unread))] else []
  }

  //////////////////////////////////////////////////////////////////////////////
  // Simulation
  //////////////////////////////////////////////////////////////////////////////

  /** Bytes s are clean messages that hold the given frames. */
  predicate Means(sch: Schema<Frame>, s: seq<byte>, frames: seq<Frame>)
  {
    Clean(sch, s) && Framed(s) && Unread(sch, 0, s) == frames
  }

  predicate NodeMeans(sch: Schema<Frame>, n: Node, b: Box)
  {
    && n.st.Valid()
    && Means(sch, n.st.Data(), b.content.frames) && n.st.len == b.content.size
    && Means(sch, n.st.Rest(), b.unread)
    && n.resetCalled == b.resetCalled
  }

  predicate ParcelMeans(sch: Schema<Frame>, s: seq<byte>, p: Parcel)
  {
    Means(sch, s, p.frames) && |s| == p.size
  }

  predicate TextMeans(sch: Schema<Frame>, t: Option<seq<byte>>, p: Option<Parcel>)
  {
    if t.None? || p.None? then t.None? && p.None?
    else Ascii85.WellFormed(t.value) && ParcelMeans(sch, Ascii85.Decoded(t.value), p.value)
  }

  predicate NetMeans(sch: Schema<Frame>, net: Net, mail: Mail, n: nat)
  {
    && NetValid(net, n) && |mail.boxes| == |mail.published| == n
    && (forall i | 0 <= i < n :: NodeMeans(sch, net.nodes[i], mail.boxes[i]))
    && (forall i | 0 <= i < n :: TextMeans(sch, net.outputs[i], mail.published[i]))
  }

  lemma NothingMeans(sch: Schema<Frame>)
    ensures Means(sch, [], [])
  {
    EndOfStream(sch, 0);
  }

  lemma ConcatMeans(sch: Schema<Frame>, s: seq<byte>, v: seq<Frame>, t: seq<byte>, w: seq<Frame>)
    requires Means(sch, s, v) && Means(sch, t, w)
    ensures Means(sch, s + t, v + w)
  {
    hide Clean, Framed, Unread;
    UnreadConcat(sch, 0, s, t);
  }

  lemma MessageMeans(sch: Schema<Frame>, ids: Ids, msgs: seq<CanMessage>)
    requires FrameSchema(sch) && |Message(sch, AllStamped(ids, msgs))| <= BUFFER_LEN
    ensures Means(sch, Message(sch, AllStamped(ids, msgs)), AllStamped(ids, msgs))
  {
    hide Clean, Framed, Unread, Keep, ValidSchema;
    var v := AllStamped(ids, msgs);
    UnreadMessage(sch, 0, v);
    StampedWanted(sch, ids, msgs, 0);
    KeepAll(sch, 0, v);
  }

  /** A stamped frame is wanted by everyone but its sender. */
  lemma StampedWanted(sch: Schema<Frame>, ids: Ids, msgs: seq<CanMessage>, own: nat)
    requires FrameSchema(sch)
    ensures forall i | 0 <= i < |msgs| ::
      Wanted(sch, own, AllStamped(ids, msgs)[i]) <==> own == 0 || own != ids.nodeId
  {
    hide ValidSchema;
    forall i | 0 <= i < |msgs|
      ensures Wanted(sch, own, AllStamped(ids, msgs)[i]) <==> own == 0 || own != ids.nodeId
    {
      var f := AllStamped(ids, msgs)[i];
      assert Sender(sch, f) == SenderOf(f);
    }
  }

  lemma TruncatedMeans(sch: Schema<Frame>, n: Node)
    requires n.st.Valid()
    ensures NodeMeans(sch, Node(Truncated(n.st), true), Box(NOTHING, [], true))
  {
    hide Means;
    NothingMeans(sch);
    assert Truncated(n.st).Data() == [] && Truncated(n.st).Rest() == [];
  }

  lemma ReceivedMeans(sch: Schema<Frame>, n: Node, b: Box, s: seq<byte>, p: Parcel)
    requires NodeMeans(sch, n, b) && ParcelMeans(sch, s, p)
    ensures
      var n', content := n.(st := Received(n.st, s)), Added(b.content, p);
      NodeMeans(sch, n', b.(content := content, unread := content.frames))
  {
    hide Means;
    ReceivedData(n.st, s);
    ConcatMeans(sch, n.st.Data(), b.content.frames, s, p.frames);
    var d := Received(n.st, s).Data();
    assert |d| == Received(n.st, s).len;
  }

  /** All payloads of one fmi2SetString. */
  lemma {:induction false} AllReceivedMeans(
    sch: Schema<Frame>, n: Node, b: Box, payloads: seq<seq<byte>>, arrivals: seq<Parcel>)
    requires NodeMeans(sch, n, b)
    requires |payloads| == |arrivals| && forall k | 0 <= k < |payloads| :: ParcelMeans(sch, payloads[k], arrivals[k])
    ensures n.st.Valid() && NodeMeans(sch, n.(st := AllReceived(n.st, payloads)), AllAdded(b, arrivals))
    decreases |payloads|
  {
    hide ParcelMeans, Received, NodeMeans, Added;
    NodeValid(sch, n, b);
    if payloads != [] {
      var content := Added(b.content, arrivals[0]);
      ReceivedMeans(sch, n, b, payloads[0], arrivals[0]);
      AllReceivedMeans(sch, n.(st := Received(n.st, payloads[0])), b.(content := content, unread := content.frames),
        payloads[1..], arrivals[1..]);
    }
  }

  lemma NodeValid(sch: Schema<Frame>, n: Node, b: Box)
    requires NodeMeans(sch, n, b)
    ensures n.st.Valid() && n.resetCalled == b.resetCalled
  {
  }

  lemma {:induction false} PayloadsMean(
    sch: Schema<Frame>, outputs: seq<Option<seq<byte>>>, published: seq<Option<Parcel>>, sources: seq<nat>)
    requires |outputs| == |published| && forall i | 0 <= i < |outputs| :: TextMeans(sch, outputs[i], published[i])
    requires forall k | 0 <= k < |sources| :: sources[k] < |outputs|
    ensures |Payloads(outputs, sources)| == |Arrivals(published, sources)|
    ensures forall k | 0 <= k < |Payloads(outputs, sources)| ::
      ParcelMeans(sch, Payloads(outputs, sources)[k], Arrivals(published, sources)[k])
  {
    hide ParcelMeans;
    if sources != [] {
      PayloadsMean(sch, outputs, published, sources[1..]);
      assert TextMeans(sch, outputs[sources[0]], published[sources[0]]);
    }
  }

  lemma StepMeansBox(sch: Schema<Frame>, n: Node, b: Box, ids: Ids, msgs: seq<CanMessage>)
    requires FrameSchema(sch) && NodeMeans(sch, n, b)
    ensures
      var v := AllStamped(ids, msgs);
      NodeMeans(sch, NodeStep(sch, n, v), Box(Posted(sch, v), [], b.resetCalled))
  {
    hide Means, FrameSchema, Message, AllStamped;
    var m := Message(sch, AllStamped(ids, msgs));
    if msgs == [] || |m| > BUFFER_LEN {
      EmptiedMeans(sch, n.st);
      if msgs != [] { assert Truncated(n.st).Written(m) == Truncated(n.st); }
    } else {
      MessageMeans(sch, ids, msgs);
      WrittenMeans(sch, n.st, m, AllStamped(ids, msgs));
    }
  }

  lemma EmptiedMeans(sch: Schema<Frame>, st: Stream)
    requires st.Valid()
    ensures Means(sch, Truncated(st).Data(), []) && Means(sch, Truncated(st).Rest(), []) && Truncated(st).len == 0
  {
    hide Means;
    NothingMeans(sch);
    assert Truncated(st).Data() == [] && Truncated(st).Rest() == [];
  }

  lemma WrittenMeans(sch: Schema<Frame>, st: Stream, m: seq<byte>, v: seq<Frame>)
    requires st.Valid() && |m| <= BUFFER_LEN && Means(sch, m, v)
    ensures
      var t := Truncated(st).Written(m);
      Means(sch, t.Data(), v) && Means(sch, t.Rest(), []) && t.len == |m|
  {
    hide Means;
    NothingMeans(sch);
    var t := Truncated(st).Written(m);
    WriteAtEnd(Truncated(st), m);
    assert t.Rest() == [] && t.Data() == m;
  }

  lemma GetMeansBox(sch: Schema<Frame>, n: Node, b: Box)
    requires NodeMeans(sch, n, b)
    ensures NodeMeans(sch, NodeGet(n, true, true), Box(b.content, [], false))
    ensures TextMeans(sch, Some(Ascii85.Encoded(n.st.Data())), Some(b.content))
  {
    hide Means, Ascii85.Encoded, Ascii85.Decoded, Ascii85.WellFormed;
    NothingMeans(sch);
    assert NodeGet(n, true, true).st.Rest() == [];
    Ascii85.RoundTrip(n.st.Data());
  }

  /** One call: the same delivery, and the byte state goes on meaning the frame state. */
  lemma ActionSimulates(sch: Schema<Frame>, ids: seq<Ids>, net: Net, mail: Mail, a: Action)
    requires FrameSchema(sch) && NetMeans(sch, net, mail, |ids|) && InRange(a, |ids|)
    ensures NetMeans(sch, NetStep(sch, ids, net, a), MailStep(sch, ids, mail, a), |ids|)
    ensures NetDelivers(sch, ids, net, a) == MailDelivers(sch, ids, mail, a)
  {
    hide FrameSchema, NodeMeans, TextMeans, NodeSet, NodeStep, NodeGet, Message, Ascii85.Encoded, AllStamped, Framed,
      Unread, Keep;
    NodeSimulates(sch, ids, net, mail, a);
    var i := a.i;
    assert NodeMeans(sch, net.nodes[i], mail.boxes[i]);
    if a.Step? { DeliversSame(sch, ids[i].nodeId, net.nodes[i], mail.boxes[i]); }
    if a.Get? { GetMeansBox(sch, net.nodes[i], mail.boxes[i]); }
  }

  lemma DeliversSame(sch: Schema<Frame>, own: nat, n: Node, b: Box)
    requires NodeMeans(sch, n, b)
    ensures Framed(n.st.Rest()) && Unread(sch, own, n.st.Rest()) == Keep(sch, own, b.unread)
  {
    hide Clean, Framed, Unread, Keep;
    UnreadFiltered(sch, own, n.st.Rest());
  }

  lemma NodeSimulates(sch: Schema<Frame>, ids: seq<Ids>, net: Net, mail: Mail, a: Action)
    requires FrameSchema(sch) && NetMeans(sch, net, mail, |ids|) && InRange(a, |ids|)
    ensures NodeMeans(sch, NodeOf(sch, ids, net, a), BoxOf(sch, ids, mail, a))
  {
    hide FrameSchema, NodeMeans, TextMeans, NodeStep, NodeGet, Message, AllStamped, Truncated, AllReceived, Means;
    var n, b := net.nodes[a.i], mail.boxes[a.i];
    assert NodeMeans(sch, n, b);
    NodeValid(sch, n, b);
    match a
    case Set(i, sources) =>
      PayloadsMean(sch, net.outputs, mail.published, sources);
      if !n.resetCalled {
        TruncatedMeans(sch, n);
        AllReceivedMeans(sch, Node(Truncated(n.st), true), Box(NOTHING, [], true),
          Payloads(net.outputs, sources), Arrivals(mail.published, sources));
      } else {
        AllReceivedMeans(sch, n, b, Payloads(net.outputs, sources), Arrivals(mail.published, sources));
      }
    case Step(i, msgs) => StepMeansBox(sch, n, b, ids[i], msgs);
    case Get(i) => GetMeansBox(sch, n, b);
  }

  //////////////////////////////////////////////////////////////////////////////
  // Runs
  //////////////////////////////////////////////////////////////////////////////

  predicate AllInRange(acts: seq<Action>, n: nat)
  {
    forall k | 0 <= k < |acts| :: InRange(acts[k], n)
  }

  function NetRun(sch: Schema<Frame>, ids: seq<Ids>, net: Net, acts: seq<Action>): seq<Delivery>
    requires NetValid(net, |ids|) && AllInRange(acts, |ids|)
    decreases |acts|
  {
    if acts == [] then []
    else NetDelivers(sch, ids, net, acts[0]) + NetRun(sch, ids, NetStep(sch, ids, net, acts[0]), acts[1..])
  }

  function MailRun(sch: Schema<Frame>, ids: seq<Ids>, mail: Mail, acts: seq<Action>): seq<Delivery>
    requires |mail.boxes| == |mail.published| == |ids| && AllInRange(acts, |ids|)
    decreases |acts|
  {
    if acts == [] then []
    else MailDelivers(sch, ids, mail, acts[0]) + MailRun(sch, ids, MailStep(sch, ids, mail, acts[0]), acts[1..])
  }

  /**
   Over every run, in any interleaving and any order of calls, the network in bytes delivers
   what the network in frames delivers.
   */
  lemma {:induction false} RunSimulates(sch: Schema<Frame>, ids: seq<Ids>, net: Net, mail: Mail, acts: seq<Action>)
    requires FrameSchema(sch) && NetMeans(sch, net, mail, |ids|) && AllInRange(acts, |ids|)
    ensures NetRun(sch, ids, net, acts) == MailRun(sch, ids, mail, acts)
    decreases |acts|
  {
    hide FrameSchema, NodeMeans, TextMeans, NetStep, MailStep, NetDelivers, MailDelivers, InRange;
    if acts != [] {
      ActionSimulates(sch, ids, net, mail, acts[0]);
      RunSimulates(sch, ids, NetStep(sch, ids, net, acts[0]), MailStep(sch, ids, mail, acts[0]), acts[1..]);
    }
  }

  function NetAfter(sch: Schema<Frame>, ids: seq<Ids>, net: Net, acts: seq<Action>): (net': Net)
    requires NetValid(net, |ids|) && AllInRange(acts, |ids|)
    ensures NetValid(net', |ids|)
    decreases |acts|
  {
    if acts == [] then net else NetAfter(sch, ids, NetStep(sch, ids, net, acts[0]), acts[1..])
  }

  function MailAfter(sch: Schema<Frame>, ids: seq<Ids>, mail: Mail, acts: seq<Action>): (m: Mail)
    requires |mail.boxes| == |mail.published| == |ids| && AllInRange(acts, |ids|)
    ensures |m.boxes| == |m.published| == |ids|
    decreases |acts|
  {
    if acts == [] then mail else MailAfter(sch, ids, MailStep(sch, ids, mail, acts[0]), acts[1..])
  }

  lemma {:induction false} MeansAfter(sch: Schema<Frame>, ids: seq<Ids>, net: Net, mail: Mail, acts: seq<Action>)
    requires FrameSchema(sch) && NetMeans(sch, net, mail, |ids|) && AllInRange(acts, |ids|)
    ensures NetMeans(sch, NetAfter(sch, ids, net, acts), MailAfter(sch, ids, mail, acts), |ids|)
    decreases |acts|
  {
    hide FrameSchema, NodeMeans, TextMeans, NetStep, MailStep, NetDelivers, MailDelivers, InRange;
    if acts != [] {
      ActionSimulates(sch, ids, net, mail, acts[0]);
      MeansAfter(sch, ids, NetStep(sch, ids, net, acts[0]), MailStep(sch, ids, mail, acts[0]), acts[1..]);
    }
  }

  /**
   In every state any run reaches, each FMU has a stream its reader can be drained of and each
   output is a well-formed text: the next call of any kind meets what it requires.
   */
  lemma AlwaysCallable(sch: Schema<Frame>, ids: seq<Ids>, net: Net, acts: seq<Action>)
    requires FrameSchema(sch) && Fresh(net, |ids|) && AllInRange(acts, |ids|)
    ensures
      var after := NetAfter(sch, ids, net, acts);
      && (forall i | 0 <= i < |ids| :: Clean(sch, after.nodes[i].st.Rest()) && Framed(after.nodes[i].st.Rest()))
      && (forall i | 0 <= i < |ids| :: after.outputs[i].Some? ==> Ascii85.WellFormed(after.outputs[i].value))
  {
    hide FrameSchema, NetAfter, Clean, Framed, Unread, Ascii85.WellFormed, Ascii85.Decoded;
    FreshMeans(sch, net, |ids|);
    MeansAfter(sch, ids, net, EmptyMail(|ids|), acts);
    var after := NetAfter(sch, ids, net, acts);
    var m := MailAfter(sch, ids, EmptyMail(|ids|), acts);
    forall i | 0 <= i < |ids|
      ensures Clean(sch, after.nodes[i].st.Rest()) && Framed(after.nodes[i].st.Rest())
      ensures after.outputs[i].Some? ==> Ascii85.WellFormed(after.outputs[i].value)
    {
      assert NodeMeans(sch, after.nodes[i], m.boxes[i]) && TextMeans(sch, after.outputs[i], m.published[i]);
    }
  }

  /** FMUs after fmi2ExitInitializationMode. */
  predicate Fresh(net: Net, n: nat)
  {
    && NetValid(net, n)
    && forall i | 0 <= i < n ::
         net.nodes[i].st.len == 0 && !net.nodes[i].resetCalled && net.outputs[i] == None
  }

  function EmptyMail(n: nat): (m: Mail)
    ensures |m.boxes| == |m.published| == n
  {
    Mail(seq(n, _ => Box(NOTHING, [], false)), seq(n, _ => None))
  }

  lemma FreshMeans(sch: Schema<Frame>, net: Net, n: nat)
    requires Fresh(net, n)
    ensures NetMeans(sch, net, EmptyMail(n), n)
  {
    hide Means;
    NothingMeans(sch);
    forall i | 0 <= i < n ensures NodeMeans(sch, net.nodes[i], Box(NOTHING, [], false)) {
      assert net.nodes[i].st.Data() == [] && net.nodes[i].st.Rest() == [];
    }
  }
}
