/**
 An importer over FMU objects: it keeps the text each FMU last gave, hands texts to the rx
 variables wired to them and steps the FMUs. What the objects deliver is what the network of
 states delivers, and so, run in lockstep, what the sources wrote.
 */
module Importer {
  import opened Bytes
  import opened Streams
  import opened Wire
  import opened Codec
  import opened Can
  import opened Topology
  import opened Fmu
  import opened Network
  import opened Lockstep
  import Ascii85

  /** The rx variable of each FMU for the output of each FMU, and the tx variable of each. */
  datatype Variables = Variables(inputs: seq<seq<nat>>, outputs: seq<nat>)

  //////////////////////////////////////////////////////////////////////////////
  // One FMU
  //////////////////////////////////////////////////////////////////////////////

  /** Its variables are indexed and configured for ascii85, and its codec is drained. */
  ghost predicate Usable(sch: Schema<Frame>, f: Fmu, inputs: seq<nat>, output: nat)
    reads f.Repr()
  {
    && f.Valid() && f.ncodec.schema == sch && f.ncodec.Drained()
    && (forall k | 0 <= k < |inputs| ::
          KeyOf(inputs[k]) in f.topology.rxVrIndex && KeyOf(inputs[k]) in f.topology.decodeFunc)
    && KeyOf(output) in f.topology.txVrIndex && KeyOf(output) in f.topology.encodeFunc
  }

  predicate AllWellFormed(texts: seq<Option<seq<byte>>>)
  {
    forall j | 0 <= j < |texts| :: texts[j].Some? ==> Ascii85.WellFormed(texts[j].value)
  }

  method SetInputs(
    ghost sch: Schema<Frame>, f: Fmu, inputs: seq<nat>, ghost output: nat,
    texts: seq<Option<seq<byte>>>, sources: seq<nat>)
    requires Usable(sch, f, inputs, output) && AllWellFormed(texts) && |inputs| == |texts|
    requires forall k | 0 <= k < |sources| :: sources[k] < |texts|
    modifies f.Repr()
    ensures Usable(sch, f, inputs, output)
    ensures f.State() == NodeSet(old(f.State()), Payloads(texts, sources))
  {
    hide KeyOf, NodeSet, Ascii85.WellFormed, ValidCursor, FreeListKept;
    var vr := seq(|sources|, k requires 0 <= k < |sources| => inputs[sources[k]]);
    var value := seq(|sources|, k requires 0 <= k < |sources| => texts[sources[k]]);
    WiredInputs(f.topology.rxVrIndex.Keys, f.topology.decodeFunc, vr, value, texts, sources);
    f.SetString(vr, value);
  }

  method GetOutput(ghost sch: Schema<Frame>, f: Fmu, ghost inputs: seq<nat>, output: nat)
    returns (text: Option<seq<byte>>)
    requires Usable(sch, f, inputs, output)
    modifies f.Repr()
    ensures Usable(sch, f, inputs, output)
    ensures text == Some(Ascii85.Encoded(old(f.ncodec.stream.State().Data())))
    ensures f.State() == NodeGet(old(f.State()), true, true)
  {
    hide KeyOf, NodeGet, Ascii85.Encoded, ValidCursor, FreeListKept;
    var value := f.GetString([output]);
    assert KeyOf([output][0]) in f.topology.txVrIndex.Keys;
    text := value[0];
  }

  method StepFmu(
    ghost sch: Schema<Frame>, f: Fmu, ghost inputs: seq<nat>, ghost output: nat, msgs: seq<CanMessage>)
    returns (received: seq<Frame>)
    requires Usable(sch, f, inputs, output)
    requires Framed(f.ncodec.stream.State().Rest()) && NeverSticks(sch, f.ncodec.stream.State().Rest())
    modifies f.Repr()
    ensures Usable(sch, f, inputs, output)
    ensures received == old(Unread(sch, f.ids.nodeId, f.ncodec.stream.State().Rest()))
    ensures f.State() == NodeStep(sch, old(f.State()), AllStamped(f.ids, msgs))
  {
    hide KeyOf, NodeStep, Unread, ValidCursor, FreeListKept, NeverSticks, Framed;
    DrainedQueue(sch, f.ids.nodeId, f.ncodec.Parsing(), f.ncodec.stream.State());
    received := f.DoStep(msgs);
  }

  //////////////////////////////////////////////////////////////////////////////
  // A network of FMUs
  //////////////////////////////////////////////////////////////////////////////

  /** No two FMUs share an object. */
  ghost predicate Apart(fmus: seq<Fmu>)
  {
    forall i, j | 0 <= i < j < |fmus| :: fmus[i].Repr() !! fmus[j].Repr()
  }

  ghost function Objects(fmus: seq<Fmu>): set<object>
  {
    set i, o | 0 <= i < |fmus| && o in fmus[i].Repr() :: o
  }

  ghost predicate AllUsable(sch: Schema<Frame>, fmus: seq<Fmu>, vars: Variables)
    reads Objects(fmus)
  {
    && |vars.inputs| == |vars.outputs| == |fmus| && Apart(fmus)
    && forall i | 0 <= i < |fmus| ::
         |vars.inputs[i]| == |fmus| && Usable(sch, fmus[i], vars.inputs[i], vars.outputs[i])
  }

  function IdsOf(fmus: seq<Fmu>): (ids: seq<Ids>)
    ensures |ids| == |fmus|
  {
    seq(|fmus|, i requires 0 <= i < |fmus| => fmus[i].ids)
  }

  /** The network of states is that of the objects. */
  ghost predicate Shows(fmus: seq<Fmu>, texts: seq<Option<seq<byte>>>, net: Net)
    reads Objects(fmus)
  {
    && NetValid(net, |fmus|) && net.outputs == texts
    && forall i | 0 <= i < |fmus| ::
         var f := fmus[i];
         assert {f.topology, f.ncodec.stream, f.ncodec.stream.buffer} <= f.Repr() <= Objects(fmus);
         f.ncodec.stream.Valid() && f.State() == net.nodes[i]
  }

  /** The call on the FMU it is for: its new state, its text if it gave one, what it delivered. */
  method DoOne(
    ghost sch: Schema<Frame>, fmus: seq<Fmu>, vars: Variables, texts: seq<Option<seq<byte>>>, a: Action,
    ghost net: Net, ghost mail: Mail)
    returns (texts': seq<Option<seq<byte>>>, ds: seq<Delivery>)
    requires AllUsable(sch, fmus, vars) && Shows(fmus, texts, net) && InRange(a, |fmus|)
    requires NetMeans(sch, net, mail, |fmus|)
    modifies fmus[a.i].Repr()
    ensures Usable(sch, fmus[a.i], vars.inputs[a.i], vars.outputs[a.i])
    ensures fmus[a.i].State() == NodeOf(sch, IdsOf(fmus), net, a)
    ensures texts' == NetStep(sch, IdsOf(fmus), net, a).outputs
    ensures ds == NetDelivers(sch, IdsOf(fmus), net, a)
  {
    hide Usable, NodeSet, NodeStep, NodeGet, Unread, Framed, NeverSticks, Ascii85.Encoded, Clean, Ascii85.Decoded,
      Ascii85.WellFormed;
    var f := fmus[a.i];
    texts', ds := texts, [];
    match a {
      case Set(i, sources) =>
        forall j | 0 <= j < |texts| ensures texts[j].Some? ==> Ascii85.WellFormed(texts[j].value) {
          assert TextMeans(sch, net.outputs[j], mail.published[j]);
        }
        SetInputs(sch, f, vars.inputs[i], vars.outputs[i], texts, sources);
      case Step(i, msgs) =>
        assert NodeMeans(sch, net.nodes[i], mail.boxes[i]);
        CleanNeverSticks(sch, net.nodes[i].st.Rest());
        var received := StepFmu(sch, f, vars.inputs[i], vars.outputs[i], msgs);
        ds := [Delivery(i, received)];
      case Get(i) =>
        var text := GetOutput(sch, f, vars.inputs[i], vars.outputs[i]);
        texts' := texts[i := text];
    }
  }

  lemma ObjectsOf(fmus: seq<Fmu>, i: nat)
    requires i < |fmus|
    ensures fmus[i].Repr() <= Objects(fmus)
  {
  }

  /** A call on one of the FMUs does to the objects what it does to the network of states. */
  method Do(
    ghost sch: Schema<Frame>, fmus: seq<Fmu>, vars: Variables, texts: seq<Option<seq<byte>>>, a: Action,
    ghost net: Net, ghost mail: Mail)
    returns (texts': seq<Option<seq<byte>>>, ds: seq<Delivery>)
    requires AllUsable(sch, fmus, vars) && Shows(fmus, texts, net) && InRange(a, |fmus|)
    requires NetMeans(sch, net, mail, |fmus|)
    modifies Objects(fmus)
    ensures AllUsable(sch, fmus, vars) && Shows(fmus, texts', NetStep(sch, IdsOf(fmus), net, a))
    ensures ds == NetDelivers(sch, IdsOf(fmus), net, a)
  {
    hide Usable, NodeOf, NetMeans, NetDelivers, Objects;
    ObjectsOf(fmus, a.i);
    texts', ds := DoOne(sch, fmus, vars, texts, a, net, mail);
    forall j | 0 <= j < |fmus| && j != a.i
      ensures Usable(sch, fmus[j], vars.inputs[j], vars.outputs[j])
      ensures fmus[j].ncodec.stream.Valid() && fmus[j].State() == net.nodes[j]
    {
      assert unchanged(fmus[j].Repr());
    }
  }

  /** Any sequence of calls, in any order, delivers what the network of states delivers. */
  method Run(
    ghost sch: Schema<Frame>, fmus: seq<Fmu>, vars: Variables, acts: seq<Action>, ghost net: Net)
    returns (ds: seq<Delivery>)
    requires FrameSchema(sch) && AllUsable(sch, fmus, vars) && AllInRange(acts, |fmus|)
    requires Shows(fmus, seq(|fmus|, _ => None), net) && Fresh(net, |fmus|)
    modifies Objects(fmus)
    ensures ds == NetRun(sch, IdsOf(fmus), net, acts)
  {
    hide AllUsable, Shows, NetMeans, NetStep, NetDelivers, MailStep, FrameSchema, NetValid;
    ghost var ids, now, mail := IdsOf(fmus), net, EmptyMail(|fmus|);
    FreshMeans(sch, net, |fmus|);
    var texts: seq<Option<seq<byte>>> := seq(|fmus|, _ => None);
    ds := [];
    for n := 0 to |acts|
      invariant AllUsable(sch, fmus, vars) && Shows(fmus, texts, now)
      invariant NetMeans(sch, now, mail, |fmus|) && NetValid(now, |ids|)
      invariant |mail.boxes| == |mail.published| == |ids|
      invariant ds + NetRun(sch, ids, now, acts[n..]) == NetRun(sch, ids, net, acts)
    {
      var texts', d := Do(sch, fmus, vars, texts, acts[n], now, mail);
      ActionSimulates(sch, ids, now, mail, acts[n]);
      now, mail := NetStep(sch, ids, now, acts[n]), MailStep(sch, ids, mail, acts[n]);
      texts, ds := texts', ds + d;
    }
  }

  //////////////////////////////////////////////////////////////////////////////
  // Lockstep on objects
  //////////////////////////////////////////////////////////////////////////////

  /** n variables for inputs, the same at every FMU, and one for the output. */
  function VariablesFor(n: nat): (vars: Variables)
    ensures |vars.inputs| == |vars.outputs| == n
  {
    Variables(seq(n, _ => seq(n, j requires 0 <= j < n => j)), seq(n, _ => n))
  }

  /** As fmi2ExitInitializationMode leaves it, in the given state. */
  ghost predicate Initial(sch: Schema<Frame>, f: Fmu, ids: Ids, inputs: seq<nat>, output: nat, n: Node)
    reads f.Repr()
  {
    && Usable(sch, f, inputs, output) && f.ids == ids
    && f.State() == n && n.st.len == 0 && !n.resetCalled
  }

  method NewFmu(sch: Schema<Frame>, ids: Ids, inputs: seq<nat>, output: nat) returns (f: Fmu, ghost n: Node)
    ensures fresh(f.Repr()) && Initial(sch, f, ids, inputs, output, n)
  {
    hide KeyOf, FreeListKept, ValidCursor;
    var rx := set j | 0 <= j < |inputs| :: KeyOf(inputs[j]);
    var tx := {KeyOf(output)};
    f := new Fmu(sch, ids, "bus", rx, tx, tx, rx);
    n := f.State();
  }

  /** FMUs with the given ids, each wired to all. */
  method NewFmus(sch: Schema<Frame>, ids: seq<Ids>) returns (fmus: seq<Fmu>, ghost nodes: seq<Node>)
    ensures |fmus| == |nodes| == |ids| && fresh(Objects(fmus)) && Apart(fmus)
    ensures
      var vars := VariablesFor(|ids|);
      forall i | 0 <= i < |ids| :: Initial(sch, fmus[i], ids[i], vars.inputs[i], vars.outputs[i], nodes[i])
  {
    hide Initial, Objects;
    var vars := VariablesFor(|ids|);
    fmus, nodes := [], [];
    NoObjects();
    for i := 0 to |ids|
      invariant |fmus| == |nodes| == i && fresh(Objects(fmus)) && Apart(fmus)
      invariant forall j | 0 <= j < i :: Initial(sch, fmus[j], ids[j], vars.inputs[j], vars.outputs[j], nodes[j])
    {
      forall j | 0 <= j < i ensures fmus[j].Repr() <= Objects(fmus) { ObjectsOf(fmus, j); }
      var f, n := NewFmu(sch, ids[i], vars.inputs[i], vars.outputs[i]);
      OneMoreFmu(fmus, f);
      fmus, nodes := fmus + [f], nodes + [n];
    }
  }

  lemma NoObjects()
    ensures Objects([]) == {}
  {
  }

  lemma OneMoreFmu(fmus: seq<Fmu>, f: Fmu)
    ensures Objects(fmus + [f]) == Objects(fmus) + f.Repr()
  {
    var all := fmus + [f];
    forall o | o in Objects(fmus) ensures o in Objects(all) {
      var i :| 0 <= i < |fmus| && o in fmus[i].Repr();
      assert all[i] == fmus[i];
    }
    forall o | o in f.Repr() ensures o in Objects(all) {
      assert all[|fmus|] == f;
    }
  }

  /** The network of states of new FMUs. */
  lemma InitialShows(sch: Schema<Frame>, fmus: seq<Fmu>, ids: seq<Ids>, nodes: seq<Node>)
    requires |fmus| == |nodes| == |ids| && Apart(fmus)
    requires
      var vars := VariablesFor(|ids|);
      forall i | 0 <= i < |ids| :: Initial(sch, fmus[i], ids[i], vars.inputs[i], vars.outputs[i], nodes[i])
    ensures AllUsable(sch, fmus, VariablesFor(|ids|)) && IdsOf(fmus) == ids
    ensures
      var net := Net(nodes, seq(|fmus|, _ => None));
      Shows(fmus, seq(|fmus|, _ => None), net) && Fresh(net, |fmus|)
  {
    hide Usable, Objects;
    var vars := VariablesFor(|ids|);
    forall i | 0 <= i < |ids|
      ensures Usable(sch, fmus[i], vars.inputs[i], vars.outputs[i]) && fmus[i].ids == ids[i]
      ensures fmus[i].ncodec.stream.Valid() && fmus[i].State() == nodes[i]
      ensures nodes[i].st.Valid() && nodes[i].st.len == 0 && !nodes[i].resetCalled
    {
      InitialState(sch, fmus[i], ids[i], vars.inputs[i], vars.outputs[i], nodes[i]);
    }
  }

  lemma InitialState(sch: Schema<Frame>, f: Fmu, ids: Ids, inputs: seq<nat>, output: nat, n: Node)
    requires Initial(sch, f, ids, inputs, output, n)
    ensures Usable(sch, f, inputs, output) && f.ids == ids
    ensures f.ncodec.stream.Valid() && f.State() == n
    ensures n.st.Valid() && n.st.len == 0 && !n.resetCalled
  {
  }

  /**
   FMU objects with distinct non-zero node ids, run in lockstep for any number of cycles whose
   messages fit: every fmi2DoStep returns exactly the frames that its sources other than itself
   wrote in the step before.
   */
  method RunCycles(sch: Schema<Frame>, ids: seq<Ids>, wiring: seq<seq<nat>>, cycles: seq<Cycle>)
    returns (ds: seq<Delivery>)
    requires FrameSchema(sch) && Config(ids, wiring)
    requires CyclesValid(cycles, |ids|) && AllRoomy(sch, ids, wiring, cycles)
    ensures ds == RunExpected(ids, wiring, None, cycles)
  {
    hide FrameSchema, Initial, AllUsable, Shows, Fresh, AllRoomy, RunExpected, NetRun, RunActions, IdsOf, Apart,
      Objects, InRange, CycleValid;
    var fmus, nodes := NewFmus(sch, ids);
    InitialShows(sch, fmus, ids, nodes);
    ghost var net := Net(nodes, seq(|fmus|, _ => None));
    NetworkSafety(sch, ids, wiring, net, cycles);
    ds := Run(sch, fmus, VariablesFor(|ids|), RunActions(wiring, cycles), net);
  }
}
