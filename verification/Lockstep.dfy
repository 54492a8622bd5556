/**
 Networks run in lockstep: in every cycle each FMU gets its inputs set, is stepped and has its
 output got, in three phases and in any order within a phase.
 */
module Lockstep {
  import opened Bytes
  import opened Streams
  import opened Wire
  import opened Can
  import opened Fmu
  import opened Network

  /** Distinct non-zero node ids, and for each FMU the FMUs its rx variables are connected to. */
  predicate Config(ids: seq<Ids>, wiring: seq<seq<nat>>)
  {
    && |wiring| == |ids|
    && (forall i | 0 <= i < |ids| :: ids[i].nodeId != 0)
    && (forall i, j | 0 <= i < j < |ids| :: ids[i].nodeId != ids[j].nodeId)
    && (forall i, k | 0 <= i < |ids| && 0 <= k < |wiring[i]| :: wiring[i][k] < |ids|)
  }

  /** The orders of the three phases, and what each FMU writes in its step. */
  datatype Cycle = Cycle(sets: seq<nat>, steps: seq<nat>, gets: seq<nat>, msgs: seq<seq<CanMessage>>)

  /** Every one of n FMUs, once. */
  predicate Order(o: seq<nat>, n: nat)
  {
    && (forall k | 0 <= k < |o| :: o[k] < n)
    && (forall j, k | 0 <= j < k < |o| :: o[j] != o[k])
    && (forall i | 0 <= i < n :: i in o)
  }

  predicate CycleValid(c: Cycle, n: nat)
  {
    Order(c.sets, n) && Order(c.steps, n) && Order(c.gets, n) && |c.msgs| == n
  }

  predicate CyclesValid(cycles: seq<Cycle>, n: nat)
  {
    forall k | 0 <= k < |cycles| :: CycleValid(cycles[k], n)
  }

  function Sets(wiring: seq<seq<nat>>, o: seq<nat>): seq<Action>
    requires forall k | 0 <= k < |o| :: o[k] < |wiring|
  {
    if o == [] then [] else [Set(o[0], wiring[o[0]])] + Sets(wiring, o[1..])
  }

  function Steps(msgs: seq<seq<CanMessage>>, o: seq<nat>): seq<Action>
    requires forall k | 0 <= k < |o| :: o[k] < |msgs|
  {
    if o == [] then [] else [Step(o[0], msgs[o[0]])] + Steps(msgs, o[1..])
  }

  function Gets(o: seq<nat>): seq<Action>
  {
    if o == [] then [] else [Get(o[0])] + Gets(o[1..])
  }

  function CycleActions(wiring: seq<seq<nat>>, c: Cycle): seq<Action>
    requires CycleValid(c, |wiring|)
  {
    Sets(wiring, c.sets) + Steps(c.msgs, c.steps) + Gets(c.gets)
  }

  function RunActions(wiring: seq<seq<nat>>, cycles: seq<Cycle>): seq<Action>
    requires CyclesValid(cycles, |wiring|)
  {
    if cycles == [] then [] else CycleActions(wiring, cycles[0]) + RunActions(wiring, cycles[1..])
  }

  //////////////////////////////////////////////////////////////////////////////
  // What must be delivered
  //////////////////////////////////////////////////////////////////////////////

  /** What the sources other than i wrote in the step before, in source order, then write order. */
  function Expected(ids: seq<Ids>, prev: Option<seq<seq<CanMessage>>>, sources: seq<nat>, i: nat): seq<Frame>
    requires forall k | 0 <= k < |sources| :: sources[k] < |ids|
    requires prev.Some? ==> |prev.value| == |ids|
  {
    if sources == [] || prev.None? then []
    else
      var s := sources[0];
      (if s == i then [] else AllStamped(ids[s], prev.value[s])) + Expected(ids, prev, sources[1..], i)
  }

  function CycleExpected(
    ids: seq<Ids>, wiring: seq<seq<nat>>, prev: Option<seq<seq<CanMessage>>>, o: seq<nat>): seq<Delivery>
    requires Config(ids, wiring) && forall k | 0 <= k < |o| :: o[k] < |ids|
    requires prev.Some? ==> |prev.value| == |ids|
  {
    if o == [] then []
    else [Delivery(o[0], Expected(ids, prev, wiring[o[0]], o[0]))] + CycleExpected(ids, wiring, prev, o[1..])
  }

  function RunExpected(
    ids: seq<Ids>, wiring: seq<seq<nat>>, prev: Option<seq<seq<CanMessage>>>, cycles: seq<Cycle>): seq<Delivery>
    requires Config(ids, wiring) && CyclesValid(cycles, |ids|)
    requires prev.Some? ==> |prev.value| == |ids|
    decreases |cycles|
  {
    if cycles == [] then []
    else CycleExpected(ids, wiring, prev, cycles[0].steps) + RunExpected(ids, wiring, Some(cycles[0].msgs), cycles[1..])
  }

  /** The bytes of the message an FMU flushes in one step. */
  function MessageSize(sch: Schema<Frame>, v: seq<Frame>): nat
  {
    if v == [] then 0 else |Message(sch, v)|
  }

  function InputSize(sch: Schema<Frame>, ids: seq<Ids>, msgs: seq<seq<CanMessage>>, sources: seq<nat>): nat
    requires |msgs| == |ids| && forall k | 0 <= k < |sources| :: sources[k] < |ids|
  {
    if sources == [] then 0
    else MessageSize(sch, AllStamped(ids[sources[0]], msgs[sources[0]])) + InputSize(sch, ids, msgs, sources[1..])
  }

  /** Each FMU's message fits the stream of its sender, and all inputs of an FMU fit its own. */
  predicate Roomy(sch: Schema<Frame>, ids: seq<Ids>, wiring: seq<seq<nat>>, msgs: seq<seq<CanMessage>>)
    requires Config(ids, wiring) && |msgs| == |ids|
  {
    forall i | 0 <= i < |ids| ::
      && MessageSize(sch, AllStamped(ids[i], msgs[i])) <= BUFFER_LEN
      && InputSize(sch, ids, msgs, wiring[i]) <= BUFFER_LEN
  }

  predicate AllRoomy(sch: Schema<Frame>, ids: seq<Ids>, wiring: seq<seq<nat>>, cycles: seq<Cycle>)
    requires Config(ids, wiring) && CyclesValid(cycles, |ids|)
  {
    forall k | 0 <= k < |cycles| :: Roomy(sch, ids, wiring, cycles[k].msgs)
  }

  //////////////////////////////////////////////////////////////////////////////
  // Runs in pieces
  //////////////////////////////////////////////////////////////////////////////

  predicate MailValid(mail: Mail, n: nat)
  {
    |mail.boxes| == |mail.published| == n
  }

  lemma {:induction false} MailRunConcat(sch: Schema<Frame>, ids: seq<Ids>, mail: Mail, a: seq<Action>, b: seq<Action>)
    requires MailValid(mail, |ids|) && AllInRange(a, |ids|) && AllInRange(b, |ids|)
    ensures AllInRange(a + b, |ids|)
    ensures MailRun(sch, ids, mail, a + b)
         == MailRun(sch, ids, mail, a) + MailRun(sch, ids, MailAfter(sch, ids, mail, a), b)
    ensures MailAfter(sch, ids, mail, a + b) == MailAfter(sch, ids, MailAfter(sch, ids, mail, a), b)
    decreases |a|
  {
    hide MailStep, MailDelivers, InRange;
    if a == [] {
      assert a + b == b;
    } else {
      assert (a + b)[1..] == a[1..] + b;
      MailRunConcat(sch, ids, MailStep(sch, ids, mail, a[0]), a[1..], b);
    }
  }

  //////////////////////////////////////////////////////////////////////////////
  // The three phases
  //////////////////////////////////////////////////////////////////////////////

  function Flatten(ps: seq<Parcel>): seq<Frame>
  {
    if ps == [] then [] else ps[0].frames + Flatten(ps[1..])
  }

  function TotalSize(ps: seq<Parcel>): nat
  {
    if ps == [] then 0 else ps[0].size + TotalSize(ps[1..])
  }

  /** Arrivals that fit together are all added, in order. */
  lemma {:induction false} AddedMeans(b: Box, arrivals: seq<Parcel>)
    requires b.content.size + TotalSize(arrivals) <= BUFFER_LEN && b.unread == b.content.frames
    ensures AllAdded(b, arrivals).unread == b.content.frames + Flatten(arrivals)
    decreases |arrivals|
  {
    if arrivals == [] {
      assert b.content.frames + [] == b.content.frames;
    } else {
      var content := Added(b.content, arrivals[0]);
      AddedMeans(b.(content := content, unread := content.frames), arrivals[1..]);
      assert content.frames + Flatten(arrivals[1..]) == b.content.frames + Flatten(arrivals);
    }
  }

  /** Orders are taken apart from the front: no later FMU is the first one. */
  predicate Distinct(o: seq<nat>, n: nat)
  {
    (forall k | 0 <= k < |o| :: o[k] < n) && (forall j, k | 0 <= j < k < |o| :: o[j] != o[k])
  }

  /** One fmi2SetString into an empty box. */
  lemma SetOne(sch: Schema<Frame>, ids: seq<Ids>, mail: Mail, i: nat, sources: seq<nat>)
    requires MailValid(mail, |ids|) && InRange(Set(i, sources), |ids|) && !mail.boxes[i].resetCalled
    requires TotalSize(Arrivals(mail.published, sources)) <= BUFFER_LEN
    ensures MailDelivers(sch, ids, mail, Set(i, sources)) == []
    ensures
      var m := MailStep(sch, ids, mail, Set(i, sources));
      && m.published == mail.published && m.boxes[i].unread == Flatten(Arrivals(mail.published, sources))
      && forall j | 0 <= j < |ids| && j != i :: m.boxes[j] == mail.boxes[j]
  {
    hide Arrivals, AllAdded, Flatten, TotalSize;
    AddedMeans(Box(NOTHING, [], true), Arrivals(mail.published, sources));
  }

  lemma {:induction false} SetPhase(sch: Schema<Frame>, ids: seq<Ids>, wiring: seq<seq<nat>>, mail: Mail, o: seq<nat>)
    requires Config(ids, wiring) && MailValid(mail, |ids|) && Distinct(o, |ids|)
    requires forall k | 0 <= k < |o| :: !mail.boxes[o[k]].resetCalled
    requires forall i | 0 <= i < |ids| :: TotalSize(Arrivals(mail.published, wiring[i])) <= BUFFER_LEN
    ensures AllInRange(Sets(wiring, o), |ids|)
    ensures MailRun(sch, ids, mail, Sets(wiring, o)) == []
    ensures
      var m := MailAfter(sch, ids, mail, Sets(wiring, o));
      && m.published == mail.published
      && (forall i | 0 <= i < |ids| && i in o :: m.boxes[i].unread == Flatten(Arrivals(mail.published, wiring[i])))
      && (forall i | 0 <= i < |ids| && i !in o :: m.boxes[i] == mail.boxes[i])
    decreases |o|
  {
    hide Arrivals, Flatten, TotalSize, MailStep, MailDelivers;
    if o != [] {
      var i, a, rest := o[0], Set(o[0], wiring[o[0]]), o[1..];
      var mail' := MailStep(sch, ids, mail, a);
      SetOne(sch, ids, mail, i, wiring[i]);
      SetPhase(sch, ids, wiring, mail', rest);
      assert Sets(wiring, o)[1..] == Sets(wiring, rest);
      assert i !in rest;
    }
  }

  lemma {:induction false} StepPhase(
    sch: Schema<Frame>, ids: seq<Ids>, msgs: seq<seq<CanMessage>>, mail: Mail, o: seq<nat>)
    requires |msgs| == |ids| && MailValid(mail, |ids|) && Distinct(o, |ids|)
    ensures AllInRange(Steps(msgs, o), |ids|)
    ensures MailRun(sch, ids, mail, Steps(msgs, o)) == Delivered(sch, ids, mail, o)
    ensures
      var m := MailAfter(sch, ids, mail, Steps(msgs, o));
      && (forall i | 0 <= i < |ids| && i in o :: m.boxes[i].content == Posted(sch, AllStamped(ids[i], msgs[i])))
      && (forall i | 0 <= i < |ids| && i !in o :: m.boxes[i] == mail.boxes[i])
    decreases |o|
  {
    hide Keep, AllStamped, Posted;
    if o != [] {
      var i, a, rest := o[0], Step(o[0], msgs[o[0]]), o[1..];
      var mail' := MailStep(sch, ids, mail, a);
      StepPhase(sch, ids, msgs, mail', rest);
      SameDelivered(sch, ids, mail, mail', rest);
      assert Steps(msgs, o)[1..] == Steps(msgs, rest);
      assert i !in rest;
    }
  }

  /** What a round of steps delivers from the unread frames of each box. */
  function Delivered(sch: Schema<Frame>, ids: seq<Ids>, mail: Mail, o: seq<nat>): seq<Delivery>
    requires MailValid(mail, |ids|) && forall k | 0 <= k < |o| :: o[k] < |ids|
  {
    if o == [] then []
    else [Delivery(o[0], Keep(sch, ids[o[0]].nodeId, mail.boxes[o[0]].unread))] + Delivered(sch, ids, mail, o[1..])
  }

  lemma {:induction false} SameDelivered(sch: Schema<Frame>, ids: seq<Ids>, m: Mail, m': Mail, o: seq<nat>)
    requires MailValid(m, |ids|) && MailValid(m', |ids|) && forall k | 0 <= k < |o| :: o[k] < |ids|
    requires forall k | 0 <= k < |o| :: m.boxes[o[k]] == m'.boxes[o[k]]
    ensures Delivered(sch, ids, m, o) == Delivered(sch, ids, m', o)
    decreases |o|
  {
    hide Keep;
    if o != [] { SameDelivered(sch, ids, m, m', o[1..]); }
  }

  /** One fmi2GetString. */
  lemma GetOne(sch: Schema<Frame>, ids: seq<Ids>, mail: Mail, i: nat)
    requires MailValid(mail, |ids|) && i < |ids|
    ensures MailDelivers(sch, ids, mail, Get(i)) == []
    ensures
      var m := MailStep(sch, ids, mail, Get(i));
      && m.published[i] == Some(mail.boxes[i].content) && !m.boxes[i].resetCalled
      && forall j | 0 <= j < |ids| && j != i :: m.published[j] == mail.published[j] && m.boxes[j] == mail.boxes[j]
  {
  }

  lemma {:induction false} GetPhase(sch: Schema<Frame>, ids: seq<Ids>, mail: Mail, o: seq<nat>)
    requires MailValid(mail, |ids|) && Distinct(o, |ids|)
    ensures AllInRange(Gets(o), |ids|)
    ensures MailRun(sch, ids, mail, Gets(o)) == []
    ensures
      var m := MailAfter(sch, ids, mail, Gets(o));
      && (forall i | 0 <= i < |ids| && i in o ::
            m.published[i] == Some(mail.boxes[i].content) && !m.boxes[i].resetCalled)
      && (forall i | 0 <= i < |ids| && i !in o :: m.published[i] == mail.published[i] && m.boxes[i] == mail.boxes[i])
    decreases |o|
  {
    hide MailStep, MailDelivers;
    if o != [] {
      var i, a, rest := o[0], Get(o[0]), o[1..];
      GetOne(sch, ids, mail, i);
      GetPhase(sch, ids, MailStep(sch, ids, mail, a), rest);
      assert Gets(o)[1..] == Gets(rest);
      assert i !in rest;
    }
  }

  //////////////////////////////////////////////////////////////////////////////
  // Cycles
  //////////////////////////////////////////////////////////////////////////////

  /** Between cycles: every output is what the FMU wrote in its last step, and resets are pending. */
  predicate Ready(sch: Schema<Frame>, ids: seq<Ids>, mail: Mail, prev: Option<seq<seq<CanMessage>>>)
  {
    && MailValid(mail, |ids|) && (prev.Some? ==> |prev.value| == |ids|)
    && forall i | 0 <= i < |ids| ::
         && !mail.boxes[i].resetCalled
         && mail.published[i] == if prev.None? then None else Some(Posted(sch, AllStamped(ids[i], prev.value[i])))
  }

  /** The reader's filter takes out of the arrivals exactly what the FMU sent itself. */
  lemma {:induction false} OwnTakenOut(
    sch: Schema<Frame>, ids: seq<Ids>, wiring: seq<seq<nat>>, mail: Mail, prev: Option<seq<seq<CanMessage>>>,
    sources: seq<nat>, i: nat)
    requires FrameSchema(sch) && Config(ids, wiring) && Ready(sch, ids, mail, prev) && i < |ids|
    requires prev.Some? ==> Roomy(sch, ids, wiring, prev.value)
    requires forall k | 0 <= k < |sources| :: sources[k] < |ids|
    ensures Keep(sch, ids[i].nodeId, Flatten(Arrivals(mail.published, sources))) == Expected(ids, prev, sources, i)
    ensures TotalSize(Arrivals(mail.published, sources)) ==
      if prev.None? then 0 else InputSize(sch, ids, prev.value, sources)
    decreases |sources|
  {
    hide FrameSchema, Wanted, Message, AllStamped;
    if sources != [] {
      var s, own, rest := sources[0], ids[i].nodeId, Arrivals(mail.published, sources[1..]);
      OwnTakenOut(sch, ids, wiring, mail, prev, sources[1..], i);
      if prev.Some? {
        var v := AllStamped(ids[s], prev.value[s]);
        assert MessageSize(sch, v) <= BUFFER_LEN;
        KeepConcat(sch, own, v, Flatten(rest));
        assert Arrivals(mail.published, sources) == [Parcel(v, MessageSize(sch, v))] + rest;
        assert Arrivals(mail.published, sources)[1..] == rest;
        KeepOfStamped(sch, ids, wiring, s, i, prev.value[s]);
      } else {
        assert Arrivals(mail.published, sources) == rest;
      }
    }
  }

  lemma KeepOfStamped(
    sch: Schema<Frame>, ids: seq<Ids>, wiring: seq<seq<nat>>, s: nat, i: nat, msgs: seq<CanMessage>)
    requires FrameSchema(sch) && Config(ids, wiring) && i < |ids| && s < |ids|
    ensures Keep(sch, ids[i].nodeId, AllStamped(ids[s], msgs)) == if s == i then [] else AllStamped(ids[s], msgs)
  {
    hide FrameSchema, Keep, Wanted;
    var own, v := ids[i].nodeId, AllStamped(ids[s], msgs);
    StampedWanted(sch, ids[s], msgs, own);
    if s == i { KeepNone(sch, own, v); } else {
      assert ids[i].nodeId != ids[s].nodeId;
      KeepAll(sch, own, v);
    }
  }

  lemma {:induction false} DeliveredIsExpected(
    sch: Schema<Frame>, ids: seq<Ids>, wiring: seq<seq<nat>>, before: Mail, mail: Mail,
    prev: Option<seq<seq<CanMessage>>>, o: seq<nat>)
    requires FrameSchema(sch) && Config(ids, wiring) && Ready(sch, ids, before, prev) && MailValid(mail, |ids|)
    requires forall k | 0 <= k < |o| :: o[k] < |ids|
    requires prev.Some? ==> Roomy(sch, ids, wiring, prev.value)
    requires forall i | 0 <= i < |ids| :: mail.boxes[i].unread == Flatten(Arrivals(before.published, wiring[i]))
    ensures Delivered(sch, ids, mail, o) == CycleExpected(ids, wiring, prev, o)
    decreases |o|
  {
    hide FrameSchema, Keep, Flatten, Arrivals, Expected, Roomy;
    if o != [] {
      OwnTakenOut(sch, ids, wiring, before, prev, wiring[o[0]], o[0]);
      DeliveredIsExpected(sch, ids, wiring, before, mail, prev, o[1..]);
    }
  }

  lemma InputsFit(
    sch: Schema<Frame>, ids: seq<Ids>, wiring: seq<seq<nat>>, mail: Mail, prev: Option<seq<seq<CanMessage>>>)
    requires FrameSchema(sch) && Config(ids, wiring) && Ready(sch, ids, mail, prev)
    requires prev.Some? ==> Roomy(sch, ids, wiring, prev.value)
    ensures forall i | 0 <= i < |ids| :: TotalSize(Arrivals(mail.published, wiring[i])) <= BUFFER_LEN
  {
    hide FrameSchema, Keep, Flatten, Arrivals, TotalSize, Expected, InputSize, MessageSize;
    forall i | 0 <= i < |ids| ensures TotalSize(Arrivals(mail.published, wiring[i])) <= BUFFER_LEN {
      OwnTakenOut(sch, ids, wiring, mail, prev, wiring[i], i);
    }
  }

  lemma CycleDelivers(
    sch: Schema<Frame>, ids: seq<Ids>, wiring: seq<seq<nat>>, mail: Mail, prev: Option<seq<seq<CanMessage>>>, c: Cycle)
    requires FrameSchema(sch) && Config(ids, wiring) && Ready(sch, ids, mail, prev) && CycleValid(c, |ids|)
    requires prev.Some? ==> Roomy(sch, ids, wiring, prev.value)
    ensures AllInRange(CycleActions(wiring, c), |ids|)
    ensures MailRun(sch, ids, mail, CycleActions(wiring, c)) == CycleExpected(ids, wiring, prev, c.steps)
    ensures Ready(sch, ids, MailAfter(sch, ids, mail, CycleActions(wiring, c)), Some(c.msgs))
  {
    hide FrameSchema, MailRun, MailAfter, Delivered, CycleExpected, Sets, Steps, Gets, Flatten, Arrivals, InRange;
    InputsFit(sch, ids, wiring, mail, prev);
    var a, b, g := Sets(wiring, c.sets), Steps(c.msgs, c.steps), Gets(c.gets);
    SetPhase(sch, ids, wiring, mail, c.sets);
    var m1 := MailAfter(sch, ids, mail, a);
    StepPhase(sch, ids, c.msgs, m1, c.steps);
    var m2 := MailAfter(sch, ids, m1, b);
    GetPhase(sch, ids, m2, c.gets);
    MailRunConcat(sch, ids, mail, a, b);
    MailRunConcat(sch, ids, mail, a + b, g);
    DeliveredIsExpected(sch, ids, wiring, mail, m1, prev, c.steps);
  }

  lemma {:induction false} RunDelivers(
    sch: Schema<Frame>, ids: seq<Ids>, wiring: seq<seq<nat>>, mail: Mail, prev: Option<seq<seq<CanMessage>>>,
    cycles: seq<Cycle>)
    requires FrameSchema(sch) && Config(ids, wiring) && Ready(sch, ids, mail, prev)
    requires CyclesValid(cycles, |ids|) && AllRoomy(sch, ids, wiring, cycles)
    requires prev.Some? ==> Roomy(sch, ids, wiring, prev.value)
    ensures AllInRange(RunActions(wiring, cycles), |ids|)
    ensures MailRun(sch, ids, mail, RunActions(wiring, cycles)) == RunExpected(ids, wiring, prev, cycles)
    decreases |cycles|
  {
    hide FrameSchema, CycleExpected, CycleActions, MailAfter, InRange;
    if cycles != [] {
      var a, rest := CycleActions(wiring, cycles[0]), RunActions(wiring, cycles[1..]);
      CycleDelivers(sch, ids, wiring, mail, prev, cycles[0]);
      RunDelivers(sch, ids, wiring, MailAfter(sch, ids, mail, a), Some(cycles[0].msgs), cycles[1..]);
      MailRunConcat(sch, ids, mail, a, rest);
    }
  }

  /**
   Network safety. From fresh FMUs with distinct non-zero node ids, run for any number of
   cycles whose messages fit the streams, every fmi2DoStep reads exactly the frames its sources
   other than itself wrote in their previous step, in the order its inputs are set and then in
   write order, each once; in the first cycle it reads none.
   */
  lemma NetworkSafety(sch: Schema<Frame>, ids: seq<Ids>, wiring: seq<seq<nat>>, net: Net, cycles: seq<Cycle>)
    requires FrameSchema(sch) && Config(ids, wiring) && Fresh(net, |ids|)
    requires CyclesValid(cycles, |ids|) && AllRoomy(sch, ids, wiring, cycles)
    ensures AllInRange(RunActions(wiring, cycles), |ids|)
    ensures NetRun(sch, ids, net, RunActions(wiring, cycles)) == RunExpected(ids, wiring, None, cycles)
  {
    hide FrameSchema, NetMeans, NetRun, MailRun, InRange, RunExpected, RunActions, AllRoomy;
    var mail := EmptyMail(|ids|);
    FreshMeans(sch, net, |ids|);
    RunDelivers(sch, ids, wiring, mail, None, cycles);
    RunSimulates(sch, ids, net, mail, RunActions(wiring, cycles));
  }

  //////////////////////////////////////////////////////////////////////////////
  // Exactly once
  //////////////////////////////////////////////////////////////////////////////

  predicate IsFrom(f: Frame, id: nat)
  {
    f.Can? && f.frame.nodeId == id
  }

  /** The frames of one sender, in order. */
  function BySender(v: seq<Frame>, id: nat): seq<Frame>
  {
    if v == [] then [] else (if IsFrom(v[0], id) then [v[0]] else []) + BySender(v[1..], id)
  }

  lemma {:induction false} BySenderConcat(v: seq<Frame>, w: seq<Frame>, id: nat)
    ensures BySender(v + w, id) == BySender(v, id) + BySender(w, id)
  {
    hide IsFrom;
    if v == [] {
      assert v + w == w;
    } else {
      assert (v + w)[1..] == v[1..] + w && (v + w)[0] == v[0];
      BySenderConcat(v[1..], w, id);
      var head := if IsFrom(v[0], id) then [v[0]] else [];
      assert BySender(v + w, id) == head + BySender(v[1..] + w, id);
      assert BySender(v, id) == head + BySender(v[1..], id);
    }
  }

  lemma {:induction false} BySenderStamped(v: seq<Frame>, sender: nat, id: nat)
    requires forall k | 0 <= k < |v| :: IsFrom(v[k], sender)
    ensures BySender(v, id) == if sender == id then v else []
  {
    if v != [] { BySenderStamped(v[1..], sender, id); }
  }

  lemma BySenderOwn(ids: Ids, msgs: seq<CanMessage>, id: nat)
    ensures BySender(AllStamped(ids, msgs), id) == if ids.nodeId == id then AllStamped(ids, msgs) else []
  {
    BySenderStamped(AllStamped(ids, msgs), ids.nodeId, id);
  }

  /**
   With sources listed once each, what FMU i reads from FMU j is all that j wrote in the step
   before, in order and once, if j is another FMU and a source, and nothing otherwise.
   */
  lemma {:induction false} ExactlyOnce(
    ids: seq<Ids>, wiring: seq<seq<nat>>, msgs: seq<seq<CanMessage>>, sources: seq<nat>, i: nat, j: nat)
    requires Config(ids, wiring) && |msgs| == |ids| && i < |ids| && j < |ids| && Distinct(sources, |ids|)
    ensures BySender(Expected(ids, Some(msgs), sources, i), ids[j].nodeId) ==
      if j in sources && j != i then AllStamped(ids[j], msgs[j]) else []
    decreases |sources|
  {
    hide AllStamped, IsFrom, Config;
    if sources != [] {
      var s, rest, id := sources[0], Expected(ids, Some(msgs), sources[1..], i), ids[j].nodeId;
      ExactlyOnce(ids, wiring, msgs, sources[1..], i, j);
      assert s !in sources[1..];
      DistinctIds(ids, wiring, s, j);
      BySenderOwn(ids[s], msgs[s], id);
      if s != i { BySenderConcat(AllStamped(ids[s], msgs[s]), rest, id); } else { assert [] + rest == rest; }
    }
  }

  lemma DistinctIds(ids: seq<Ids>, wiring: seq<seq<nat>>, s: nat, j: nat)
    requires Config(ids, wiring) && s < |ids| && j < |ids|
    ensures ids[s].nodeId == ids[j].nodeId <==> s == j
  {
  }
}
