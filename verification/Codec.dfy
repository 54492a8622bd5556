/**
 The codec state machines shared by frame_can_fbs.c and pdu_fbs.c: a writer that collects
 elements in a builder and flushes them as one message, and a reader that walks the
 messages of the stream and the vector of the current message across calls.

 A reader means a queue: the wanted elements left in the current vector, then those of
 all messages after the stream position.
 */
module Codec {
  import opened Bytes
  import opened Streams
  import opened Wire

  //////////////////////////////////////////////////////////////////////////////
  // The parsing state and the queue it means
  //////////////////////////////////////////////////////////////////////////////

  /**
   msg_ptr (an offset into the stream buffer, None for NULL) and msg_len; whether vector is
   set, which is then the vector of the message at msg_ptr; vector_idx and vector_len.
   */
  datatype Cursor = Cursor(msgPtr: Option<nat>, msgLen: nat, vector: bool, vectorIdx: nat, vectorLen: nat)

  const NO_MESSAGE := Cursor(None, 0, false, 0, 0)

  /** The bytes the message pointer stands for, read from the buffer as it is now. */
  function BodyAt(c: Cursor, st: Stream): seq<byte>
    requires st.Valid() && c.msgPtr.Some? && c.msgPtr.value + c.msgLen <= BUFFER_LEN
  {
    st.buffer[c.msgPtr.value..c.msgPtr.value + c.msgLen]
  }

  /** In bounds; the bytes it points at may meanwhile be others than those it was set for. */
  predicate ValidCursor(c: Cursor)
  {
    && (c.msgPtr.Some? ==> c.msgPtr.value + c.msgLen <= BUFFER_LEN)
    && (c.vector ==> c.msgPtr.Some?)
    && c.vectorIdx <= c.vectorLen
  }

  /** The elements from one index to another, as far as there are that many. */
  function Window<E>(v: seq<E>, from: nat, to: nat): seq<E>
    requires from <= to
  {
    v[Min(from, |v|)..Min(to, |v|)]
  }

  /** The elements of the current message that the reader has not looked at. */
  function Remaining<E>(sch: Schema<E>, c: Cursor, st: Stream): seq<E>
    requires ValidCursor(c) && st.Valid()
  {
    if c.msgPtr.None? then []
    else
      match Decode(sch, BodyAt(c, st))
      case None => []
      case Some(v) => if c.vector then Window(v, c.vectorIdx, c.vectorLen) else v
  }

  /** The wanted ones among them. */
  function Current<E>(sch: Schema<E>, own: nat, c: Cursor, st: Stream): seq<E>
    requires ValidCursor(c) && st.Valid()
  {
    Keep(sch, own, Remaining(sch, c, st))
  }

  /** The current message was found to have no vector: the reader never leaves it. */
  predicate Stuck<E>(sch: Schema<E>, c: Cursor, st: Stream)
    requires ValidCursor(c) && st.Valid()
  {
    c.msgPtr.Some? && !c.vector && Decode(sch, BodyAt(c, st)).None?
  }

  /** The elements the reader is still to deliver. */
  function Queue<E>(sch: Schema<E>, own: nat, c: Cursor, st: Stream): seq<E>
    requires ValidCursor(c) && st.Valid() && Framed(st.Rest())
  {
    if Stuck(sch, c, st) then []
    else Current(sch, own, c, st) + Unread(sch, own, st.Rest())
  }

  /** The reader will not get stuck, on this message or on one ahead. */
  predicate Ahead<E>(sch: Schema<E>, c: Cursor, st: Stream)
    requires ValidCursor(c) && st.Valid() && Framed(st.Rest())
  {
    !Stuck(sch, c, st) && NeverSticks(sch, st.Rest())
  }

  /** The first message holds something wanted. */
  predicate Offers<E>(sch: Schema<E>, own: nat, s: seq<byte>)
    requires Framed(s)
  {
    && AtMessage(s) && HasIdentifier(sch.ident, BodyOf(s))
    && Decode(sch, BodyOf(s)).Some? && Keep(sch, own, Decode(sch, BodyOf(s)).value) != []
  }

  function BehindFirst<E>(sch: Schema<E>, own: nat, s: seq<byte>): seq<byte>
    requires Framed(s)
  {
    if Offers(sch, own, s) then TailOf(s) else s
  }

  /** The vector entered is that of the bytes pointed at. */
  predicate InStep<E>(sch: Schema<E>, c: Cursor, st: Stream)
    requires ValidCursor(c) && st.Valid()
  {
    c.vector ==> Decode(sch, BodyAt(c, st)).Some? && c.vectorLen == |Decode(sch, BodyAt(c, st)).value|
  }

  /** Between two calls a reader stands behind an element it delivered, in no message, or is stuck. */
  predicate Resting<E>(sch: Schema<E>, own: nat, c: Cursor, st: Stream)
    requires ValidCursor(c) && st.Valid()
  {
    && InStep(sch, c, st)
    && if c.vector then c.vectorIdx > 0 && Wanted(sch, own, Decode(sch, BodyAt(c, st)).value[c.vectorIdx - 1])
       else c.msgPtr.None? || Stuck(sch, c, st)
  }

  //////////////////////////////////////////////////////////////////////////////
  // Steps of the reader
  //////////////////////////////////////////////////////////////////////////////

  lemma EndOfStream<E>(sch: Schema<E>, own: nat)
    ensures Framed([]) && NeverSticks(sch, []) && Clean(sch, []) && Unread(sch, own, []) == []
    ensures !Offers(sch, own, [])
  {
  }

  lemma NothingLeft<E>(sch: Schema<E>, own: nat, st: Stream)
    requires st.Valid() && st.pos == st.len
    ensures ValidCursor(NO_MESSAGE) && Framed(st.Rest()) && Unread(sch, own, []) == []
    ensures Queue(sch, own, NO_MESSAGE, st) == [] && Ahead(sch, NO_MESSAGE, st)
  {
    EndOfStream(sch, own);
    assert st.Rest() == [];
  }

  lemma RestingInStep<E>(sch: Schema<E>, own: nat, c: Cursor, st: Stream)
    requires ValidCursor(c) && st.Valid()
    ensures Resting(sch, own, c, st) ==> InStep(sch, c, st)
  {
  }

  /** What lies ahead is the rest of the stream unless a message is yet to be looked into. */
  lemma OnlyStreamAhead<E>(sch: Schema<E>, own: nat, c: Cursor, st: Stream)
    requires ValidCursor(c) && st.Valid() && Framed(st.Rest()) && (c.msgPtr.None? || c.vector)
    ensures Ahead(sch, c, st) == NeverSticks(sch, st.Rest())
    ensures c.msgPtr.None? ==> Queue(sch, own, c, st) == Unread(sch, own, st.Rest())
  {
    hide Framed, Unread, NeverSticks;
  }

  /** A reader that stops, at the end of the stream or stuck, has nothing to deliver. */
  lemma ReaderStops<E>(sch: Schema<E>, own: nat, c: Cursor, st: Stream)
    requires ValidCursor(c) && st.Valid() && Framed(st.Rest()) && !c.vector
    requires (c.msgPtr.None? && st.pos == st.len) || Stuck(sch, c, st)
    ensures
      var t := st.(pos := st.len);
      && Framed(t.Rest())
      && Queue(sch, own, c, st) == [] && Queue(sch, own, c, t) == []
      && Ahead(sch, c, st) == Ahead(sch, c, t) == c.msgPtr.None?
      && Resting(sch, own, c, t)
  {
    hide Framed, Unread, Keep, NeverSticks;
    EndOfStream(sch, own);
    NothingKept(sch, own);
    assert st.(pos := st.len).Rest() == [];
    assert st.pos == st.len ==> st.Rest() == [];
  }

  /** What one round of the message scan sees at the head of a framed stream. */
  lemma ScanStep<E>(sch: Schema<E>, own: nat, s: seq<byte>)
    requires Framed(s) && s != []
    ensures |s| >= 4
    ensures PrefixOf(s) == 0 ==> Unread(sch, own, s) == [] && NeverSticks(sch, s)
    ensures PrefixOf(s) != 0 ==>
      && AtMessage(s) && |s| >= 4 + PrefixOf(s)
      && s[4 + PrefixOf(s)..] == TailOf(s) && s[4..4 + PrefixOf(s)] == BodyOf(s)
      && (!HasIdentifier(sch.ident, BodyOf(s)) ==>
            && Unread(sch, own, s) == Unread(sch, own, TailOf(s))
            && NeverSticks(sch, s) == NeverSticks(sch, TailOf(s)))
  {
    hide Keep, Decode;
  }

  /** A message of this schema has just been entered: nothing of the stream's meaning is lost. */
  lemma MessageEntered<E>(sch: Schema<E>, own: nat, s: seq<byte>, c: Cursor, st: Stream)
    requires AtMessage(s) && HasIdentifier(sch.ident, BodyOf(s))
    requires st.Valid() && ValidCursor(c) && c.msgPtr.Some? && !c.vector
    requires BodyAt(c, st) == BodyOf(s) && st.Rest() == TailOf(s)
    ensures Framed(st.Rest())
    ensures Queue(sch, own, c, st) == Unread(sch, own, s)
    ensures Ahead(sch, c, st) == NeverSticks(sch, s)
    ensures Offers(sch, own, s) ==> Current(sch, own, c, st) != []
  {
    hide Keep, Decode, Framed, BodyOf, TailOf, HasIdentifier;
  }

  /** Entering the vector of the current message. */
  lemma VectorEntered<E>(sch: Schema<E>, own: nat, c: Cursor, st: Stream, v: seq<E>)
    requires ValidCursor(c) && st.Valid() && Framed(st.Rest()) && c.msgPtr.Some? && !c.vector
    requires Decode(sch, BodyAt(c, st)) == Some(v)
    ensures
      var c' := c.(vector := true, vectorIdx := 0, vectorLen := |v|);
      && ValidCursor(c')
      && Queue(sch, own, c', st) == Queue(sch, own, c, st)
      && Ahead(sch, c', st) == Ahead(sch, c, st)
      && Current(sch, own, c', st) == Current(sch, own, c, st)
  {
    hide Keep, Decode, Framed, Unread, NeverSticks;
    assert Window(v, 0, |v|) == v;
  }

  /** The vector scan stopped at a wanted element vi, with nothing wanted before it. */
  lemma ElementFound<E>(sch: Schema<E>, own: nat, c: Cursor, st: Stream, v: seq<E>, vi: nat)
    requires ValidCursor(c) && st.Valid() && c.vector && Decode(sch, BodyAt(c, st)) == Some(v)
    requires c.vectorIdx <= vi < Min(c.vectorLen, |v|) && Wanted(sch, own, v[vi])
    requires Current(sch, own, c, st) == Keep(sch, own, Window(v, vi, c.vectorLen))
    ensures
      var c' := c.(vectorIdx := vi + 1);
      && ValidCursor(c')
      && Current(sch, own, c, st) == [v[vi]] + Current(sch, own, c', st)
  {
    hide Decode, Wanted, Keep;
    var w, rest := Window(v, vi, c.vectorLen), Window(v, vi + 1, c.vectorLen);
    assert w[0] == v[vi] && w[1..] == rest;
    KeepFirst(sch, own, w);
    assert Current(sch, own, c.(vectorIdx := vi + 1), st) == Keep(sch, own, rest);
  }

  lemma KeepFirst<E>(sch: Schema<E>, own: nat, v: seq<E>)
    requires v != [] && Wanted(sch, own, v[0])
    ensures Keep(sch, own, v) == [v[0]] + Keep(sch, own, v[1..])
  {
  }

  /** Every element a reader will ever deliver is a wanted one. */
  lemma QueueWanted<E>(sch: Schema<E>, own: nat, c: Cursor, st: Stream)
    requires ValidCursor(c) && st.Valid() && Framed(st.Rest())
    ensures
      var q := Queue(sch, own, c, st);
      forall i | 0 <= i < |q| :: Wanted(sch, own, q[i])
  {
    hide Keep, Decode, Wanted;
    UnreadFiltered(sch, own, st.Rest());
    KeptAreWanted(sch, own, Unread(sch, 0, st.Rest()));
    KeptAreWanted(sch, own, Remaining(sch, c, st));
  }

  //////////////////////////////////////////////////////////////////////////////
  // Truncation
  //////////////////////////////////////////////////////////////////////////////

  /** The parsing state itself says that no more is to come from the current message. */
  predicate Settled(c: Cursor)
  {
    c.msgPtr.None? || (c.vector && c.vectorIdx == c.vectorLen)
  }

  /** The stream truncated, written from its start and rewound. */
  function Rewritten(st: Stream, d: seq<byte>): (r: Stream)
    requires st.Valid() && |d| <= BUFFER_LEN
    ensures r.Valid() && r.Rest() == d
  {
    st.(len := 0, pos := 0).Written(d).(pos := 0)
  }

  /** Truncated, the reader delivers exactly what is written from then on. */
  ghost predicate AsFresh<E>(sch: Schema<E>, own: nat, c: Cursor, st: Stream)
    requires ValidCursor(c) && st.Valid()
  {
    forall d: seq<byte> | |d| <= BUFFER_LEN && Framed(d) :: Queue(sch, own, c, Rewritten(st, d)) == Unread(sch, own, d)
  }

  /** A settled reader delivers what lies in the stream, whatever that is. */
  lemma SettledIsFresh<E>(sch: Schema<E>, own: nat, c: Cursor, st: Stream)
    requires ValidCursor(c) && st.Valid() && Framed(st.Rest()) && Settled(c)
    ensures Queue(sch, own, c, st) == Unread(sch, own, st.Rest())
  {
    hide Framed, Unread, Decode;
    NothingKept(sch, own);
  }

  /** Some message body of n bytes has a wanted element at index i. */
  ghost predicate Replaceable<E(!new)>(sch: Schema<E>, own: nat, n: nat, i: nat)
  {
    exists v: seq<E> :: |Encode(sch, v)| == n && i < |v| && Wanted(sch, own, v[i])
  }

  /** The index a reader would look at next. */
  function NextIndex(c: Cursor): nat
  {
    if c.vector then c.vectorIdx else 0
  }

  /** Where the body of a message can begin in a stream that is read from its start. */
  predicate Reachable(c: Cursor)
  {
    c.msgPtr.Some? ==> c.msgPtr.value == 4 || c.msgPtr.value >= 8
  }

  /**
   Truncation empties the stream but not the parsing state. A truncated codec delivers exactly
   what is written from then on, whatever that is, if and only if its parsing state is settled;
   all that is asked of the schema is that the message it stands on can be overwritten by one of
   the same size with something wanted at the next index.
   */
  lemma TruncateIff<E(!new)>(sch: Schema<E>, own: nat, c: Cursor, st: Stream)
    requires ValidSchema(sch) && ValidCursor(c) && Reachable(c) && st.Valid()
    requires !Settled(c) ==> Replaceable(sch, own, c.msgLen, NextIndex(c))
    ensures AsFresh(sch, own, c, st) <==> Settled(c)
  {
    if Settled(c) {
      forall d: seq<byte> | |d| <= BUFFER_LEN && Framed(d)
        ensures Queue(sch, own, c, Rewritten(st, d)) == Unread(sch, own, d)
      {
        SettledIsFresh(sch, own, c, Rewritten(st, d));
      }
    } else {
      var v :| |Encode(sch, v)| == c.msgLen && NextIndex(c) < |v| && Wanted(sch, own, v[NextIndex(c)]);
      OverwrittenDelivers(sch, own, c, st, v);
    }
  }

  /** A buffer with the given bytes at an offset and zeros elsewhere. */
  function Placed(at: nat, bytes: seq<byte>): (b: seq<byte>)
    requires at + |bytes| <= BUFFER_LEN
    ensures |b| == BUFFER_LEN && b[at..at + |bytes|] == bytes
  {
    seq(at, _ => 0) + bytes + seq(BUFFER_LEN - at - |bytes|, _ => 0)
  }

  /** A stream of n + |m| bytes with message m at the end; a zero prefix hides it unless n is 0. */
  function Behind(n: nat, m: seq<byte>): seq<byte>
  {
    seq(n, _ => 0) + m
  }

  lemma BehindFramed<E(!new)>(sch: Schema<E>, own: nat, n: nat, v: seq<E>)
    requires ValidSchema(sch) && |Encode(sch, v)| < WORD && (n == 0 || n >= 4)
    ensures
      var d := Behind(n, Message(sch, v));
      Framed(d) && Unread(sch, own, d) == if n == 0 then Keep(sch, own, v) else []
  {
    hide Encode, Keep, Decode;
    var m := Message(sch, v);
    var d := Behind(n, m);
    if n == 0 {
      assert d == m;
      UnreadMessage(sch, own, v);
    } else {
      assert d[0] == d[1] == d[2] == d[3] == 0;
      assert PrefixOf(d) == 0;
    }
  }

  /** An unsettled reader delivers the rest of the message written where its own was. */
  lemma OverwrittenDelivers<E(!new)>(sch: Schema<E>, own: nat, c: Cursor, st: Stream, v: seq<E>)
    requires ValidSchema(sch) && ValidCursor(c) && Reachable(c) && st.Valid() && !Settled(c)
    requires |Encode(sch, v)| == c.msgLen && NextIndex(c) < |v| && Wanted(sch, own, v[NextIndex(c)])
    ensures !AsFresh(sch, own, c, st)
  {
    hide Encode, Decode, Wanted, Framed, Unread, LittleEndian;
    var i, n, m := NextIndex(c), c.msgPtr.value - 4, Message(sch, v);
    var d := Behind(n, m);
    BehindFramed(sch, own, n, v);
    var t := Rewritten(st, d);
    assert BodyAt(c, t) == d[n + 4..] == m[4..] == Encode(sch, v);
    assert HasIdentifier(sch.ident, Encode(sch, v)) && Decode(sch, Encode(sch, v)) == Some(v);
    var w := Remaining(sch, c, t);
    assert w[0] == v[i];
    assert v[i] in Keep(sch, own, w) by { KeepSenders(sch, own, w); }
    assert Queue(sch, own, c, t) == Keep(sch, own, w) + Unread(sch, own, d);
  }

  /** A stuck reader delivers nothing as long as its message stays, even if others are written. */
  lemma StuckIsNotFresh<E(!new)>(sch: Schema<E>, own: nat, c: Cursor, st: Stream, v: seq<E>)
    requires ValidSchema(sch) && ValidCursor(c) && st.Valid() && Stuck(sch, c, st) && Keep(sch, own, v) != []
    requires |Message(sch, v)| <= c.msgPtr.value
    ensures !AsFresh(sch, own, c, st)
  {
    hide Encode, Decode, Keep, Framed, Unread, Clean, LittleEndian;
    var m := Message(sch, v);
    var t := Rewritten(st, m);
    assert BodyAt(c, t) == BodyAt(c, st);
    UnreadMessage(sch, own, v);
    assert Queue(sch, own, c, t) == [];
  }

  /** Right after truncation the rest of the current vector is still to be delivered. */
  lemma TruncateLeaves<E>(sch: Schema<E>, own: nat, c: Cursor, st: Stream)
    requires ValidCursor(c) && st.Valid()
    ensures
      var t := st.(len := 0, pos := 0);
      Framed(t.Rest()) && Queue(sch, own, c, t) == Current(sch, own, c, st)
  {
    hide Decode, Keep;
    EndOfStream(sch, own);
    assert st.(len := 0, pos := 0).Rest() == [];
    if c.msgPtr.Some? && !c.vector && Decode(sch, BodyAt(c, st)).None? {
      NothingKept(sch, own);
    }
  }

  /**
   That nothing is left in the current vector is not enough. The reader stands on the last
   element of a message of two, its own, and is truncated; a message of two others of the same
   size is written; the second of them is delivered twice.
   */
  lemma DeliveredTwice<E(!new)>(sch: Schema<E>, own: nat, v: seq<E>, w: seq<E>)
    requires ValidSchema(sch) && |v| == |w| == 2 && |Encode(sch, v)| == |Encode(sch, w)|
    requires |Message(sch, v)| <= BUFFER_LEN
    requires !Wanted(sch, own, v[1]) && Wanted(sch, own, w[0]) && Wanted(sch, own, w[1])
    ensures
      var c := Cursor(Some(4), |Encode(sch, v)|, true, 1, 2);
      var st := Stream(Placed(0, Message(sch, v)), |Message(sch, v)|, |Message(sch, v)|);
      var after := Rewritten(st, Message(sch, w));
      && Framed(after.Rest())
      && Current(sch, own, c, st) == []
      && Unread(sch, own, after.Rest()) == w
      && Queue(sch, own, c, after) == [w[1], w[0], w[1]]
  {
    hide Encode, Decode, Wanted, Framed, Unread, Clean, LittleEndian;
    var n, m, m' := |Encode(sch, v)|, Message(sch, v), Message(sch, w);
    var c := Cursor(Some(4), n, true, 1, 2);
    var st := Stream(Placed(0, m), |m|, |m|);
    var after := Rewritten(st, m');
    assert BodyAt(c, st) == m[4..] == Encode(sch, v);
    assert BodyAt(c, after) == m'[4..] == Encode(sch, w);
    assert HasIdentifier(sch.ident, Encode(sch, v)) && Decode(sch, Encode(sch, v)) == Some(v);
    assert HasIdentifier(sch.ident, Encode(sch, w)) && Decode(sch, Encode(sch, w)) == Some(w);
    UnreadMessage(sch, own, w);
    KeepAll(sch, own, w);
    assert Window(v, 1, 2) == [v[1]] && Window(w, 1, 2) == [w[1]];
    KeepNone(sch, own, [v[1]]);
    KeepAll(sch, own, [w[1]]);
    assert [w[1]] + w == [w[1], w[0], w[1]];
  }

  //////////////////////////////////////////////////////////////////////////////
  // The writer over whole runs
  //////////////////////////////////////////////////////////////////////////////

  datatype WriteOp<E> = Put(e: E) | Flush

  /** The builder, None while fbs_stream_initalized is false, and the stream. */
  datatype Writer<E> = Writer(builder: Option<seq<E>>, st: Stream)

  function Built<E>(w: Writer<E>): seq<E>
  {
    if w.builder.Some? then w.builder.value else []
  }

  function WriterStep<E>(sch: Schema<E>, w: Writer<E>, op: WriteOp<E>): (w': Writer<E>)
    requires w.st.Valid()
    ensures w'.st.Valid()
  {
    match op
    case Put(e) => w.(builder := Some(Built(w) + [e]))
    case Flush => Writer(None, if w.builder.Some? then w.st.Written(Message(sch, w.builder.value)) else w.st)
  }

  function RunWriter<E>(sch: Schema<E>, w: Writer<E>, ops: seq<WriteOp<E>>): (w': Writer<E>)
    requires w.st.Valid()
    ensures w'.st.Valid()
    decreases |ops|
  {
    if ops == [] then w else RunWriter(sch, WriterStep(sch, w, ops[0]), ops[1..])
  }

  /** Every message that is flushed finds room in the stream. */
  predicate NothingDropped<E>(sch: Schema<E>, w: Writer<E>, ops: seq<WriteOp<E>>)
    requires w.st.Valid()
    decreases |ops|
  {
    ops == [] ||
    ( && (ops[0].Flush? && w.builder.Some? ==> w.st.Fits(|Message(sch, w.builder.value)|))
      && NothingDropped(sch, WriterStep(sch, w, ops[0]), ops[1..]))
  }

  /** The elements put, in order. */
  function Puts<E>(ops: seq<WriteOp<E>>): seq<E>
  {
    if ops == [] then [] else (if ops[0].Put? then [ops[0].e] else []) + Puts(ops[1..])
  }

  /** A writer at the end of a clean stream. */
  predicate Appending<E>(sch: Schema<E>, w: Writer<E>)
  {
    w.st.Valid() && w.st.pos == w.st.len && Clean(sch, w.st.Data())
  }

  /** What another node will in the end read of the stream and the builder. */
  function Sent<E>(sch: Schema<E>, own: nat, w: Writer<E>): seq<E>
    requires Appending(sch, w)
  {
    CleanFramed(sch, w.st.Data());
    Unread(sch, own, w.st.Data()) + Keep(sch, own, Built(w))
  }

  lemma {:induction false} CleanFramed<E>(sch: Schema<E>, s: seq<byte>)
    requires Clean(sch, s)
    ensures Framed(s)
    decreases |s|
  {
    if s != [] { CleanFramed(sch, TailOf(s)); }
  }

  lemma StepMeans<E(!new)>(sch: Schema<E>, own: nat, w: Writer<E>, op: WriteOp<E>)
    requires ValidSchema(sch) && Appending(sch, w) && NothingDropped(sch, w, [op])
    ensures Appending(sch, WriterStep(sch, w, op))
    ensures Sent(sch, own, WriterStep(sch, w, op)) == Sent(sch, own, w) + Keep(sch, own, Puts([op]))
  {
    hide Framed, Clean, Unread, Keep, ValidSchema;
    var w' := WriterStep(sch, w, op);
    CleanFramed(sch, w.st.Data());
    NothingKept(sch, own);
    match op
    case Put(e) =>
      KeepConcat(sch, own, Built(w), [e]);
      assert Puts([op]) == [e];
    case Flush =>
      assert Puts([op]) == [];
      if w.builder.Some? {
        var v := w.builder.value;
        var m := Message(sch, v);
        assert w.st.Fits(|m|);
        UnreadMessage(sch, own, v);
        UnreadConcat(sch, own, w.st.Data(), m);
        WriteAtEnd(w.st, m);
      }
  }

  lemma NothingKept<E>(sch: Schema<E>, own: nat)
    ensures Keep(sch, own, []) == []
  {
  }

  /** Over a whole run of writes and flushes, what others will read grows by what was put. */
  lemma {:induction false} RunMeans<E(!new)>(sch: Schema<E>, own: nat, w: Writer<E>, ops: seq<WriteOp<E>>)
    requires ValidSchema(sch) && Appending(sch, w) && NothingDropped(sch, w, ops)
    ensures Appending(sch, RunWriter(sch, w, ops))
    ensures Sent(sch, own, RunWriter(sch, w, ops)) == Sent(sch, own, w) + Keep(sch, own, Puts(ops))
    decreases |ops|
  {
    hide Sent, Clean, ValidSchema, Keep, WriterStep;
    NothingKept(sch, own);
    if ops != [] {
      OneStep(sch, w, ops);
      StepMeans(sch, own, w, ops[0]);
      RunMeans(sch, own, WriterStep(sch, w, ops[0]), ops[1..]);
      assert Puts([ops[0]]) + Puts(ops[1..]) == Puts(ops);
      KeepConcat(sch, own, Puts([ops[0]]), Puts(ops[1..]));
    }
  }

  lemma OneStep<E>(sch: Schema<E>, w: Writer<E>, ops: seq<WriteOp<E>>)
    requires w.st.Valid() && ops != [] && NothingDropped(sch, w, ops)
    ensures NothingDropped(sch, w, [ops[0]])
  {
    hide Message;
  }

  /**
   Flush placement does not matter: two runs that put the same elements in the same order,
   each flushed at the end, deliver the same elements to any reader of the stream.
   */
  lemma FlushPlacement<E(!new)>(
    sch: Schema<E>, own: nat, w: Writer<E>, ops: seq<WriteOp<E>>, ops': seq<WriteOp<E>>)
    requires ValidSchema(sch) && Appending(sch, w) && Puts(ops) == Puts(ops')
    requires NothingDropped(sch, w, ops + [Flush]) && NothingDropped(sch, w, ops' + [Flush])
    ensures
      var d := RunWriter(sch, w, ops + [Flush]).st.Data();
      var d' := RunWriter(sch, w, ops' + [Flush]).st.Data();
      && Framed(d) && Framed(d')
      && Unread(sch, own, d) == Unread(sch, own, d') == Sent(sch, own, w) + Keep(sch, own, Puts(ops))
  {
    hide Sent, ValidSchema, Keep, Unread, Framed;
    FlushedRun(sch, own, w, ops);
    FlushedRun(sch, own, w, ops');
  }

  lemma FlushedRun<E(!new)>(sch: Schema<E>, own: nat, w: Writer<E>, ops: seq<WriteOp<E>>)
    requires ValidSchema(sch) && Appending(sch, w)
    requires NothingDropped(sch, w, ops + [Flush])
    ensures
      var d := RunWriter(sch, w, ops + [Flush]).st.Data();
      Framed(d) && Unread(sch, own, d) == Sent(sch, own, w) + Keep(sch, own, Puts(ops))
  {
    hide ValidSchema, Keep, Unread, Framed, Clean, NothingDropped;
    var w' := RunWriter(sch, w, ops + [Flush]);
    RunMeans(sch, own, w, ops + [Flush]);
    NothingKept(sch, own);
    LastFlush(sch, w, ops);
    CleanFramed(sch, w'.st.Data());
  }

  lemma {:induction false} LastFlush<E>(sch: Schema<E>, w: Writer<E>, ops: seq<WriteOp<E>>)
    requires w.st.Valid()
    ensures RunWriter(sch, w, ops + [Flush]).builder.None?
    ensures Puts(ops + [Flush]) == Puts(ops)
    decreases |ops|
  {
    hide Message;
    var all := ops + [Flush];
    if ops == [] {
      assert all == [Flush] && all[1..] == [];
      assert RunWriter(sch, WriterStep(sch, w, Flush), []) == WriterStep(sch, w, Flush);
    } else {
      assert all[0] == ops[0] && all[1..] == ops[1..] + [Flush];
      LastFlush(sch, WriterStep(sch, w, ops[0]), ops[1..]);
    }
  }

  /**
   The loop over a vector of `length` elements from index `from`, past absent and foreign
   elements and the reader's own. An index past the elements there are stands for an absent one.
   */
  method ScanVector<E>(schema: Schema<E>, ownId: byte, elements: seq<E>, from: nat, length: nat) returns (vi: nat)
    requires from <= length
    ensures from <= vi <= length
    ensures Keep(schema, ownId, Window(elements, from, length)) == Keep(schema, ownId, Window(elements, vi, length))
    ensures vi < length ==> vi < |elements| && Wanted(schema, ownId, elements[vi])
    ensures vi == length ==> Keep(schema, ownId, Window(elements, from, length)) == []
  {
    vi := from;
    while vi < length
      invariant from <= vi <= length
      invariant Keep(schema, ownId, Window(elements, from, length)) == Keep(schema, ownId, Window(elements, vi, length))
    {
      if vi < |elements| {
        ghost var w := Window(elements, vi, length);
        assert w[0] == elements[vi] && w[1..] == Window(elements, vi + 1, length);
        var sender := Sender(schema, elements[vi]);
        if sender.Some? && !(ownId != 0 && ownId == sender.value) { return; }
      } else {
        assert Window(elements, vi, length) == Window(elements, vi + 1, length) == [];
      }
      vi := vi + 1;
    }
  }

  class Codec<E(!new)> {
    const schema: Schema<E>
    const stream: BufferStream

    /** node_id of a CAN codec, swc_id of a PDU codec. */
    var ownId: byte

    // What is written and not yet flushed.
    var streamInitialized: bool
    var builder: seq<E>

    // Where the message being read lies.
    var msgPtr: Option<nat>
    var msgLen: nat

    // How far its vector has been read.
    var vector: bool
    var vectorIdx: nat
    var vectorLen: nat

    ghost predicate Valid()
      reads this, stream, stream.buffer
    {
      && stream.Valid()
      && ValidCursor(Parsing())
      && BuilderValid()
    }

    ghost predicate BuilderValid()
      reads this
    {
      !streamInitialized ==> builder == []
    }

    ghost function Parsing(): Cursor
      reads this
    {
      Cursor(msgPtr, msgLen, vector, vectorIdx, vectorLen)
    }

    /** The unread part of the stream is framed as messages. */
    ghost predicate WellFramed()
      requires stream.Valid()
      reads this, stream, stream.buffer
    {
      Framed(stream.State().Rest())
    }

    ghost function Pending(): seq<E>
      requires Valid() && WellFramed()
      reads this, stream, stream.buffer
    {
      Queue(schema, ownId, Parsing(), stream.State())
    }

    /** No message without a vector is in the way of reading all there is. */
    ghost predicate WillDrain()
      requires Valid() && WellFramed()
      reads this, stream, stream.buffer
    {
      Ahead(schema, Parsing(), stream.State())
    }

    ghost function WriterState(): Writer<E>
      requires stream.Valid()
      reads this, stream, stream.buffer
    {
      Writer(if streamInitialized then Some(builder) else None, stream.State())
    }

    /** No message is being read. */
    ghost predicate Drained()
      reads this
    {
      msgPtr.None? && !vector
    }

    constructor (schema: Schema<E>, stream: BufferStream, ownId: byte)
      requires stream.Valid()
      ensures Valid() && this.schema == schema && this.stream == stream && this.ownId == ownId
      ensures Drained() && Parsing() == NO_MESSAGE && !streamInitialized
    {
      this.schema, this.stream, this.ownId := schema, stream, ownId;
      streamInitialized, builder := false, [];
      msgPtr, msgLen := None, 0;
      vector, vectorIdx, vectorLen := false, 0, 0;
    }

    //////////////////////////////////////////////////////////////////////////////
    // Writer
    //////////////////////////////////////////////////////////////////////////////

    method InitializeStream()
      modifies `streamInitialized, `builder
      ensures streamInitialized
      ensures builder == if old(streamInitialized) then old(builder) else []
    {
      if streamInitialized { return; }
      builder := [];
      streamInitialized := true;
    }

    method ResetStream()
      requires BuilderValid()
      modifies `streamInitialized, `builder
      ensures !streamInitialized && builder == []
    {
      if !streamInitialized { return; }
      builder := [];
      streamInitialized := false;
    }

    method FinalizeStream() returns (buffer: Option<seq<byte>>)
      requires BuilderValid()
      modifies `streamInitialized, `builder
      ensures !streamInitialized && builder == []
      ensures buffer == if old(streamInitialized) then Some(Message(schema, old(builder))) else None
      ensures buffer.Some? ==>
        var b, body := buffer.value, Encode(schema, old(builder));
        && |b| == 4 + |body| && b[4..] == body
        && (|body| < 4294967296 ==>
              |body| == b[0] as nat + 256 * b[1] as nat + 65536 * b[2] as nat + 16777216 * b[3] as nat)
    {
      if !streamInitialized { return None; }
      buffer := Some(Message(schema, builder));
      if |Encode(schema, builder)| < WORD { LittleEndianValue(|Encode(schema, builder)|); }
      ResetStream();
    }

    method Write(e: E)
      requires Valid()
      modifies `streamInitialized, `builder
      ensures Valid() && streamInitialized && builder == old(builder) + [e]
      ensures WriterState() == WriterStep(schema, old(WriterState()), WriteOp.Put(e))
    {
      hide ValidCursor;
      InitializeStream();
      builder := builder + [e];
    }

    /** Returns the length of the message, also when the stream had no room for it. */
    method Flush() returns (length: nat)
      requires Valid()
      modifies `streamInitialized, `builder, stream, stream.buffer
      ensures Valid() && !streamInitialized && builder == []
      ensures WriterState() == WriterStep(schema, old(WriterState()), WriteOp.Flush)
      ensures length == if old(streamInitialized) then |Message(schema, old(builder))| else 0
    {
      var buffer := FinalizeStream();
      length := 0;
      if buffer.Some? {
        var _ := stream.Write(buffer.value);
        length := |buffer.value|;
      }
    }

    /** The builder and the stream are emptied; the parsing state stays as it is. */
    method Truncate()
      requires Valid()
      modifies `streamInitialized, `builder, stream`pos, stream`len
      ensures Valid() && !streamInitialized
      ensures stream.State() == old(stream.State()).(len := 0, pos := 0)
    {
      ResetStream();
      var _ := stream.Seek(0, SEEK_RESET);
    }

    //////////////////////////////////////////////////////////////////////////////
    // Reader
    //////////////////////////////////////////////////////////////////////////////

    /** One round of the message scan: the size prefix, and the stream moved past the message. */
    method NextHeader() returns (n: nat, body: seq<byte>)
      requires stream.Valid() && WellFramed() && stream.pos < stream.len
      modifies stream`pos, stream`len
      ensures stream.Valid() && WellFramed() && stream.len == old(stream.len)
      ensures n == 0 ==>
        old(Unread(schema, ownId, stream.State().Rest())) == [] && old(NeverSticks(schema, stream.State().Rest()))
      ensures n != 0 ==> stream.pos == old(stream.pos) + 4 + n
      ensures n != 0 && !HasIdentifier(schema.ident, body) ==>
        && Unread(schema, ownId, stream.State().Rest()) == old(Unread(schema, ownId, stream.State().Rest()))
        && NeverSticks(schema, stream.State().Rest()) == old(NeverSticks(schema, stream.State().Rest()))
      ensures n != 0 && HasIdentifier(schema.ident, body) ==>
        var c, st := Cursor(Some(old(stream.pos) + 4), n, false, 0, 0), stream.State();
        && ValidCursor(c)
        && Queue(schema, ownId, c, st) == old(Unread(schema, ownId, stream.State().Rest()))
        && Ahead(schema, c, st) == old(NeverSticks(schema, stream.State().Rest()))
        && (old(Offers(schema, ownId, stream.State().Rest())) ==>
              && Current(schema, ownId, c, st) != []
              && st.Rest() == old(BehindFirst(schema, ownId, stream.State().Rest())))
      ensures old(Offers(schema, ownId, stream.State().Rest())) ==> n != 0 && HasIdentifier(schema.ident, body)
    {
      hide Queue, Ahead, Framed, NeverSticks, Unread, HasIdentifier, BodyOf, TailOf, FromLittleEndian;
      var at := stream.pos;
      ghost var s := stream.State().Rest();
      ScanStep(schema, ownId, s);
      n := FromLittleEndian(stream.buffer[at..at + 4]);
      SliceOfSlice(stream.buffer[..], at, stream.len, 0, 4);
      assert s[..4] == stream.buffer[at..at + 4];
      body := [];
      if n != 0 {
        var _ := stream.Seek(n + 4, SEEK_CUR);
        body := stream.buffer[at + 4..at + 4 + n];
        SliceOfSlice(stream.buffer[..], at, stream.len, 4, 4 + n);
        assert body == s[4..4 + n];
        if HasIdentifier(schema.ident, body) {
          MessageEntered(schema, ownId, s, Cursor(Some(at + 4), n, false, 0, 0), stream.State());
        }
      }
    }

    /** get_msg_from_stream, get_stream_from_buffer: enter the next message of this schema. */
    method GetMsgFromStream()
      requires Valid() && WellFramed()
      modifies `msgPtr, `msgLen, `vector, `vectorIdx, `vectorLen, stream`pos, stream`len
      ensures Valid() && WellFramed() && !vector && stream.len == old(stream.len)
      ensures Pending() == old(Unread(schema, ownId, stream.State().Rest()))
      ensures msgPtr.Some? ==> stream.pos > old(stream.pos)
      ensures msgPtr.None? ==> stream.pos == stream.len
      ensures WillDrain() == old(NeverSticks(schema, stream.State().Rest()))
      ensures old(Offers(schema, ownId, stream.State().Rest())) ==>
        && stream.State().Rest() == old(BehindFirst(schema, ownId, stream.State().Rest()))
        && Current(schema, ownId, Parsing(), stream.State()) != []
    {
      hide Queue, Ahead, Framed, NeverSticks, Unread, HasIdentifier, Current, Offers, BehindFirst;
      ghost var s := stream.State().Rest();
      msgPtr, msgLen := None, 0;
      vector, vectorIdx, vectorLen := false, 0, 0;

      var data, length := stream.Read(false);
      var start, at := stream.pos, 0;
      while at < length
        invariant stream.Valid() && Parsing() == NO_MESSAGE && stream.len == old(stream.len)
        invariant at <= length == stream.len - start && stream.pos == start + at >= old(stream.pos)
        invariant WellFramed()
        invariant Unread(schema, ownId, stream.State().Rest()) == Unread(schema, ownId, s)
        invariant NeverSticks(schema, stream.State().Rest()) == NeverSticks(schema, s)
        invariant Offers(schema, ownId, s) ==> stream.State().Rest() == s
        decreases length - at
      {
        var n, body := NextHeader();
        if n == 0 { break; }
        if HasIdentifier(schema.ident, body) {
          // The queue of this cursor is all that the stream had to offer.
          msgPtr, msgLen := Some(start + at + 4), n;
          return;
        }
        at := at + 4 + n;
      }
      // Either every message was foreign or a zero prefix hides the rest: the queue is empty.
      var _ := stream.Seek(0, SEEK_END);
      NothingLeft(schema, ownId, stream.State());
      assert Unread(schema, ownId, s) == [] && NeverSticks(schema, s) && !Offers(schema, ownId, s) by {
        if at == length { assert stream.State().Rest() == []; EndOfStream(schema, ownId); }
      }
    }

    /** get_vector_from_message, get_vector_from_stream. */
    method GetVectorFromMessage()
      requires Valid() && WellFramed() && !vector
      modifies `vector, `vectorIdx, `vectorLen
      ensures Valid() && WellFramed()
      ensures Pending() == old(Pending()) && WillDrain() == old(WillDrain())
      ensures vector || msgPtr.None? || Stuck(schema, Parsing(), stream.State())
      ensures InStep(schema, Parsing(), stream.State())
      ensures
        Current(schema, ownId, Parsing(), stream.State()) == old(Current(schema, ownId, Parsing(), stream.State()))
      ensures Current(schema, ownId, Parsing(), stream.State()) != [] ==> vector
    {
      hide Framed, NeverSticks, Keep, Unread, Decode;
      ghost var before := Parsing();
      vector, vectorIdx, vectorLen := false, 0, 0;
      NothingKept(schema, ownId);
      if msgPtr.None? { return; }
      var elements := Decode(schema, stream.buffer[msgPtr.value..msgPtr.value + msgLen]);
      if elements.Some? {
        VectorEntered(schema, ownId, before, stream.State(), elements.value);
        vector, vectorLen := true, |elements.value|;
      }
    }

    /** The next wanted element of the current vector, or none left in it. */
    method NextElement() returns (found: Option<E>)
      requires Valid() && vector && WellFramed()
      modifies `vectorIdx
      ensures Valid() && WellFramed()
      ensures WillDrain() == old(WillDrain())
      ensures
        if found.Some? then old(Pending()) == [found.value] + Pending()
        else old(Pending()) == Unread(schema, ownId, stream.State().Rest())
      ensures found.None? ==> old(Current(schema, ownId, Parsing(), stream.State())) == []
      ensures found.Some? && old(InStep(schema, Parsing(), stream.State())) ==>
        Resting(schema, ownId, Parsing(), stream.State())
    {
      hide Framed, NeverSticks, Unread, Decode, Keep, Wanted, Window;
      ghost var c, st := Parsing(), stream.State();
      var decoded := Decode(schema, stream.buffer[msgPtr.value..msgPtr.value + msgLen]);
      var elements := if decoded.Some? then decoded.value else [];
      var vi := ScanVector(schema, ownId, elements, vectorIdx, vectorLen);
      NothingKept(schema, ownId);
      if vi == vectorLen { return None; }
      // The next call goes on behind the element delivered by this one.
      ElementFound(schema, ownId, c, st, elements, vi);
      vectorIdx := vi + 1;
      return Some(elements[vi]);
    }

    /** From the end of one vector into the next. */
    method NextMessage()
      requires Valid() && WellFramed() && vector
      modifies `msgPtr, `msgLen, `vector, `vectorIdx, `vectorLen, stream`pos, stream`len
      ensures Valid() && WellFramed() && stream.len == old(stream.len)
      ensures Pending() == old(Unread(schema, ownId, stream.State().Rest())) && WillDrain() == old(WillDrain())
      ensures stream.pos >= old(stream.pos) && (vector ==> stream.pos > old(stream.pos))
      ensures vector || (msgPtr.None? && stream.pos == stream.len) || Stuck(schema, Parsing(), stream.State())
      ensures InStep(schema, Parsing(), stream.State())
    {
      hide Framed, NeverSticks, Unread, Queue, Ahead, Stuck;
      OnlyStreamAhead(schema, ownId, Parsing(), stream.State());
      GetMsgFromStream();
      if msgPtr.Some? { GetVectorFromMessage(); }
    }

    /**
     can_read, pdu_read: None stands for -ENOMSG. The call returns and removes the head of the
     queue, and fails exactly when the queue is empty. A reader that fails is drained if and
     only if no message without a vector was in its way.
     */
    method Read() returns (found: Option<E>)
      requires Valid() && WellFramed()
      modifies `msgPtr, `msgLen, `vector, `vectorIdx, `vectorLen, stream`pos, stream`len
      ensures Valid() && WellFramed() && stream.len == old(stream.len)
      ensures
        if old(Pending()) == [] then found.None? && Pending() == [] && stream.pos == stream.len
        else found == Some(old(Pending())[0]) && Pending() == old(Pending())[1..]
      ensures WillDrain() == old(WillDrain())
      ensures found.None? ==> (Drained() <==> WillDrain())
      ensures old(Resting(schema, ownId, Parsing(), stream.State())) ==>
        Resting(schema, ownId, Parsing(), stream.State())
      ensures old(Drained() && Offers(schema, ownId, stream.State().Rest())) ==>
        stream.State().Rest() == old(BehindFirst(schema, ownId, stream.State().Rest()))
    {
      hide Framed, NeverSticks, Keep, Unread, Decode, Queue, Ahead, Stuck, Resting, InStep, Current, Offers,
        BehindFirst;
      ghost var q, w, s := Pending(), WillDrain(), stream.State().Rest();
      ghost var first := Drained() && Offers(schema, ownId, s);
      ghost var rests := Resting(schema, ownId, Parsing(), stream.State());
      RestingInStep(schema, ownId, Parsing(), stream.State());
      if msgPtr.None? {
        OnlyStreamAhead(schema, ownId, Parsing(), stream.State());
        GetMsgFromStream();
      }
      if !vector { GetVectorFromMessage(); }
      while msgPtr.Some? && vector
        invariant Valid() && WellFramed() && stream.len == old(stream.len)
        invariant Pending() == q && WillDrain() == w
        invariant vector || (msgPtr.None? && stream.pos == stream.len) || Stuck(schema, Parsing(), stream.State())
        invariant rests ==> InStep(schema, Parsing(), stream.State())
        invariant first ==>
          && stream.State().Rest() == BehindFirst(schema, ownId, s)
          && vector && Current(schema, ownId, Parsing(), stream.State()) != []
        decreases stream.len - stream.pos, vector
      {
        found := NextElement();
        if found.Some? { return; }
        NextMessage();
      }
      ReaderStops(schema, ownId, Parsing(), stream.State());
      var _ := stream.Seek(0, SEEK_END);
      found := None;
    }

    /** Reading until -ENOMSG, as every caller of ncodec_read does. */
    method ReadAll() returns (all: seq<E>)
      requires Valid() && WellFramed()
      modifies `msgPtr, `msgLen, `vector, `vectorIdx, `vectorLen, stream`pos, stream`len
      ensures Valid() && WellFramed()
      ensures all == old(Pending()) && Pending() == []
      ensures stream.pos == stream.len == old(stream.len)
      ensures Drained() <==> old(WillDrain())
    {
      hide ValidCursor, Queue, Ahead, Framed, Resting, Offers, BehindFirst;
      all := [];
      while true
        invariant Valid() && WellFramed() && stream.len == old(stream.len)
        invariant all + Pending() == old(Pending()) && WillDrain() == old(WillDrain())
        decreases |Pending()|
      {
        var e := Read();
        if e.None? { break; }
        all := all + [e.value];
      }
    }
  }
}
