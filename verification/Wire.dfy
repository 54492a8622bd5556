/**
 What the bytes of a codec stream mean. A stream is a run of messages, each a four-byte
 size prefix and a body whose bytes 4..8 are the identifier of its schema; the body of a
 message of one's own schema carries a vector of elements (frames or PDUs).

 The FlatBuffers layout of a body is a parameter: a `Schema` names the identifier, the
 builder and the reader of a vector, and how an element names its sender.
 */
module Wire {
  import opened Bytes

  datatype Schema<!E> = Schema(
    ident: seq<byte>,
    encode: seq<E> -> seq<byte>,
    decode: seq<byte> -> Option<seq<E>>,  // None: the message has no vector
    sender: E -> Option<nat>)             // None: an absent element or one of another type

  function Encode<E>(sch: Schema<E>, v: seq<E>): seq<byte> { sch.encode(v) }

  function Decode<E>(sch: Schema<E>, body: seq<byte>): Option<seq<E>> { sch.decode(body) }

  function Sender<E>(sch: Schema<E>, e: E): Option<nat> { sch.sender(e) }

  predicate HasIdentifier(ident: seq<byte>, body: seq<byte>)
  {
    |body| >= 8 && body[4..8] == ident
  }

  ghost predicate ValidSchema<E(!new)>(sch: Schema<E>)
  {
    && |sch.ident| == 4
    && forall v: seq<E> ::
         HasIdentifier(sch.ident, Encode(sch, v)) && Decode(sch, Encode(sch, v)) == Some(v)
  }

  //////////////////////////////////////////////////////////////////////////////
  // Framing
  //////////////////////////////////////////////////////////////////////////////

  function PrefixOf(s: seq<byte>): (n: nat)
    requires |s| >= 4
  {
    FromLittleEndian(s[..4])
  }

  /** Messages end to end; a zero size prefix ends the scan wherever it stands. */
  predicate Framed(s: seq<byte>)
    decreases |s|
  {
    if s == [] then true
    else
      && |s| >= 4
      && var n := PrefixOf(s);
         n == 0 || (8 <= n <= |s| - 4 && Framed(s[4 + n..]))
  }

  predicate AtMessage(s: seq<byte>)
  {
    s != [] && Framed(s) && PrefixOf(s) != 0
  }

  function BodyOf(s: seq<byte>): (body: seq<byte>)
    requires AtMessage(s)
    ensures |body| >= 8
  {
    s[4..4 + PrefixOf(s)]
  }

  function TailOf(s: seq<byte>): (t: seq<byte>)
    requires AtMessage(s)
    ensures Framed(t) && |t| < |s|
  {
    s[4 + PrefixOf(s)..]
  }

  /** Framed, never ended early, and every message of this schema carries a vector. */
  predicate Clean<E>(sch: Schema<E>, s: seq<byte>)
    decreases |s|
  {
    s == [] ||
    ( && AtMessage(s)
      && (HasIdentifier(sch.ident, BodyOf(s)) ==> Decode(sch, BodyOf(s)).Some?)
      && Clean(sch, TailOf(s)))
  }

  /** No message of this schema that a reader would reach is without a vector. */
  predicate NeverSticks<E>(sch: Schema<E>, s: seq<byte>)
    requires Framed(s)
    decreases |s|
  {
    AtMessage(s) ==>
      && (HasIdentifier(sch.ident, BodyOf(s)) ==> Decode(sch, BodyOf(s)).Some?)
      && NeverSticks(sch, TailOf(s))
  }

  lemma {:induction false} CleanNeverSticks<E>(sch: Schema<E>, s: seq<byte>)
    requires Clean(sch, s)
    ensures Framed(s) && NeverSticks(sch, s)
    decreases |s|
  {
    hide Decode, HasIdentifier, BodyOf;
    if s != [] { CleanNeverSticks(sch, TailOf(s)); }
  }

  //////////////////////////////////////////////////////////////////////////////
  // Meaning
  //////////////////////////////////////////////////////////////////////////////

  /** A reader with own id 0 does not filter. */
  predicate Wanted<E>(sch: Schema<E>, own: nat, e: E)
  {
    Sender(sch, e).Some? && !(own != 0 && Sender(sch, e).value == own)
  }

  function Keep<E>(sch: Schema<E>, own: nat, v: seq<E>): (r: seq<E>)
  {
    if v == [] then []
    else (if Wanted(sch, own, v[0]) then [v[0]] else []) + Keep(sch, own, v[1..])
  }

  /** The elements a reader is still to deliver from stream bytes s. */
  function Unread<E>(sch: Schema<E>, own: nat, s: seq<byte>): seq<E>
    requires Framed(s)
    decreases |s|
  {
    if !AtMessage(s) then []
    else if !HasIdentifier(sch.ident, BodyOf(s)) then Unread(sch, own, TailOf(s))
    else
      match Decode(sch, BodyOf(s))
      case None => []
      case Some(v) => Keep(sch, own, v) + Unread(sch, own, TailOf(s))
  }

  /** A finalized builder buffer: size prefix and body. */
  function Message<E>(sch: Schema<E>, v: seq<E>): seq<byte>
  {
    LittleEndian(|Encode(sch, v)|) + Encode(sch, v)
  }

  //////////////////////////////////////////////////////////////////////////////
  // Filtering
  //////////////////////////////////////////////////////////////////////////////

  lemma {:induction false} KeepConcat<E>(sch: Schema<E>, own: nat, a: seq<E>, b: seq<E>)
    ensures Keep(sch, own, a + b) == Keep(sch, own, a) + Keep(sch, own, b)
  {
    if a == [] {
      assert a + b == b;
    } else {
      assert (a + b)[1..] == a[1..] + b;
      KeepConcat(sch, own, a[1..], b);
    }
  }

  /** Filtering by an own id after reading unfiltered is the filtered reading. */
  lemma {:induction false} KeepTwice<E>(sch: Schema<E>, own: nat, v: seq<E>)
    ensures Keep(sch, own, Keep(sch, 0, v)) == Keep(sch, own, v)
  {
    if v != [] {
      KeepTwice(sch, own, v[1..]);
      KeepConcat(sch, own, if Wanted(sch, 0, v[0]) then [v[0]] else [], Keep(sch, 0, v[1..]));
    }
  }

  /** No element of one's own is ever kept, and every other sender's element is. */
  lemma {:induction false} KeepSenders<E>(sch: Schema<E>, own: nat, v: seq<E>)
    ensures forall e :: e in Keep(sch, own, v) <==>
      e in v && Sender(sch, e).Some? && (own == 0 || Sender(sch, e).value != own)
  {
    if v != [] {
      KeepSenders(sch, own, v[1..]);
      assert v == [v[0]] + v[1..];
    }
  }

  lemma {:induction false} KeptAreWanted<E>(sch: Schema<E>, own: nat, v: seq<E>)
    ensures forall i | 0 <= i < |Keep(sch, own, v)| :: Wanted(sch, own, Keep(sch, own, v)[i])
  {
    if v != [] { KeptAreWanted(sch, own, v[1..]); }
  }

  lemma {:induction false} KeepAll<E>(sch: Schema<E>, own: nat, v: seq<E>)
    requires forall i | 0 <= i < |v| :: Wanted(sch, own, v[i])
    ensures Keep(sch, own, v) == v
  {
    if v != [] { KeepAll(sch, own, v[1..]); }
  }

  lemma {:induction false} KeepNone<E>(sch: Schema<E>, own: nat, v: seq<E>)
    requires forall i | 0 <= i < |v| :: !Wanted(sch, own, v[i])
    ensures Keep(sch, own, v) == []
  {
    if v != [] { KeepNone(sch, own, v[1..]); }
  }

  lemma {:induction false} UnreadFiltered<E>(sch: Schema<E>, own: nat, s: seq<byte>)
    requires Framed(s)
    ensures Unread(sch, own, s) == Keep(sch, own, Unread(sch, 0, s))
    decreases |s|
  {
    if AtMessage(s) {
      UnreadFiltered(sch, own, TailOf(s));
      if HasIdentifier(sch.ident, BodyOf(s)) && Decode(sch, BodyOf(s)).Some? {
        var v := Decode(sch, BodyOf(s)).value;
        KeepTwice(sch, own, v);
        KeepConcat(sch, own, Keep(sch, 0, v), Unread(sch, 0, TailOf(s)));
      }
    }
  }

  //////////////////////////////////////////////////////////////////////////////
  // Concatenation
  //////////////////////////////////////////////////////////////////////////////

  lemma HeadOfConcat(a: seq<byte>, b: seq<byte>)
    requires AtMessage(a) && Framed(TailOf(a) + b)
    ensures AtMessage(a + b) && BodyOf(a + b) == BodyOf(a) && TailOf(a + b) == TailOf(a) + b
  {
    assert (a + b)[..4] == a[..4];
    assert (a + b)[4 + PrefixOf(a)..] == TailOf(a) + b;
    assert (a + b)[4..4 + PrefixOf(a)] == BodyOf(a);
  }

  /** Appending to a clean stream appends to what is read from it. */
  lemma {:induction false} UnreadConcat<E>(sch: Schema<E>, own: nat, a: seq<byte>, b: seq<byte>)
    requires Clean(sch, a) && Framed(b)
    ensures Framed(a) && Framed(a + b)
    ensures Unread(sch, own, a + b) == Unread(sch, own, a) + Unread(sch, own, b)
    ensures Clean(sch, b) ==> Clean(sch, a + b)
    decreases |a|
  {
    hide Keep, Framed, BodyOf, TailOf;
    NoMessage();
    if a == [] {
      assert a + b == b;
    } else {
      UnreadConcat(sch, own, TailOf(a), b);
      HeadOfConcat(a, b);
    }
  }

  /** Nothing behind a zero size prefix is ever read. */
  lemma HiddenByZero<E>(sch: Schema<E>, own: nat, a: seq<byte>, b: seq<byte>)
    requires Clean(sch, a) && |b| >= 4 && b[0] == b[1] == b[2] == b[3] == 0
    ensures Framed(a) && Framed(a + b) && Unread(sch, own, a + b) == Unread(sch, own, a)
  {
    hide Keep, Clean, Decode;
    assert PrefixOf(b) == 0;
    UnreadConcat(sch, own, a, b);
  }

  /** Nor is anything from a message of this schema on that has no vector. */
  lemma HiddenByMessage<E>(sch: Schema<E>, own: nat, a: seq<byte>, b: seq<byte>)
    requires Clean(sch, a) && AtMessage(b) && HasIdentifier(sch.ident, BodyOf(b)) && Decode(sch, BodyOf(b)).None?
    ensures Framed(a) && Framed(a + b) && Unread(sch, own, a + b) == Unread(sch, own, a)
  {
    hide Keep, Clean, Decode, Framed;
    UnreadConcat(sch, own, a, b);
  }

  lemma MessageShape<E(!new)>(sch: Schema<E>, v: seq<E>)
    requires ValidSchema(sch) && |Encode(sch, v)| < WORD
    ensures
      var s := Message(sch, v);
      AtMessage(s) && BodyOf(s) == Encode(sch, v) && TailOf(s) == []
  {
    hide LittleEndian, FromLittleEndian;
    var s, body := Message(sch, v), Encode(sch, v);
    LittleEndianRoundTrip(|body|);
    assert HasIdentifier(sch.ident, body);
    assert s[..4] == LittleEndian(|body|);
    assert s[4..4 + PrefixOf(s)] == body && s[4 + PrefixOf(s)..] == [];
    NoMessage();
  }

  /** A finalized message is a clean stream and means the kept part of its vector. */
  lemma UnreadMessage<E(!new)>(sch: Schema<E>, own: nat, v: seq<E>)
    requires ValidSchema(sch) && |Encode(sch, v)| < WORD
    ensures Clean(sch, Message(sch, v)) && Framed(Message(sch, v))
    ensures Unread(sch, own, Message(sch, v)) == Keep(sch, own, v)
  {
    hide Message, Keep, Framed, BodyOf, TailOf;
    MessageShape(sch, v);
    NoMessage();
    assert HasIdentifier(sch.ident, Encode(sch, v)) && Decode(sch, Encode(sch, v)) == Some(v);
  }

  //////////////////////////////////////////////////////////////////////////////
  // Mixed streams
  //////////////////////////////////////////////////////////////////////////////

  /** The stream with only those messages left whose identifier is selected. */
  function Select(keep: seq<byte> -> bool, s: seq<byte>): seq<byte>
    requires Framed(s)
    decreases |s|
  {
    if !AtMessage(s) then []
    else (if keep(BodyOf(s)[4..8]) then s[..4 + PrefixOf(s)] else []) + Select(keep, TailOf(s))
  }

  lemma FirstMessageKept(s: seq<byte>, rest: seq<byte>)
    requires AtMessage(s) && Framed(rest)
    ensures
      var t := s[..4 + PrefixOf(s)] + rest;
      AtMessage(t) && BodyOf(t) == BodyOf(s) && TailOf(t) == rest
  {
    var t := s[..4 + PrefixOf(s)] + rest;
    assert t[..4] == s[..4];
    assert t[4..4 + PrefixOf(t)] == BodyOf(s) && t[4 + PrefixOf(t)..] == rest;
  }

  /**
   Mixed streams do not interfere: taking messages of other schemas out of a stream, some or
   all of them, changes nothing of what a reader of this schema delivers.
   */
  lemma {:induction false} ForeignMessagesInvisible<E>(sch: Schema<E>, own: nat, keep: seq<byte> -> bool, s: seq<byte>)
    requires Framed(s) && keep(sch.ident)
    ensures Framed(Select(keep, s))
    ensures Unread(sch, own, Select(keep, s)) == Unread(sch, own, s)
    decreases |s|
  {
    hide Keep, Framed, BodyOf, TailOf;
    if AtMessage(s) {
      ForeignMessagesInvisible(sch, own, keep, TailOf(s));
      var rest := Select(keep, TailOf(s));
      if keep(BodyOf(s)[4..8]) {
        FirstMessageKept(s, rest);
      } else {
        assert !HasIdentifier(sch.ident, BodyOf(s));
        assert Select(keep, s) == rest;
      }
    } else {
      NoMessage();
    }
  }

  lemma NoMessage()
    ensures Framed([]) && !AtMessage([])
  {
  }
}
