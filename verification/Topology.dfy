/**
 The bus topology of bus_topology.c: FMI variables indexed to the streams of codecs.

 The indexes are keyed by the decimal text of a value reference, as the hash maps are; the
 encode and decode functions are ascii85 where configured. Allocated buffers are arrays, and
 the free list must hold each one handed out until it is released, once.
 */
module Topology {
  import opened Bytes
  import opened Streams
  import opened Wire
  import opened Codec
  import Ascii85

  //////////////////////////////////////////////////////////////////////////////
  // Keys
  //////////////////////////////////////////////////////////////////////////////

  const HASH_KEY_LEN: nat := 11

  /** How many keys of decimal numbers there are before one is cut. */
  const LIMIT: nat := 10_000_000_000

  /** snprintf into a buffer of HASH_KEY_LEN: at most HASH_KEY_LEN - 1 characters. */
  function KeyOf(n: nat): string
  {
    var s := Decimal(n);
    if |s| < HASH_KEY_LEN then s else s[..HASH_KEY_LEN - 1]
  }

  /** Keys of fewer than 10^10 numbers, and so of all value references, are neither cut nor shared. */
  lemma KeysDistinct(m: nat, n: nat)
    requires m < LIMIT && n < LIMIT
    ensures KeyOf(m) == Decimal(m)
    ensures KeyOf(m) == KeyOf(n) ==> m == n
  {
    hide Decimal, Pow10;
    TenToTheNine();
    DecimalLength(m, 10);
    DecimalLength(n, 10);
    if KeyOf(m) == KeyOf(n) { DecimalInjective(m, n); }
  }

  /** The next key is cut at ten characters and is that of an earlier number. */
  lemma KeysCollide()
    ensures KeyOf(10_000_000_000) == KeyOf(1_000_000_000)
  {
    hide Decimal, Zeros, Pow10;
    TenToTheNine();
    TrailingZeros(1, 9);
    TrailingZeros(1, 10);
    assert Zeros(10) == Zeros(9) + "0" by { OneMoreZero(9); }
    assert |Decimal(1)| == 1 by { OneDigit(); }
    assert (Decimal(1) + Zeros(10))[..10] == Decimal(1) + Zeros(9);
  }

  /** The first n keys are all different if and only if there are at most 10^10 of them. */
  lemma KeysDistinctIff(n: nat)
    ensures (forall i, j | 0 <= i < j < n :: KeyOf(i) != KeyOf(j)) <==> n <= LIMIT
  {
    hide KeyOf;
    if n <= LIMIT {
      forall i, j | 0 <= i < j < n ensures KeyOf(i) != KeyOf(j) {
        KeysDistinct(i, j);
      }
    } else {
      KeysCollide();
    }
  }

  //////////////////////////////////////////////////////////////////////////////
  // The free list
  //////////////////////////////////////////////////////////////////////////////

  /** Filing buffers one after the other, each under the number of nodes already used. */
  function FreeListOf<T>(bufs: seq<T>): map<string, T>
  {
    if bufs == [] then map[]
    else
      var list := FreeListOf(bufs[..|bufs| - 1]);
      list[KeyOf(|list|) := bufs[|bufs| - 1]]
  }

  /** The number whose key is used again, for every buffer after the first 10^10. */
  const REUSED: nat := 1_000_000_000

  /** Which of n buffers the i-th key holds, and which key, if any, holds the i-th buffer. */
  function Filed(n: nat, i: nat): nat
  {
    if i == REUSED && n > LIMIT then n - 1 else i
  }

  function Slot(n: nat, i: nat): Option<nat>
  {
    if i < LIMIT && !(i == REUSED && n > LIMIT) then Some(i)
    else if i == n - 1 then Some(REUSED)
    else None
  }

  /**
   The list holds, each under its own key, the buffers filed, except that behind the first
   10^10 one key holds only the last of them.
   */
  lemma {:induction false} FreeListHolds<T>(bufs: seq<T>)
    ensures
      var list, n := FreeListOf(bufs), Min(|bufs|, LIMIT);
      && |list| == n
      && (forall i | 0 <= i < n :: KeyOf(i) in list && list[KeyOf(i)] == bufs[Filed(|bufs|, i)])
      && (forall k <- list :: exists i :: 0 <= i < n && k == KeyOf(i))
  {
    hide KeyOf;
    if bufs != [] {
      var init := bufs[..|bufs| - 1];
      var list, n := FreeListOf(init), Min(|init|, LIMIT);
      FreeListHolds(init);
      if |init| < LIMIT {
        forall i | 0 <= i < n ensures KeyOf(i) != KeyOf(n) {
          KeysDistinct(i, n);
        }
        assert KeyOf(n) !in list;
      } else {
        KeysCollide();
        forall i | 0 <= i < n && i != REUSED ensures KeyOf(i) != KeyOf(REUSED) {
          KeysDistinct(i, REUSED);
        }
      }
    }
  }

  /** The keys under which a buffer is filed. */
  function KeysHolding<T(==)>(list: map<string, T>, b: T): set<string>
  {
    set k <- list | list[k] == b
  }

  lemma KeyHolds<T>(bufs: seq<T>, i: nat, j: nat)
    requires NoDuplicates(bufs) && i < |bufs| && j < Min(|bufs|, LIMIT)
    ensures KeyOf(j) in FreeListOf(bufs)
    ensures FreeListOf(bufs)[KeyOf(j)] == bufs[i] <==> Slot(|bufs|, i) == Some(j)
    ensures Slot(|bufs|, i).Some? ==> Slot(|bufs|, i).value < Min(|bufs|, LIMIT)
  {
    hide KeyOf, FreeListOf;
    FreeListHolds(bufs);
  }

  /** Every buffer filed is held under one key, or under none: never under two. */
  lemma HeldOnce<T>(bufs: seq<T>, i: nat)
    requires NoDuplicates(bufs) && i < |bufs|
    ensures
      var s := Slot(|bufs|, i);
      KeysHolding(FreeListOf(bufs), bufs[i]) == if s.Some? then {KeyOf(s.value)} else {}
  {
    hide KeyOf, FreeListOf, Slot;
    var n, list := Min(|bufs|, LIMIT), FreeListOf(bufs);
    FreeListHolds(bufs);
    forall j | 0 <= j < n
      ensures KeyOf(j) in list && (list[KeyOf(j)] == bufs[i] <==> Slot(|bufs|, i) == Some(j))
      ensures Slot(|bufs|, i).Some? ==> Slot(|bufs|, i).value < n
    {
      KeyHolds(bufs, i, j);
    }
  }

  /** What clearing the list releases: every key's buffer, and so no buffer twice. */
  lemma ListReleased(bufs: seq<array<byte>>, before: multiset<array<byte>>, after: multiset<array<byte>>)
    requires FreeListKept(FreeListOf(bufs), bufs, before)
    requires forall b: array<byte> :: after[b] == before[b] + |KeysHolding(FreeListOf(bufs), b)|
    ensures forall b | b in after :: after[b] == 1
    ensures after == before + multiset(bufs) <==> |bufs| <= LIMIT
  {
    hide KeyOf, FreeListOf, KeysHolding;
    forall b: array<byte>
      ensures multiset(bufs)[b] == (if b in bufs then 1 else 0)
      ensures |KeysHolding(FreeListOf(bufs), b)| <= multiset(bufs)[b]
      ensures |bufs| <= LIMIT ==> |KeysHolding(FreeListOf(bufs), b)| == multiset(bufs)[b]
    {
      if i :| 0 <= i < |bufs| && bufs[i] == b {
        HeldOnce(bufs, i);
        CountedOnce(bufs, i);
      } else {
        HeldNever(bufs, b);
      }
    }
    if |bufs| > LIMIT { HeldOnce(bufs, REUSED); }
  }

  lemma CountedOnce<T>(s: seq<T>, i: nat)
    requires NoDuplicates(s) && i < |s|
    ensures multiset(s)[s[i]] == 1
  {
    assert s == s[..i] + [s[i]] + s[i + 1..];
    assert s[i] !in s[..i] && s[i] !in s[i + 1..];
  }

  /** The buffers under all keys of the list but some have been freed. */
  ghost predicate FreedExcept(
    list: map<string, array<byte>>, todo: set<string>, before: multiset<array<byte>>, after: multiset<array<byte>>)
  {
    && before <= after
    && (forall b | b in after :: after[b] == before[b] + |KeysHolding(list, b) - todo|)
    && (forall k | k in list :: k in todo || list[k] in after)
  }

  lemma NoneFreed(list: map<string, array<byte>>, before: multiset<array<byte>>)
    ensures FreedExcept(list, list.Keys, before, before)
  {
    assert forall b | b in before :: KeysHolding(list, b) - list.Keys == {};
  }

  lemma OneMoreKey(held: set<string>, todo: set<string>, k: string)
    requires k in todo
    ensures |held - (todo - {k})| == |held - todo| + if k in held then 1 else 0
  {
    assert held - (todo - {k}) == held - todo + if k in held then {k} else {};
  }

  lemma OneMoreFreed(
    list: map<string, array<byte>>, todo: set<string>, k: string,
    before: multiset<array<byte>>, after: multiset<array<byte>>)
    requires FreedExcept(list, todo, before, after) && k in todo && k in list
    ensures FreedExcept(list, todo - {k}, before, after + multiset{list[k]})
  {
    var after' := after + multiset{list[k]};
    forall b | b in after'
      ensures after'[b] == before[b] + |KeysHolding(list, b) - (todo - {k})|
    {
      var held := KeysHolding(list, b);
      if b !in after { assert held - todo == {}; }
      OneMoreKey(held, todo, k);
    }
  }

  lemma AllFreed(list: map<string, array<byte>>, before: multiset<array<byte>>, after: multiset<array<byte>>)
    requires FreedExcept(list, {}, before, after)
    ensures forall b: array<byte> :: after[b] == before[b] + |KeysHolding(list, b)|
  {
    forall b: array<byte> ensures after[b] == before[b] + |KeysHolding(list, b)| {
      var held := KeysHolding(list, b);
      assert held - {} == held;
      if b !in after { assert held == {}; }
    }
  }

  lemma NothingFiled<T>()
    ensures FreeListOf<T>([]) == map[]
  {
  }

  lemma HeldNever<T>(bufs: seq<T>, b: T)
    requires b !in bufs
    ensures KeysHolding(FreeListOf(bufs), b) == {}
  {
    hide KeyOf, FreeListOf;
    FreeListHolds(bufs);
    var list, n := FreeListOf(bufs), Min(|bufs|, LIMIT);
    forall k <- list ensures list[k] in bufs {
      var i :| 0 <= i < n && k == KeyOf(i);
    }
  }

  //////////////////////////////////////////////////////////////////////////////
  // What rx and tx do to one stream
  //////////////////////////////////////////////////////////////////////////////

  /** Written at the end, or dropped whole when there is no room; then back to the start. */
  function Received(st: Stream, data: seq<byte>): (r: Stream)
    requires st.Valid()
    ensures r.Valid() && r.pos == 0
  {
    st.(pos := st.len).Written(data).(pos := 0)
  }

  /** The bytes a received value stands for, and the value that stands for bytes sent. */
  function Payload(decode: set<string>, vr: nat, data: seq<byte>): seq<byte>
  {
    if KeyOf(vr) in decode then Ascii85.Decoded(data) else data
  }

  function Text(encode: set<string>, vr: nat, data: seq<byte>): seq<byte>
  {
    if KeyOf(vr) in encode then Ascii85.Encoded(data) else data
  }

  function Truncated(st: Stream): (r: Stream)
    requires st.Valid()
    ensures r.Valid()
  {
    st.(len := 0, pos := 0)
  }

  lemma ReceivedData(st: Stream, data: seq<byte>)
    requires st.Valid()
    ensures Received(st, data).Data() == if st.len + |data| <= BUFFER_LEN then st.Data() + data else st.Data()
    ensures Received(st, data).Rest() == Received(st, data).Data()
  {
    WriteAtEnd(st.(pos := st.len), data);
  }

  /** Text transport: sent by tx on one topology and received by rx on another, a stream arrives byte for byte. */
  lemma TextTransport(sender: Stream, receiver: Stream)
    requires sender.Valid() && receiver.Valid() && receiver.len + sender.len <= BUFFER_LEN
    ensures Ascii85.WellFormed(Ascii85.Encoded(sender.Data()))
    ensures
      var r := Received(receiver, Ascii85.Decoded(Ascii85.Encoded(sender.Data())));
      r.Data() == receiver.Data() + sender.Data() == r.Rest()
  {
    hide Ascii85.WellFormed, Ascii85.Encoded, Ascii85.Decoded;
    Ascii85.RoundTrip(sender.Data());
    ReceivedData(receiver, sender.Data());
  }

  //////////////////////////////////////////////////////////////////////////////
  // Once-per-cycle reset over whole runs
  //////////////////////////////////////////////////////////////////////////////

  /**
   A call on a topology as one stream of it sees it. The variable of an rx or a tx may be that of
   another stream or of none; a tx counts all the same.
   */
  datatype Event = Reset | Rx(data: Option<seq<byte>>) | Tx(here: bool)

  datatype Bus = Bus(st: Stream, resetCalled: bool)

  function BusStep(b: Bus, e: Event): (b': Bus)
    requires b.st.Valid()
    ensures b'.st.Valid()
  {
    match e
    case Reset => if b.resetCalled then b else Bus(Truncated(b.st), true)
    case Rx(d) => if d.Some? then b.(st := Received(b.st, d.value)) else b
    case Tx(here) => Bus(if here then b.st.(pos := b.st.len) else b.st, false)
  }

  function RunBus(b: Bus, es: seq<Event>): (b': Bus)
    requires b.st.Valid()
    ensures b'.st.Valid()
  {
    if es == [] then b else BusStep(RunBus(b, es[..|es| - 1]), es[|es| - 1])
  }

  /** Some reset among the first n calls has no tx after it. */
  predicate ResetSinceTx(es: seq<Event>, n: nat)
    requires n <= |es|
  {
    exists j :: 0 <= j < n && es[j].Reset? && forall k | j < k < n :: !es[k].Tx?
  }

  /** The first reset after creation or after a tx. */
  predicate Effective(es: seq<Event>, i: nat)
    requires i < |es|
  {
    es[i].Reset? && !ResetSinceTx(es, i)
  }

  /** Values appended in call order, those that do not fit dropped whole. */
  function Gathered(es: seq<Event>): (d: seq<byte>)
    ensures |d| <= BUFFER_LEN
  {
    if es == [] then []
    else
      var d, e := Gathered(es[..|es| - 1]), es[|es| - 1];
      if e.Rx? && e.data.Some? && |d| + |e.data.value| <= BUFFER_LEN then d + e.data.value else d
  }

  lemma {:induction false} FlagMeans(b: Bus, es: seq<Event>)
    requires b.st.Valid() && !b.resetCalled
    ensures RunBus(b, es).resetCalled <==> ResetSinceTx(es, |es|)
  {
    if es != [] {
      var n, init := |es| - 1, es[..|es| - 1];
      FlagMeans(b, init);
      if ResetSinceTx(init, n) && !es[n].Tx? {
        var j :| 0 <= j < n && init[j].Reset? && forall k | j < k < n :: !init[k].Tx?;
        assert es[j].Reset? && forall k | j < k < n + 1 :: !es[k].Tx?;
      }
      if es[n].Reset? { assert ResetSinceTx(es, n + 1); }
      if ResetSinceTx(es, n + 1) && !es[n].Reset? {
        var j :| 0 <= j < n + 1 && es[j].Reset? && forall k | j < k < n + 1 :: !es[k].Tx?;
        assert init[j].Reset? && forall k | j < k < n :: !init[k].Tx?;
      }
    }
  }

  /** A call truncates the stream exactly when it is an effective reset. */
  lemma TruncatesWhenEffective(b: Bus, es: seq<Event>, i: nat)
    requires b.st.Valid() && !b.resetCalled && i < |es| && es[i].Reset?
    ensures
      var before := RunBus(b, es[..i]);
      BusStep(before, es[i]).st == if Effective(es, i) then Truncated(before.st) else before.st
  {
    FlagMeans(b, es[..i]);
    PrefixResets(es, i);
  }

  lemma PrefixResets(es: seq<Event>, i: nat)
    requires i <= |es|
    ensures ResetSinceTx(es[..i], i) <==> ResetSinceTx(es, i)
  {
    if ResetSinceTx(es[..i], i) {
      var j :| 0 <= j < i && es[..i][j].Reset? && forall k | j < k < i :: !es[..i][k].Tx?;
      assert es[j].Reset? && forall k | j < k < i :: !es[..i][k].Tx?;
      assert forall k | j < k < i :: es[k] == es[..i][k];
    }
    if ResetSinceTx(es, i) {
      var j :| 0 <= j < i && es[j].Reset? && forall k | j < k < i :: !es[k].Tx?;
      assert es[..i][j].Reset? && forall k | j < k < i :: !es[..i][k].Tx?;
    }
  }

  /**
   After the last effective reset the stream is the concatenation of the values received
   since, in call order, without those that did not fit.
   */
  lemma {:induction false} StreamSinceReset(b: Bus, es: seq<Event>, i: nat)
    requires b.st.Valid() && !b.resetCalled && i < |es| && Effective(es, i)
    requires forall k | i < k < |es| :: !Effective(es, k)
    ensures RunBus(b, es).st.Data() == Gathered(es[i + 1..])
    decreases |es|
  {
    hide Truncated, Received, ResetSinceTx;
    var n, init := |es| - 1, es[..|es| - 1];
    var before := RunBus(b, init);
    if i == n {
      TruncatesWhenEffective(b, es, n);
      assert Truncated(before.st).Data() == [] by { TruncatedData(before.st); }
      assert es[n + 1..] == [];
    } else {
      EffectiveInPrefix(es, n);
      StreamSinceReset(b, init, i);
      LastOfTail(es, i);
      match es[n]
      case Reset => TruncatesWhenEffective(b, es, n);
      case Rx(d) => if d.Some? { ReceivedData(before.st, d.value); }
      case Tx(here) =>
    }
  }

  lemma LastOfTail(es: seq<Event>, i: nat)
    requires i < |es| - 1
    ensures
      var tail, n := es[i + 1..], |es| - 1;
      |tail| > 0 && tail[..|tail| - 1] == es[..n][i + 1..] && tail[|tail| - 1] == es[n]
  {
  }

  lemma TruncatedData(st: Stream)
    requires st.Valid()
    ensures Truncated(st).Data() == []
  {
  }

  lemma EffectiveInPrefix(es: seq<Event>, n: nat)
    requires n <= |es|
    ensures forall k | 0 <= k < n :: Effective(es[..n], k) <==> Effective(es, k)
  {
    forall k | 0 <= k < n ensures Effective(es[..n], k) <==> Effective(es, k) {
      PrefixResets(es, k);
      PrefixResets(es[..n], k);
      assert es[..n][..k] == es[..k];
    }
  }

  //////////////////////////////////////////////////////////////////////////////
  // The topology object
  //////////////////////////////////////////////////////////////////////////////

  /** The free list is the buffers handed out, and none was handed out or released twice. */
  ghost predicate FreeListKept<T>(freeList: map<string, T>, outstanding: seq<T>, released: multiset<T>)
  {
    && freeList == FreeListOf(outstanding) && NoDuplicates(outstanding)
    && forall b | b in released :: released[b] == 1 && b !in outstanding
  }

  /** The index with every one of the keys set to v. */
  function Extended<T>(m: map<string, T>, keys: set<string>, v: T): (r: map<string, T>)
    ensures r.Keys == m.Keys + keys
    ensures forall k <- r :: r[k] == if k in keys then v else m[k]
  {
    m + map k <- keys :: v
  }

  ghost predicate Separate<E(!new)>(codecs: set<Codec<E>>)
  {
    forall c, d | c in codecs && d in codecs && c != d ::
      c.stream != d.stream && c.stream.buffer != d.stream.buffer
  }

  ghost predicate Leads<T>(index: map<string, T>, targets: set<T>)
  {
    forall k <- index :: index[k] in targets
  }

  lemma StillLeads<T>(index: map<string, T>, keys: set<string>, v: T, targets: set<T>, more: set<T>)
    requires Leads(index, targets) && targets <= more && v in more
    ensures Leads(Extended(index, keys, v), more) && Leads(index, more)
  {
  }

  lemma StillSeparate<E(!new)>(codecs: set<Codec<E>>, nc: Codec<E>)
    requires Separate(codecs)
    requires forall c <- codecs :: c == nc || (c.stream != nc.stream && c.stream.buffer != nc.stream.buffer)
    ensures Separate(codecs + {nc})
  {
  }

  /** A call on a topology. */
  datatype Call = CallReset | CallRx(vr: nat, data: seq<byte>) | CallTx(vr: nat)

  /** What a call is to the stream of one codec. */
  function EventOf<T(==)>(rx: map<string, T>, tx: map<string, T>, decode: set<string>, c: T, call: Call): Event
  {
    match call
    case CallReset => Event.Reset
    case CallRx(vr, data) =>
      Event.Rx(if KeyOf(vr) in rx && rx[KeyOf(vr)] == c then Some(Payload(decode, vr, data)) else None)
    case CallTx(vr) => Event.Tx(KeyOf(vr) in tx && tx[KeyOf(vr)] == c)
  }

  function EventsOf<T(==)>(
    rx: map<string, T>, tx: map<string, T>, decode: set<string>, c: T, calls: seq<Call>): seq<Event>
  {
    seq(|calls|, i requires 0 <= i < |calls| => EventOf(rx, tx, decode, c, calls[i]))
  }

  lemma NoCalls<T>(rx: map<string, T>, tx: map<string, T>, decode: set<string>, c: T)
    ensures EventsOf(rx, tx, decode, c, []) == []
  {
  }

  lemma OneMoreCall<T>(
    b: Bus, rx: map<string, T>, tx: map<string, T>, decode: set<string>, c: T, calls: seq<Call>, n: nat)
    requires b.st.Valid() && n < |calls|
    ensures RunBus(b, EventsOf(rx, tx, decode, c, calls[..n + 1])) ==
      BusStep(RunBus(b, EventsOf(rx, tx, decode, c, calls[..n])), EventOf(rx, tx, decode, c, calls[n]))
  {
    hide EventOf, BusStep;
    var es := EventsOf(rx, tx, decode, c, calls[..n + 1]);
    assert es[..n] == EventsOf(rx, tx, decode, c, calls[..n]);
  }

  class BusTopology<E(!new)> {
    var busNcodec: map<string, Codec<E>>
    var rxVrIndex: map<string, Codec<E>>
    var txVrIndex: map<string, Codec<E>>
    var encodeFunc: set<string>
    var decodeFunc: set<string>
    var freeList: map<string, array<byte>>
    var resetCalled: bool

    /** Every codec in the maps. */
    ghost var codecs: set<Codec<E>>
    /** Buffers handed out since the last effective reset, and how often each was freed so far. */
    ghost var outstanding: seq<array<byte>>
    ghost var released: multiset<array<byte>>

    ghost function Streams(): set<object>
      reads this
    {
      (set c <- codecs :: c.stream as object) + (set c <- codecs :: c.stream.buffer as object)
    }

    ghost predicate Valid()
      reads this, codecs, Streams()
    {
      && CodecsValid()
      && Indexed()
      && FreeListValid()
    }

    ghost predicate CodecsValid()
      reads this, codecs, Streams()
    {
      forall c <- codecs :: c.Valid()
    }

    /** The maps lead to the codecs, and no two codecs share a stream. */
    ghost predicate Indexed()
      reads this
    {
      Separate(codecs) && Leads(busNcodec, codecs) && Leads(rxVrIndex, codecs) && Leads(txVrIndex, codecs)
    }

    ghost predicate FreeListValid()
      reads this
    {
      FreeListKept(freeList, outstanding, released)
    }

    constructor ()
      ensures Valid() && !resetCalled && codecs == {}
      ensures outstanding == [] && released == multiset{} && freeList == map[]
      ensures rxVrIndex == txVrIndex == map[] && encodeFunc == decodeFunc == {}
    {
      busNcodec, rxVrIndex, txVrIndex := map[], map[], map[];
      encodeFunc, decodeFunc, freeList, resetCalled := {}, {}, map[], false;
      codecs, outstanding, released := {}, [], multiset{};
    }

    /** bus_topology_add, with the variables the model description annotates for this bus. */
    method Add(busId: string, nc: Codec<E>, rx: set<string>, tx: set<string>, encode: set<string>, decode: set<string>)
      requires Valid() && nc.Valid()
      requires forall c <- codecs :: c == nc || (c.stream != nc.stream && c.stream.buffer != nc.stream.buffer)
      modifies this
      ensures Valid() && codecs == old(codecs) + {nc} && resetCalled == old(resetCalled)
      ensures outstanding == old(outstanding) && released == old(released) && freeList == old(freeList)
      ensures busNcodec == Extended(old(busNcodec), {busId}, nc)
      ensures rxVrIndex == Extended(old(rxVrIndex), rx, nc) && txVrIndex == Extended(old(txVrIndex), tx, nc)
      ensures forall k <- rxVrIndex :: rxVrIndex[k] == if k in rx then nc else old(rxVrIndex)[k]
      ensures forall k <- txVrIndex :: txVrIndex[k] == if k in tx then nc else old(txVrIndex)[k]
      ensures forall k <- busNcodec :: busNcodec[k] == if k == busId then nc else old(busNcodec)[k]
      ensures encodeFunc == old(encodeFunc) + encode && decodeFunc == old(decodeFunc) + decode
    {
      hide KeyOf, FreeListKept, Extended, Separate, Leads;
      IndexCodec(busId, nc, rx, tx);
      encodeFunc := encodeFunc + encode;
      decodeFunc := decodeFunc + decode;
    }

    method IndexCodec(busId: string, nc: Codec<E>, rx: set<string>, tx: set<string>)
      requires CodecsValid() && Indexed() && nc.Valid()
      requires forall c <- codecs :: c == nc || (c.stream != nc.stream && c.stream.buffer != nc.stream.buffer)
      modifies `busNcodec, `rxVrIndex, `txVrIndex, `codecs
      ensures CodecsValid() && Indexed() && codecs == old(codecs) + {nc}
      ensures busNcodec == Extended(old(busNcodec), {busId}, nc)
      ensures rxVrIndex == Extended(old(rxVrIndex), rx, nc) && txVrIndex == Extended(old(txVrIndex), tx, nc)
    {
      hide Extended, Separate, Leads;
      ghost var more := codecs + {nc};
      StillSeparate(codecs, nc);
      StillLeads(busNcodec, {busId}, nc, codecs, more);
      StillLeads(rxVrIndex, rx, nc, codecs, more);
      StillLeads(txVrIndex, tx, nc, codecs, more);
      busNcodec := Extended(busNcodec, {busId}, nc);
      rxVrIndex := Extended(rxVrIndex, rx, nc);
      txVrIndex := Extended(txVrIndex, tx, nc);
      codecs := more;
    }

    /** bus_topology_destroy, as far as the free list goes. */
    method Destroy()
      requires FreeListValid()
      modifies `freeList, `outstanding, `released
      ensures FreeListValid() && outstanding == [] && freeList == map[]
      ensures forall b: array<byte> :: released[b] == old(released)[b] + |KeysHolding(old(freeList), b)|
      ensures released == old(released) + multiset(old(outstanding)) <==> |old(outstanding)| <= LIMIT
    {
      hide FreeListKept;
      ReleaseAll();
    }

    /** Clearing the free list frees the buffer under each of its keys. */
    method ReleaseAll()
      requires FreeListValid()
      modifies `freeList, `outstanding, `released
      ensures FreeListValid() && outstanding == [] && freeList == map[]
      ensures forall b: array<byte> :: released[b] == old(released)[b] + |KeysHolding(old(freeList), b)|
      ensures released == old(released) + multiset(old(outstanding)) <==> |old(outstanding)| <= LIMIT
    {
      hide KeyOf, FreeListOf, FreedExcept, KeysHolding;
      var todo := freeList.Keys;
      NoneFreed(freeList, released);
      while todo != {}
        invariant todo <= freeList.Keys && freeList == old(freeList) && outstanding == old(outstanding)
        invariant FreedExcept(freeList, todo, old(released), released)
      {
        var k :| k in todo;
        OneMoreFreed(freeList, todo, k, old(released), released);
        released := released + multiset{freeList[k]};
        todo := todo - {k};
      }
      AllFreed(freeList, old(released), released);
      ListReleased(outstanding, old(released), released);
      freeList, outstanding := map[], [];
      NothingFiled<array<byte>>();
    }

    /** The stream a value received for, or sent from, a variable goes through. */
    ghost function Target(index: map<string, Codec<E>>, vr: nat): set<object>
    {
      if KeyOf(vr) in index then {index[KeyOf(vr)].stream, index[KeyOf(vr)].stream.buffer} else {}
    }

    /** Written at the end, and left where the reader starts. */
    method Append(stream: BufferStream, data: seq<byte>)
      requires stream.Valid()
      modifies stream, stream.buffer
      ensures stream.Valid() && stream.State() == Received(old(stream.State()), data) && stream.pos == 0
      ensures stream.buffer[..stream.len] ==
        old(stream.buffer[..stream.len]) + if old(stream.len) + |data| <= 4096 then data else []
    {
      ReceivedData(stream.State(), data);
      var _ := stream.Seek(0, SEEK_END);
      var _ := stream.Write(data);
      var _ := stream.Seek(0, SEEK_SET);
    }

    /** All of the stream, which is left at its end. */
    method Whole(stream: BufferStream) returns (bytes: seq<byte>)
      requires stream.Valid()
      modifies stream`pos, stream`len
      ensures stream.Valid() && stream.State() == old(stream.State()).(pos := stream.len)
      ensures bytes == stream.State().Data() == old(stream.buffer[..stream.len])
    {
      var _ := stream.Seek(0, SEEK_SET);
      var at, n := stream.Read(true);
      var start := if at.Some? then at.value else 0;
      bytes := stream.buffer[start..start + n];
    }

    /** Only the stream of the indexed codec changes: the frame says so of all others. */
    method Rx(vr: nat, data: seq<byte>)
      requires Valid()
      requires KeyOf(vr) in decodeFunc ==> Ascii85.WellFormed(data)
      modifies Target(rxVrIndex, vr)
      ensures Valid()
      ensures KeyOf(vr) in rxVrIndex ==>
        var s := rxVrIndex[KeyOf(vr)].stream;
        s.State() == Received(old(s.State()), Payload(decodeFunc, vr, data))
      ensures KeyOf(vr) in rxVrIndex && KeyOf(vr) !in decodeFunc ==>
        var s := rxVrIndex[KeyOf(vr)].stream;
        && s.pos == 0
        && s.buffer[..s.len] == old(s.buffer[..s.len]) + if old(s.len) + |data| <= 4096 then data else []
      ensures KeyOf(vr) in rxVrIndex && KeyOf(vr) in decodeFunc ==>
        var s, bytes := rxVrIndex[KeyOf(vr)].stream, Ascii85.Decoded(data);
        && s.pos == 0
        && s.buffer[..s.len] == old(s.buffer[..s.len]) + if old(s.len) + |bytes| <= 4096 then bytes else []
      ensures forall c <- codecs ::
        BusOf(c) == BusStep(old(BusOf(c)), EventOf(rxVrIndex, txVrIndex, decodeFunc, c, CallRx(vr, data)))
    {
      hide KeyOf, FreeListKept, Ascii85.WellFormed, Ascii85.Decoded, Received, ValidCursor;
      var key := KeyOf(vr);
      if key !in rxVrIndex { return; }
      var stream := rxVrIndex[key].stream;
      var payload := data;
      if key in decodeFunc {
        var en, len := Ascii85.Decode(data);
        payload := en[..len];
      }
      Append(stream, payload);
    }

    /** An allocated copy of the whole stream, encoded if configured; null leaves *data as it was. */
    method Tx(vr: nat) returns (data: array?<byte>, len: nat)
      requires Valid()
      modifies `resetCalled, `freeList, `outstanding, Target(txVrIndex, vr)
      ensures Valid() && !resetCalled
      ensures KeyOf(vr) !in txVrIndex ==> data == null && outstanding == old(outstanding)
      ensures KeyOf(vr) in txVrIndex ==>
        var s := txVrIndex[KeyOf(vr)].stream;
        && s.State() == old(s.State()).(pos := s.len)
        && data != null && fresh(data) && len <= data.Length
        && data[..len] == Text(encodeFunc, vr, s.State().Data())
        && data[..len] ==
             (if KeyOf(vr) in encodeFunc then Ascii85.Encoded(old(s.buffer[..s.len])) else old(s.buffer[..s.len]))
        && outstanding == old(outstanding) + [data]
      ensures forall c <- codecs ::
        BusOf(c) == BusStep(old(BusOf(c)), EventOf(rxVrIndex, txVrIndex, decodeFunc, c, CallTx(vr)))
    {
      hide KeyOf, Text, FreeListKept, ValidCursor;
      // From here on a reset has work to do again, also when the variable is unknown.
      resetCalled := false;
      data, len := null, 0;
      var key := KeyOf(vr);
      if key !in txVrIndex { return; }
      var stream := txVrIndex[key].stream;
      var bytes := Whole(stream);
      data, len := CopyOrEncode(vr, bytes);
      SaveForFree(data);
    }

    method CopyOrEncode(vr: nat, bytes: seq<byte>) returns (data: array<byte>, len: nat)
      ensures fresh(data) && len <= data.Length
      ensures data[..len] == Text(encodeFunc, vr, bytes)
      ensures data[..len] == if KeyOf(vr) in encodeFunc then Ascii85.Encoded(bytes) else bytes
    {
      hide Ascii85.Encoded, KeyOf;
      if KeyOf(vr) in encodeFunc {
        data := Ascii85.Encode(bytes);
        len := Ascii85.Strlen(data, Ascii85.Encoded(bytes));
      } else {
        data := new byte[|bytes|](i requires 0 <= i < |bytes| => bytes[i]);
        len := |bytes|;
      }
    }

    /** The key is the number of nodes used so far. */
    method SaveForFree(data: array<byte>)
      requires FreeListValid() && data !in outstanding && data !in released
      modifies `freeList, `outstanding
      ensures FreeListValid() && outstanding == old(outstanding) + [data]
    {
      hide KeyOf;
      freeList := freeList[KeyOf(|freeList|) := data];
      outstanding := outstanding + [data];
      assert outstanding[..|outstanding| - 1] == old(outstanding);
    }

    /** One stream of the topology as the runs of calls above see it. */
    ghost function BusOf(c: Codec<E>): (b: Bus)
      requires c.stream.Valid()
      reads this, c.stream, c.stream.buffer
      ensures b.st.Valid()
    {
      Bus(c.stream.State(), resetCalled)
    }

    /** Once per cycle every codec is truncated and every buffer handed out is released. */
    method Reset()
      requires Valid()
      modifies this, codecs, Streams()
      ensures Valid() && resetCalled && codecs == old(codecs)
      ensures busNcodec == old(busNcodec) && rxVrIndex == old(rxVrIndex) && txVrIndex == old(txVrIndex)
      ensures encodeFunc == old(encodeFunc) && decodeFunc == old(decodeFunc)
      ensures forall c <- codecs ::
        ViewOf(c) ==
          if !old(resetCalled) && c in busNcodec.Values then TruncatedView(old(ViewOf(c))) else old(ViewOf(c))
      ensures forall c <- busNcodec.Values :: c in codecs && BusOf(c) == BusStep(old(BusOf(c)), Event.Reset)
      ensures old(resetCalled) ==> outstanding == old(outstanding) && released == old(released)
      ensures !old(resetCalled) ==>
        && outstanding == [] && freeList == map[]
        && (forall b: array<byte> :: released[b] == old(released)[b] + |KeysHolding(old(freeList), b)|)
        && (released == old(released) + multiset(old(outstanding)) <==> |old(outstanding)| <= LIMIT)
    {
      hide KeyOf, ViewOf, TruncatedView, FreeListKept, KeysHolding;
      if resetCalled { return; }
      TruncateAll();
      ReleaseAll();
      resetCalled := true;
    }

    /** Every text received for a variable configured for ascii85 is well formed. */
    ghost predicate Receivable(call: Call)
      reads this
    {
      call.CallRx? && KeyOf(call.vr) in decodeFunc ==> Ascii85.WellFormed(call.data)
    }

    /** One call is one step of the stream of every codec. */
    method Do(call: Call)
      requires Valid() && Receivable(call)
      modifies this, codecs, Streams()
      ensures Valid() && SameIndexes()
      ensures forall c <- busNcodec.Values ::
        && c in codecs
        && BusOf(c) == BusStep(old(BusOf(c)), EventOf(rxVrIndex, txVrIndex, decodeFunc, c, call))
    {
      hide KeyOf, FreeListKept, BusStep, Ascii85.WellFormed, ViewOf, TruncatedView, Payload, Text, Received,
        KeysHolding;
      match call {
        case CallReset => Reset();
        case CallRx(vr, data) => Rx(vr, data);
        case CallTx(vr) => var _, _ := Tx(vr);
      }
    }

    /** The maps set up by Add are those before the call. */
    twostate predicate SameIndexes()
      reads this
    {
      && codecs == old(codecs) && busNcodec == old(busNcodec)
      && rxVrIndex == old(rxVrIndex) && txVrIndex == old(txVrIndex)
      && encodeFunc == old(encodeFunc) && decodeFunc == old(decodeFunc)
    }

    /** Any sequence of calls takes the stream of every codec through the events of those calls. */
    method DoAll(calls: seq<Call>)
      requires Valid() && forall i | 0 <= i < |calls| :: Receivable(calls[i])
      modifies this, codecs, Streams()
      ensures Valid() && SameIndexes()
      ensures forall c <- busNcodec.Values ::
        && c in codecs
        && BusOf(c) == RunBus(old(BusOf(c)), EventsOf(rxVrIndex, txVrIndex, decodeFunc, c, calls))
    {
      hide EventOf, EventsOf, BusStep, FreeListKept, Ascii85.WellFormed, KeyOf, Separate;
      assert calls[..0] == [];
      forall c <- busNcodec.Values { NoCalls(rxVrIndex, txVrIndex, decodeFunc, c); }
      for n := 0 to |calls|
        invariant Valid() && SameIndexes()
        invariant forall c <- busNcodec.Values ::
          BusOf(c) == RunBus(old(BusOf(c)), EventsOf(rxVrIndex, txVrIndex, decodeFunc, c, calls[..n]))
      {
        Do(calls[n]);
        forall c <- busNcodec.Values
          ensures BusOf(c) == RunBus(old(BusOf(c)), EventsOf(rxVrIndex, txVrIndex, decodeFunc, c, calls[..n + 1]))
        {
          OneMoreCall(old(BusOf(c)), rxVrIndex, txVrIndex, decodeFunc, c, calls, n);
        }
      }
      assert calls[..|calls|] == calls;
    }

    method TruncateAll()
      requires CodecsValid() && Indexed()
      modifies codecs, Streams()
      ensures CodecsValid()
      ensures forall c <- codecs ::
        ViewOf(c) == if c in busNcodec.Values then TruncatedView(old(ViewOf(c))) else old(ViewOf(c))
    {
      hide ViewOf, TruncatedView;
      var todo := busNcodec.Values;
      ghost var all := todo;
      while todo != {}
        invariant CodecsValid() && todo <= all
        invariant forall c <- codecs ::
          ViewOf(c) == if c in all && c !in todo then TruncatedView(old(ViewOf(c))) else old(ViewOf(c))
        decreases |todo|
      {
        var c :| c in todo;
        assert c in codecs;
        TruncateOne(c);
        todo := todo - {c};
      }
    }

    method TruncateOne(c: Codec<E>)
      requires CodecsValid() && Indexed() && c in codecs
      modifies c`streamInitialized, c`builder, c.stream`pos, c.stream`len
      ensures CodecsValid()
      ensures forall d <- codecs :: ViewOf(d) == if d == c then TruncatedView(old(ViewOf(d))) else old(ViewOf(d))
    {
      hide ValidCursor;
      c.Truncate();
    }
  }

  /** What a codec and its stream hold. */
  datatype View = View(st: Stream, initialized: bool, parsing: Cursor, ownId: byte)

  ghost function ViewOf<E(!new)>(c: Codec<E>): (v: View)
    requires c.stream.Valid()
    reads c, c.stream, c.stream.buffer
    ensures v.st == c.stream.State()
  {
    View(c.stream.State(), c.streamInitialized, c.Parsing(), c.ownId)
  }

  ghost function TruncatedView(v: View): (v': View)
    requires v.st.Valid()
    ensures v'.st == Truncated(v.st)
  {
    v.(st := Truncated(v.st), initialized := false)
  }

  ghost predicate NoDuplicates<T>(s: seq<T>)
  {
    forall i, j | 0 <= i < j < |s| :: s[i] != s[j]
  }
}
