/**
 The buffer stream of stream.c: a fixed buffer with a length and a position.

 `Stream` is the state of one BufferStream as a value and the functions on it say what
 each operation does to the whole buffer, including the stale bytes past `len` that a
 dangling pointer could still see. `File` is the simple form: a byte string with a cursor.
 */
module Streams {
  import opened Bytes

  const BUFFER_LEN: nat := 4096

  const SEEK_SET := 0
  const SEEK_CUR := 1
  const SEEK_END := 2
  const SEEK_RESET := 3
  const SEEK_FILL := 42

  const EINVAL := 22
  const EMSGSIZE := 90
  const ENOMSG := 42

  datatype Stream = Stream(buffer: seq<byte>, len: nat, pos: nat) {
    predicate Valid()
    {
      |buffer| == BUFFER_LEN && pos <= len <= BUFFER_LEN
    }

    function Data(): seq<byte>
      requires Valid()
    {
      buffer[..len]
    }

    /** What a read from the current position would return. */
    function Rest(): seq<byte>
      requires Valid()
    {
      buffer[pos..len]
    }

    predicate Fits(n: nat)
    {
      pos + n <= BUFFER_LEN
    }

    function Written(data: seq<byte>): (s: Stream)
      requires Valid()
      ensures s.Valid()
    {
      if !Fits(|data|) then this
      else
        var end := pos + |data|;
        Stream(buffer[..pos] + data + buffer[end..], if end > len then end else len, end)
    }

    /** The position a seek moves to, and whether the operation is a known one. */
    function Sought(to: nat, op: int): (s: Stream)
      requires Valid()
      ensures s.Valid()
    {
      if op == SEEK_SET then this.(pos := if to > len then len else to)
      else if op == SEEK_CUR then this.(pos := if pos + to > len then len else pos + to)
      else if op == SEEK_END then this.(pos := len)
      else if op == SEEK_RESET then this.(len := 0, pos := 0)
      else if op == SEEK_FILL then this.(len := BUFFER_LEN, pos := BUFFER_LEN)
      else this
    }
  }

  predicate KnownSeek(op: int)
  {
    SEEK_SET <= op <= SEEK_RESET || op == SEEK_FILL
  }

  class BufferStream {
    const buffer: array<byte>
    const bufferLen: nat
    var len: nat
    var pos: nat

    ghost predicate Valid()
      reads this, buffer
    {
      && buffer.Length == bufferLen == BUFFER_LEN
      && pos <= len <= BUFFER_LEN
    }

    ghost function State(): (s: Stream)
      requires Valid()
      reads this, buffer
      ensures s.Valid()
    {
      Stream(buffer[..], len, pos)
    }

    constructor ()
      ensures Valid() && fresh(buffer) && buffer.Length == 4096
      ensures len == 0 && pos == 0
    {
      buffer := new byte[BUFFER_LEN](_ => 0);
      bufferLen := BUFFER_LEN;
      len, pos := 0, 0;
    }

    /** The data pointer as an offset into the buffer, None for NULL, and the byte count. */
    method Read(update: bool) returns (data: Option<nat>, n: nat)
      requires Valid()
      modifies `pos
      ensures Valid()
      ensures n == old(len) - old(pos) == |old(State()).Rest()|
      ensures data == if n == 0 then None else Some(old(pos))
      ensures pos == if update then len else old(pos)
    {
      if pos >= len { return None, 0; }
      data, n := Some(pos), len - pos;
      if update { pos := len; }
    }

    method Write(data: seq<byte>) returns (n: int)
      requires Valid()
      modifies this, buffer
      ensures Valid() && State() == old(State()).Written(data)
      ensures n == if old(pos) + |data| <= 4096 then |data| else -90
      ensures n >= 0 ==>
        && pos == old(pos) + |data| && len == (if pos > old(len) then pos else old(len))
        && forall k | 0 <= k < 4096 ::
             buffer[k] == if old(pos) <= k < pos then data[k - old(pos)] else old(buffer[k])
    {
      if pos + |data| > BUFFER_LEN { return -EMSGSIZE; }
      forall i | 0 <= i < |data| { buffer[pos + i] := data[i]; }
      assert buffer[..] == old(buffer[..pos]) + data + old(buffer[pos + |data|..]);
      pos := pos + |data|;
      if pos > len { len := pos; }
      return |data|;
    }

    method Seek(to: nat, op: int) returns (r: int)
      requires Valid()
      modifies `pos, `len
      ensures Valid() && State() == old(State()).Sought(to, op)
      ensures op == 0 ==> r == pos == Min(to, len) && len == old(len)
      ensures op == 1 ==> r == pos == Min(old(pos) + to, len) && len == old(len)
      ensures op == 2 ==> r == pos == len == old(len)
      ensures op == 3 ==> r == pos == len == 0
      ensures op == 42 ==> r == pos == len == 4096
      ensures op !in {0, 1, 2, 3, 42} ==> r == -22 && pos == old(pos) && len == old(len)
    {
      if op == SEEK_SET {
        if to > len { pos := len; } else { pos := to; }
      } else if op == SEEK_CUR {
        var p := pos + to;
        if p > len { pos := len; } else { pos := p; }
      } else if op == SEEK_END {
        pos := len;
      } else if op == SEEK_RESET {
        pos, len := 0, 0;
      } else if op == SEEK_FILL {
        pos, len := bufferLen, bufferLen;
      } else {
        return -EINVAL;
      }
      return pos;
    }

    method Tell() returns (r: nat)
      ensures r == pos
    {
      return pos;
    }

    method Eof() returns (r: bool)
      requires Valid()
      ensures r <==> State().Rest() == []
    {
      if pos < len { return false; }
      return true;
    }
  }

  //////////////////////////////////////////////////////////////////////////////
  // Refinement of a file with a cursor
  //////////////////////////////////////////////////////////////////////////////

  datatype File = File(data: seq<byte>, cursor: nat)

  datatype Op = Read(update: bool) | Write(data: seq<byte>) | Seek(to: nat, op: int) | Tell | Eof

  datatype Output = Content(bytes: seq<byte>) | Code(value: int)

  /** One operation on the file: overwrite at the cursor, extend at the end, clamp a seek. */
  function FileStep(f: File, op: Op): (File, Output)
    requires f.cursor <= |f.data|
  {
    match op
    case Read(update) =>
      (if update then f.(cursor := |f.data|) else f, Content(f.data[f.cursor..]))
    case Write(d) =>
      if f.cursor + |d| > BUFFER_LEN then (f, Code(-EMSGSIZE))
      else (File(f.data[..f.cursor] + d + f.data[Min(f.cursor + |d|, |f.data|)..], f.cursor + |d|), Code(|d|))
    case Seek(to, o) =>
      if o == SEEK_RESET then (File([], 0), Code(0))
      else if o == SEEK_SET || o == SEEK_CUR || o == SEEK_END then
        var target := if o == SEEK_END then |f.data| else if o == SEEK_CUR then f.cursor + to else to;
        (f.(cursor := Min(target, |f.data|)), Code(Min(target, |f.data|)))
      else (f, Code(-EINVAL))
    case Tell => (f, Code(f.cursor))
    case Eof => (f, Code(if f.cursor < |f.data| then 0 else 1))
  }

  /** One operation on the stream, with the value the C function hands back. */
  function StreamStep(s: Stream, op: Op): (r: (Stream, Output))
    requires s.Valid()
    ensures r.0.Valid()
  {
    match op
    case Read(update) => (if update then s.(pos := s.len) else s, Content(s.Rest()))
    case Write(d) => (s.Written(d), Code(if s.Fits(|d|) then |d| else -EMSGSIZE))
    case Seek(to, o) => (s.Sought(to, o), Code(if KnownSeek(o) then s.Sought(to, o).pos else -EINVAL))
    case Tell => (s, Code(s.pos))
    case Eof => (s, Code(if s.Rest() == [] then 1 else 0))
  }

  function RunFile(f: File, ops: seq<Op>): (r: (File, seq<Output>))
    requires f.cursor <= |f.data|
    decreases |ops|
  {
    if ops == [] then (f, [])
    else
      var (f', out) := FileStep(f, ops[0]);
      var (f'', outs) := RunFile(f', ops[1..]);
      (f'', [out] + outs)
  }

  function RunStream(s: Stream, ops: seq<Op>): (r: (Stream, seq<Output>))
    requires s.Valid()
    ensures r.0.Valid()
    decreases |ops|
  {
    if ops == [] then (s, [])
    else
      var (s', out) := StreamStep(s, ops[0]);
      var (s'', outs) := RunStream(s', ops[1..]);
      (s'', [out] + outs)
  }

  function AsFile(s: Stream): File
    requires s.Valid()
  {
    File(s.Data(), s.pos)
  }

  lemma StepRefines(s: Stream, op: Op)
    requires s.Valid()
    requires op.Seek? ==> op.op != SEEK_FILL
    ensures
      var (s', out) := StreamStep(s, op);
      FileStep(AsFile(s), op) == (AsFile(s'), out)
  {
    if op.Write? && s.Fits(|op.data|) {
      var s', end := s.Written(op.data), s.pos + |op.data|;
      assert s'.buffer[..end] == s.Data()[..s.pos] + op.data;
      if end < s.len {
        assert s.Data()[end..] == s.buffer[end..s.len] == s'.buffer[end..s.len];
        assert s'.Data() == s'.buffer[..end] + s'.buffer[end..s.len];
      } else {
        assert s.Data()[s.len..] == [];
        assert s'.Data() == s.Data()[..s.pos] + op.data + [];
      }
    }
  }

  /**
   Over every sequence of operations the stream returns what a file with a cursor returns.
   Operation 42 is not a file operation: it exposes whatever the buffer holds past `len`.
   */
  lemma {:induction false} RunRefines(s: Stream, ops: seq<Op>)
    requires s.Valid()
    requires forall i | 0 <= i < |ops| :: ops[i].Seek? ==> ops[i].op != SEEK_FILL
    ensures
      var (s', outs) := RunStream(s, ops);
      RunFile(AsFile(s), ops) == (AsFile(s'), outs)
    decreases |ops|
  {
    if ops != [] {
      StepRefines(s, ops[0]);
      RunRefines(StreamStep(s, ops[0]).0, ops[1..]);
    }
  }

  //////////////////////////////////////////////////////////////////////////////
  // Facts used by the layers above
  //////////////////////////////////////////////////////////////////////////////

  /** A write at the end appends, or changes nothing when the data does not fit. */
  lemma WriteAtEnd(s: Stream, d: seq<byte>)
    requires s.Valid() && s.pos == s.len
    ensures s.Written(d).Data() == if s.len + |d| <= BUFFER_LEN then s.Data() + d else s.Data()
    ensures s.Written(d).pos == s.Written(d).len
  {
  }
}
