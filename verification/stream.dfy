/** The value streams of `src/stream.rs`. `MemoryStream` is a FIFO queue of
    `i32` values that is also a raw byte stream: byte writes gather in a
    4-byte buffer and every full group becomes one little-endian value; byte
    reads walk a cursor through the little-endian bytes of the front value.
    The console and file backends contribute only their pure encodings. */
module Stream {
  import opened Words
  import opened Wrappers

  /** `io::ErrorKind::UnexpectedEof`, the only error the modelled backends
      produce. */
  datatype IoError = UnexpectedEof

  // ---------------------------------------------------------------------
  // The 4-byte little-endian record encoding

  /** The `u32` with the same bits as `v`. */
  function Unsigned(v: Int32): (u: nat)
    ensures u < TWO_32 && (u - v) % TWO_32 == 0
  {
    if v < 0 then v + TWO_32 else v
  }

  /** The bytes of `v`, least significant first (`transmute::<i32, [u8; 4]>`
      on a little-endian machine). */
  function Encode(v: Int32): (b: seq<Byte>)
    ensures |b| == 4
  {
    var u0 := Unsigned(v);
    var u1 := u0 / 256;
    var u2 := u1 / 256;
    var u3 := u2 / 256;
    [u0 % 256, u1 % 256, u2 % 256, u3]
  }

  /** The `u32` whose little-endian bytes are `b`. */
  function Unpack(b: seq<Byte>): (u: nat)
    requires |b| == 4
    ensures u < TWO_32
  {
    var b0: int, b1: int, b2: int, b3: int := b[0], b[1], b[2], b[3];
    b0 + 256 * (b1 + 256 * (b2 + 256 * b3))
  }

  /** The `i32` whose little-endian bytes are `b` (`transmute::<[u8; 4], i32>`). */
  function Decode(b: seq<Byte>): Int32
    requires |b| == 4
  {
    var u := Unpack(b);
    if u <= I32_MAX then u else u - TWO_32
  }

  lemma DecodeEncode(v: Int32)
    ensures Decode(Encode(v)) == v
  {
    var u0 := Unsigned(v);
    var u1 := u0 / 256;
    var u2 := u1 / 256;
    var u3 := u2 / 256;
    assert u2 == 256 * u3 + u2 % 256;
    assert u1 == 256 * u2 + u1 % 256;
    assert u0 == 256 * u1 + u0 % 256;
    assert Unpack(Encode(v)) == u0;
  }

  lemma EncodeDecode(b: seq<Byte>)
    requires |b| == 4
    ensures Encode(Decode(b)) == b
  {
    var b0: int, b1: int, b2: int, b3: int := b[0], b[1], b[2], b[3];
    var u := Unpack(b);
    assert Unsigned(Decode(b)) == u;
    var u1 := b1 + 256 * (b2 + 256 * b3);
    var u2 := b2 + 256 * b3;
    assert u / 256 == u1 && u % 256 == b[0];
    assert u1 / 256 == u2 && u1 % 256 == b[1];
    assert u2 / 256 == b[3] && u2 % 256 == b[2];
  }

  /** The byte stream of a sequence of records. */
  function Bytes(vs: seq<Int32>): (bs: seq<Byte>)
    ensures |bs| == 4 * |vs|
  {
    if vs == [] then [] else Encode(vs[0]) + Bytes(vs[1..])
  }

  /** The records of a byte stream made of whole 4-byte groups. */
  function Values(bs: seq<Byte>): (vs: seq<Int32>)
    requires |bs| % 4 == 0
    ensures 4 * |vs| == |bs|
    decreases |bs|
  {
    if bs == [] then [] else [Decode(bs[..4])] + Values(bs[4..])
  }

  /** Writing N records and reading them back yields the same N values in
      the same order. */
  lemma {:induction false} ValuesOfBytes(vs: seq<Int32>)
    ensures Values(Bytes(vs)) == vs
  {
    if vs != [] {
      var bs := Bytes(vs);
      assert bs[..4] == Encode(vs[0]) && bs[4..] == Bytes(vs[1..]);
      DecodeEncode(vs[0]);
      ValuesOfBytes(vs[1..]);
    }
  }

  /** And every whole-group byte stream is the encoding of its records. */
  lemma {:induction false} BytesOfValues(bs: seq<Byte>)
    requires |bs| % 4 == 0
    ensures Bytes(Values(bs)) == bs
    decreases |bs|
  {
    if bs != [] {
      var vs := Values(bs);
      assert vs[0] == Decode(bs[..4]) && vs[1..] == Values(bs[4..]);
      EncodeDecode(bs[..4]);
      BytesOfValues(bs[4..]);
      assert bs == bs[..4] + bs[4..];
    }
  }

  lemma {:induction false} BytesAppend(a: seq<Int32>, b: seq<Int32>)
    ensures Bytes(a + b) == Bytes(a) + Bytes(b)
  {
    if a != [] {
      assert (a + b)[0] == a[0] && (a + b)[1..] == a[1..] + b;
      BytesAppend(a[1..], b);
    } else {
      assert a + b == b;
    }
  }

  lemma {:induction false} ValuesAppend(a: seq<Byte>, b: seq<Byte>)
    requires |a| % 4 == 0 && |b| % 4 == 0
    ensures Values(a + b) == Values(a) + Values(b)
    decreases |a|
  {
    if a != [] {
      var ab := a + b;
      assert ab != [] && ab[..4] == a[..4] && ab[4..] == a[4..] + b;
      ValuesAppend(a[4..], b);
      calc {
        Values(ab);
        [Decode(ab[..4])] + Values(ab[4..]);
        [Decode(a[..4])] + (Values(a[4..]) + Values(b));
        ([Decode(a[..4])] + Values(a[4..])) + Values(b);
        Values(a) + Values(b);
      }
    } else {
      assert a + b == b;
    }
  }

  // ---------------------------------------------------------------------
  // Console and null backends

  /** `Stdin::read_value`: one input byte widened to `i32`. */
  function StdinValue(b: Byte): (v: Int32)
    ensures 0 <= v < 256 && Encode(v) == [b, 0, 0, 0]
  {
    b
  }

  /** `Stdout::write_value`: the value truncated to its low byte
      (`value as u8`), which is its first little-endian byte. */
  function StdoutByte(v: Int32): (b: Byte)
    ensures (b - v) % 256 == 0
    ensures b == Encode(v)[0]
  {
    v % 256
  }

  /** `io::Empty::read_value`: always end of input. */
  function EmptyReadValue(): (r: Result<Int32, IoError>)
    ensures r.Failure? && r.error == UnexpectedEof
  {
    Failure(UnexpectedEof)
  }

  /** `io::Sink::write_value`: accepts and discards every value. */
  function SinkWriteValue(v: Int32): (r: Outcome<IoError>)
    ensures r.Pass?
  {
    Pass
  }

  // ---------------------------------------------------------------------
  // The in-memory stream

  function Min(a: int, b: int): int {
    if a < b then a else b
  }

  /** Bytes `[0, k)` with `k` the largest multiple of 4 up to `n`. */
  function WholeGroups(n: nat): (k: nat)
    ensures k <= n && k % 4 == 0 && n - k < 4
  {
    n - n % 4
  }

  /** The bytes a sequence of byte reads would return from a stream with
      these fields: the rest of the record under the cursor, then the bytes
      of the queued records. */
  function PendingBytes(memory: seq<Int32>, curData: Int32, position: nat): seq<Byte> {
    (if 0 < position < 4 then Encode(curData)[position..] else []) + Bytes(memory)
  }

  class MemoryStream {
    var memory: seq<Int32>
    var buffer: seq<Byte>
    var curData: Int32
    var position: nat

    /** The read cursor stays inside one record and a full write group is
        always flushed to `memory`. */
    ghost predicate Valid()
      reads this
    {
      position < 4 && |buffer| < 4
    }

    /** The bytes a sequence of byte reads would return. Buffered write
        bytes are not part of it. */
    function Pending(): seq<Byte>
      reads this
    {
      PendingBytes(memory, curData, position)
    }

    constructor ()
      ensures Valid()
      ensures memory == [] && buffer == [] && position == 0 && curData == 0
      ensures Pending() == []
    {
      memory := [];
      buffer := [];
      curData := 0;
      position := 0;
    }

    /** `read_value`: removes and returns the front record, or fails with
        `UnexpectedEof` on an empty queue. The byte cursor is not touched. */
    method ReadValue() returns (r: Result<Int32, IoError>)
      requires Valid()
      modifies this
      ensures Valid()
      ensures old(memory) == [] ==> r == Failure(UnexpectedEof) && memory == []
      ensures old(memory) != [] ==> r == Success(old(memory)[0]) && memory == old(memory)[1..]
      ensures buffer == old(buffer) && curData == old(curData) && position == old(position)
    {
      if memory != [] {
        r := Success(memory[0]);
        memory := memory[1..];
      } else {
        r := Failure(UnexpectedEof);
      }
    }

    /** `write_value`: appends the record at the back of the queue. */
    method WriteValue(v: Int32) returns (o: Outcome<IoError>)
      requires Valid()
      modifies this
      ensures Valid() && o.Pass?
      ensures memory == old(memory) + [v]
      ensures buffer == old(buffer) && curData == old(curData) && position == old(position)
    {
      memory := memory + [v];
      o := Pass;
    }

    /** One iteration of the copy loop of `io::Read::read`: loads the front
        record when the cursor is at its start, takes the byte under the
        cursor and advances it; `ended` reports that the cursor wrapped
        with the queue empty, i.e. that nothing is left to read. */
    method NextByte() returns (b: Byte, ended: bool)
      requires Valid() && Pending() != []
      modifies this
      ensures Valid()
      ensures b == old(Pending())[0] && Pending() == old(Pending())[1..]
      ensures ended <==> Pending() == []
      ensures buffer == old(buffer)
    {
      ghost var rest := Pending();
      if position == 0 {
        LoadRecord(memory, curData);
        curData := memory[0];
        memory := memory[1..];
      }
      TakeByte(memory, curData, position);
      b := Encode(curData)[position];
      position := position + 1;
      ended := false;
      if position == 4 {
        position := 0;
        ended := memory == [];
      }
    }

    /** `io::Read::read`: copies pending bytes into `buf` until it is full or
        the last byte of the last record has been read; the rest of `buf`
        is left alone. */
    method Read(buf: array<Byte>) returns (n: nat)
      requires Valid()
      modifies this, buf
      ensures Valid()
      ensures n == Min(buf.Length, |old(Pending())|)
      ensures forall k :: 0 <= k < n ==> buf[k] == old(Pending())[k]
      ensures forall k :: n <= k < buf.Length ==> buf[k] == old(buf[k])
      ensures Pending() == old(Pending())[n..]
      ensures buffer == old(buffer)
    {
      ghost var p0 := Pending();
      NothingPending(memory, curData, position);
      if memory == [] && position == 0 {
        return 0;
      }
      var size := 0;
      var ended := false;
      while size < buf.Length && !ended
        invariant position < 4 && buffer == old(buffer)
        invariant size <= buf.Length && size <= |p0|
        invariant ended <==> size == |p0|
        invariant forall k :: 0 <= k < size ==> buf[k] == p0[k]
        invariant forall k :: size <= k < buf.Length ==> buf[k] == old(buf[k])
        invariant Pending() == p0[size..]
      {
        var b;
        b, ended := NextByte();
        assert b == p0[size] && Pending() == p0[size + 1..];
        buf[size] := b;
        size := size + 1;
      }
      assert size == Min(buf.Length, |p0|);
      return size;
    }

    /** `io::Write::write`: takes every byte of `buf`. Bytes are gathered in
        `buffer`; each completed group of four becomes one record at the back
        of the queue, and fewer than four leftover bytes stay in `buffer`. */
    method Write(buf: seq<Byte>) returns (n: nat)
      requires Valid()
      modifies this
      ensures Valid() && n == |buf|
      ensures |old(memory)| <= |memory| && memory[..|old(memory)|] == old(memory)
      ensures Bytes(memory[|old(memory)|..]) + buffer == old(buffer) + buf
      ensures var all := old(buffer) + buf;
        && memory == old(memory) + Values(all[..WholeGroups(|all|)])
        && buffer == all[WholeGroups(|all|)..]
      ensures curData == old(curData) && position == old(position)
    {
      ghost var added: seq<Int32> := [];
      var i := 0;
      while i < |buf|
        invariant i <= |buf| && Valid()
        invariant memory == old(memory) + added
        invariant Bytes(added) + buffer == old(buffer) + buf[..i]
        invariant curData == old(curData) && position == old(position)
      {
        calc {
          Bytes(added) + (buffer + [buf[i]]);
          (Bytes(added) + buffer) + [buf[i]];
          (old(buffer) + buf[..i]) + [buf[i]];
          { assert buf[..i + 1] == buf[..i] + [buf[i]]; }
          old(buffer) + buf[..i + 1];
        }
        buffer := buffer + [buf[i]];
        if |buffer| == 4 {
          var v := Decode(buffer);
          CompleteGroup(added, buffer);
          memory := memory + [v];
          added := added + [v];
          buffer := [];
        }
        i := i + 1;
      }
      assert buf[..i] == buf;
      assert memory[|old(memory)|..] == added;
      WriteGroups(added, buffer, old(buffer) + buf);
      n := i;
    }

    /** `io::Write::flush`: nothing to do. */
    method Flush() returns (o: Outcome<IoError>)
      ensures o.Pass?
    {
      o := Pass;
    }
  }

  /** Nothing is left to read exactly when the queue is empty and the
      cursor is at the start of a record: the only case in which `read`
      into a non-empty buffer returns 0. */
  lemma NothingPending(memory: seq<Int32>, curData: Int32, position: nat)
    requires position < 4
    ensures PendingBytes(memory, curData, position) == [] <==> memory == [] && position == 0
  {
    if 0 < position {
      assert Encode(curData)[position..] != [];
    }
  }

  /** The pending bytes alone fix the byte cursor and the record queue:
      the incomplete head of the pending bytes is the unread rest of the
      record under the cursor, and the whole groups after it are the
      queued records. So byte reads and value reads act on one queue. */
  lemma PendingDetermines(memory: seq<Int32>, curData: Int32, position: nat)
    requires position < 4
    ensures var p := PendingBytes(memory, curData, position);
      && position == (4 - |p| % 4) % 4
      && memory == Values(p[|p| % 4..])
  {
    var head := if 0 < position < 4 then Encode(curData)[position..] else [];
    var p := PendingBytes(memory, curData, position);
    assert p == head + Bytes(memory);
    assert |head| == (if position == 0 then 0 else 4 - position);
    assert |p| % 4 == |head| by {
      GroupsOf(|memory|, |head|);
    }
    assert p[|p| % 4..] == Bytes(memory);
    ValuesOfBytes(memory);
  }

  /** Loading the front record at the start of a record changes nothing
      about the pending bytes. */
  lemma LoadRecord(memory: seq<Int32>, curData: Int32)
    requires memory != []
    ensures PendingBytes(memory, curData, 0) == Encode(memory[0])[0..] + Bytes(memory[1..])
  {
    assert Encode(memory[0])[0..] == Encode(memory[0]);
  }

  /** Taking the byte under the cursor removes the first pending byte; the
      cursor returns to 0 after the fourth byte of a record. */
  lemma TakeByte(memory: seq<Int32>, curData: Int32, position: nat)
    requires position < 4
    ensures var e := Encode(curData);
      && e[position..] + Bytes(memory) != []
      && (e[position..] + Bytes(memory))[0] == e[position]
      && (e[position..] + Bytes(memory))[1..]
         == PendingBytes(memory, curData, if position == 3 then 0 else position + 1)
  {
    var e := Encode(curData);
    assert e[position..] == [e[position]] + e[position + 1..];
  }

  /** A completed group of four buffered bytes appended as one record
      extends the byte view by exactly those four bytes. */
  lemma CompleteGroup(added: seq<Int32>, group: seq<Byte>)
    requires |group| == 4
    ensures Bytes(added + [Decode(group)]) == Bytes(added) + group
  {
    BytesAppend(added, [Decode(group)]);
    EncodeDecode(group);
    assert Bytes([Decode(group)]) == Encode(Decode(group)) + Bytes([]);
  }

  /** What `Write` leaves behind is exactly the grouping of the written
      bytes: the new records are the little-endian decodings of every
      complete 4-byte group, and the leftover bytes are the incomplete tail. */
  lemma WriteGroups(vs: seq<Int32>, rest: seq<Byte>, all: seq<Byte>)
    requires Bytes(vs) + rest == all && |rest| < 4
    ensures vs == Values(all[..WholeGroups(|all|)])
    ensures rest == all[WholeGroups(|all|)..]
  {
    var bs := Bytes(vs);
    var k := |bs|;
    assert k == 4 * |vs| && |all| == k + |rest|;
    GroupsOf(|vs|, |rest|);
    assert WholeGroups(|all|) == WholeGroups(4 * |vs| + |rest|) == k;
    assert all[..k] == bs && all[k..] == rest;
    ValuesOfBytes(vs);
  }

  lemma WholeGroupsExact(n: nat)
    requires n % 4 == 0
    ensures WholeGroups(n) == n
  {
  }

  lemma GroupsOf(q: nat, r: nat)
    requires r < 4
    ensures WholeGroups(4 * q + r) == 4 * q
  {
    var n := 4 * q + r;
    assert n % 4 == r;
  }

  /** `InputInterface`: the reading view of a stream that is shared with an
      `OutputInterface`; every call goes to the one stream. */
  class InputInterface {
    const stream: MemoryStream

    constructor (stream: MemoryStream)
      ensures this.stream == stream
    {
      this.stream := stream;
    }

    method ReadValue() returns (r: Result<Int32, IoError>)
      requires stream.Valid()
      modifies stream
      ensures stream.Valid()
      ensures old(stream.memory) == [] ==> r == Failure(UnexpectedEof) && stream.memory == []
      ensures old(stream.memory) != [] ==> r == Success(old(stream.memory)[0]) && stream.memory == old(stream.memory)[1..]
      ensures stream.buffer == old(stream.buffer)
      ensures stream.curData == old(stream.curData) && stream.position == old(stream.position)
    {
      r := stream.ReadValue();
    }

    method Read(buf: array<Byte>) returns (n: nat)
      requires stream.Valid()
      modifies stream, buf
      ensures stream.Valid()
      ensures n == Min(buf.Length, |old(stream.Pending())|)
      ensures forall k :: 0 <= k < n ==> buf[k] == old(stream.Pending())[k]
      ensures forall k :: n <= k < buf.Length ==> buf[k] == old(buf[k])
      ensures stream.Pending() == old(stream.Pending())[n..]
      ensures stream.buffer == old(stream.buffer)
    {
      n := stream.Read(buf);
    }
  }

  /** `OutputInterface`: the writing view of a shared stream. */
  class OutputInterface {
    const stream: MemoryStream

    constructor (stream: MemoryStream)
      ensures this.stream == stream
    {
      this.stream := stream;
    }

    method WriteValue(v: Int32) returns (o: Outcome<IoError>)
      requires stream.Valid()
      modifies stream
      ensures stream.Valid() && o.Pass?
      ensures stream.memory == old(stream.memory) + [v]
      ensures stream.buffer == old(stream.buffer)
      ensures stream.curData == old(stream.curData) && stream.position == old(stream.position)
    {
      o := stream.WriteValue(v);
    }

    method Write(buf: seq<Byte>) returns (n: nat)
      requires stream.Valid()
      modifies stream
      ensures stream.Valid() && n == |buf|
      ensures |old(stream.memory)| <= |stream.memory| && stream.memory[..|old(stream.memory)|] == old(stream.memory)
      ensures Bytes(stream.memory[|old(stream.memory)|..]) + stream.buffer == old(stream.buffer) + buf
      ensures var all := old(stream.buffer) + buf;
        && stream.memory == old(stream.memory) + Values(all[..WholeGroups(|all|)])
        && stream.buffer == all[WholeGroups(|all|)..]
      ensures stream.curData == old(stream.curData) && stream.position == old(stream.position)
    {
      n := stream.Write(buf);
    }

    method Flush() returns (o: Outcome<IoError>)
      ensures o.Pass?
    {
      o := stream.Flush();
    }
  }

  /** Values written with `write_value` come back from `read_value` in the
      order they were written, and then the queue reports end of input. */
  method ValueRoundTrip(vs: seq<Int32>) returns (got: seq<Int32>)
    ensures got == vs
  {
    var stream := new MemoryStream();
    for k := 0 to |vs|
      invariant stream.Valid() && stream.memory == vs[..k]
    {
      var _ := stream.WriteValue(vs[k]);
      assert vs[..k + 1] == vs[..k] + [vs[k]];
    }
    got := [];
    while true
      invariant stream.Valid() && got + stream.memory == vs
      decreases |stream.memory|
    {
      var r := stream.ReadValue();
      if r.Failure? {
        break;
      }
      got := got + [r.value];
    }
  }

  /** A byte `read` followed by `read_value` on the same stream: the value
      is the first whole record after the bytes left unread in the record
      under the cursor, or `UnexpectedEof` when no whole record remains. */
  method ReadThenValue(stream: MemoryStream, buf: array<Byte>)
    returns (n: nat, r: Result<Int32, IoError>)
    requires stream.Valid()
    modifies stream, buf
    ensures stream.Valid()
    ensures n == Min(buf.Length, |old(stream.Pending())|)
    ensures var rest := old(stream.Pending())[n..];
      var whole := rest[|rest| % 4..];
      && (whole == [] ==> r == Failure(UnexpectedEof))
      && (whole != [] ==> r == Success(Decode(whole[..4])))
  {
    n := stream.Read(buf);
    PendingDetermines(stream.memory, stream.curData, stream.position);
    r := stream.ReadValue();
  }

  /** Reads through `input` one byte at a time until a read returns 0, the
      way the tests iterate over `bytes()`: yields every pending byte, in
      order, and leaves nothing to read. */
  method ReadAllBytes(input: InputInterface) returns (got: seq<Byte>)
    requires input.stream.Valid()
    modifies input.stream
    ensures input.stream.Valid()
    ensures got == old(input.stream.Pending()) && input.stream.Pending() == []
  {
    var stream := input.stream;
    ghost var p0 := stream.Pending();
    var one := new Byte[1];
    got := [];
    var n := 1;
    while n != 0
      invariant stream.Valid()
      invariant got + stream.Pending() == p0
      invariant n == 0 ==> stream.Pending() == []
      decreases |stream.Pending()|, n
    {
      ghost var p := stream.Pending();
      n := input.Read(one);
      if n != 0 {
        assert one[0] == p[0] && stream.Pending() == p[1..];
        got := got + [one[0]];
        assert got + stream.Pending() == p0 by {
          assert p == [p[0]] + p[1..];
        }
      }
    }
  }

  /** The scenario of the `write_and_read` test on a bare stream: the four
      bytes written come back one at a time as 0, 1, 2, 3. */
  method WriteAndRead() returns (got: seq<Byte>)
    ensures got == [0, 1, 2, 3]
  {
    var stream := new MemoryStream();
    var _ := stream.Write([0, 1, 2, 3]);
    OneGroup(stream.memory, stream.buffer);
    got := DrainBytes(stream);
  }

  /** Four bytes written to an empty stream form one record whose bytes are
      exactly the pending bytes. */
  lemma OneGroup(memory: seq<Int32>, buffer: seq<Byte>)
    requires var all: seq<Byte> := [] + [0, 1, 2, 3];
      memory == [] + Values(all[..WholeGroups(|all|)]) && buffer == all[WholeGroups(|all|)..]
    ensures buffer == [] && PendingBytes(memory, 0, 0) == [0, 1, 2, 3]
  {
    var all: seq<Byte> := [0, 1, 2, 3];
    assert [] + all == all && all[..4] == all && all[4..] == [];
    assert memory == [Decode(all)] by {
      assert Values(all) == [Decode(all)] + Values([]);
    }
    EncodeDecode(all);
    assert Bytes(memory) == Encode(Decode(all)) + Bytes([]);
  }

  /** `bytes()` on a bare stream: one-byte reads until a read returns 0
      yield every pending byte, in order, and leave nothing to read. */
  method DrainBytes(stream: MemoryStream) returns (got: seq<Byte>)
    requires stream.Valid()
    modifies stream
    ensures stream.Valid()
    ensures got == old(stream.Pending()) && stream.Pending() == []
  {
    ghost var p0 := stream.Pending();
    var one := new Byte[1];
    got := [];
    var n := 1;
    while n != 0
      invariant stream.Valid()
      invariant got + stream.Pending() == p0
      invariant n == 0 ==> stream.Pending() == []
      decreases |stream.Pending()|, n
    {
      ghost var p := stream.Pending();
      n := stream.Read(one);
      if n != 0 {
        got := got + [one[0]];
        assert got + stream.Pending() == p0 by {
          assert p == [p[0]] + p[1..];
        }
      }
    }
  }

  /** Whole records written as bytes through an `OutputInterface` are read
      back byte by byte, in order, through an `InputInterface` on the same
      stream. */
  method InterfacesRoundTrip(bytes: seq<Byte>) returns (got: seq<Byte>)
    requires |bytes| % 4 == 0
    ensures got == bytes
  {
    var stream := new MemoryStream();
    var input := new InputInterface(stream);
    var output := new OutputInterface(stream);
    var _ := output.Write(bytes);
    WholeGroupsExact(|bytes|);
    assert [] + bytes == bytes && bytes[..|bytes|] == bytes && bytes[|bytes|..] == [];
    assert stream.memory == Values(bytes) && stream.buffer == [];
    BytesOfValues(bytes);
    assert stream.Pending() == bytes;
    got := ReadAllBytes(input);
  }

  /** The bytes of several writes, in order. */
  function Concat(pieces: seq<seq<Byte>>): (all: seq<Byte>)
    ensures pieces == [] ==> all == []
  {
    if pieces == [] then [] else Concat(pieces[..|pieces| - 1]) + pieces[|pieces| - 1]
  }

  /** Writes each piece in turn. However the bytes are split across
      writes, the records and the leftover bytes are those of one write of
      all of them. */
  method WriteEach(stream: MemoryStream, pieces: seq<seq<Byte>>)
    requires stream.Valid()
    modifies stream
    ensures stream.Valid()
    ensures var all := old(stream.buffer) + Concat(pieces);
      && stream.memory == old(stream.memory) + Values(all[..WholeGroups(|all|)])
      && stream.buffer == all[WholeGroups(|all|)..]
    ensures stream.curData == old(stream.curData) && stream.position == old(stream.position)
  {
    ghost var m0, b0 := stream.memory, stream.buffer;
    ghost var added: seq<Int32> := [];
    var j := 0;
    while j < |pieces|
      invariant j <= |pieces| && stream.Valid()
      invariant stream.memory == m0 + added
      invariant Bytes(added) + stream.buffer == b0 + Concat(pieces[..j])
      invariant stream.curData == old(stream.curData) && stream.position == old(stream.position)
    {
      ghost var m, buffer := stream.memory, stream.buffer;
      var _ := stream.Write(pieces[j]);
      ghost var more := stream.memory[|m|..];
      assert stream.memory == m + more;
      AppendWrite(added, more, buffer, stream.buffer, pieces[j]);
      ConcatStep(pieces, j);
      AppendAssoc(b0, Concat(pieces[..j]), pieces[j]);
      assert Bytes(added + more) + stream.buffer == b0 + Concat(pieces[..j + 1]);
      AppendAssoc(m0, added, more);
      added := added + more;
      j := j + 1;
    }
    assert pieces[..j] == pieces;
    WriteGroups(added, stream.buffer, b0 + Concat(pieces));
  }

  lemma AppendWrite(added: seq<Int32>, more: seq<Int32>, buffer: seq<Byte>, buffer': seq<Byte>, piece: seq<Byte>)
    requires Bytes(more) + buffer' == buffer + piece
    ensures Bytes(added + more) + buffer' == (Bytes(added) + buffer) + piece
  {
    calc {
      Bytes(added + more) + buffer';
      { BytesAppend(added, more); }
      (Bytes(added) + Bytes(more)) + buffer';
      Bytes(added) + (Bytes(more) + buffer');
      Bytes(added) + (buffer + piece);
      (Bytes(added) + buffer) + piece;
    }
  }

  /** Sequence associativity, called at the one step of `WriteEach` where
      the solver would otherwise search for it and grow the proof's cost. */
  lemma AppendAssoc<T>(a: seq<T>, b: seq<T>, c: seq<T>)
    ensures (a + b) + c == a + (b + c)
  {
  }

  lemma ConcatStep(pieces: seq<seq<Byte>>, j: nat)
    requires j < |pieces|
    ensures Concat(pieces[..j + 1]) == Concat(pieces[..j]) + pieces[j]
  {
    assert pieces[..j + 1][..j] == pieces[..j];
  }

  /** The scenario of the `partial_write` test: bytes written in pieces of
      1, 2, 2, 3 and 3 give two records; the three stray bytes are never
      readable as a value. */
  method PartialWrite() returns (results: seq<Result<Int32, IoError>>)
    ensures results == [Success(0x03020100), Success(0x07060504), Failure(UnexpectedEof)]
  {
    var stream := new MemoryStream();
    WriteEach(stream, [[0], [1, 2], [3, 4], [5, 6, 7], [8, 9, 10]]);
    TwoGroups();
    assert stream.memory == [0x03020100, 0x07060504];
    var r1 := stream.ReadValue();
    var r2 := stream.ReadValue();
    var r3 := stream.ReadValue();
    results := [r1, r2, r3];
  }

  lemma TwoGroups()
    ensures var all := [] + Concat([[0], [1, 2], [3, 4], [5, 6, 7], [8, 9, 10]]);
      Values(all[..WholeGroups(|all|)]) == [0x03020100, 0x07060504]
  {
    TestPieces();
    var all: seq<Byte> := [0, 1, 2, 3, 4, 5, 6, 7, 8, 9, 10];
    assert [] + all == all;
    assert all[..8] == [0, 1, 2, 3, 4, 5, 6, 7];
    TestRecords();
  }

  lemma TestPieces()
    ensures Concat([[0], [1, 2], [3, 4], [5, 6, 7], [8, 9, 10]]) == [0, 1, 2, 3, 4, 5, 6, 7, 8, 9, 10]
  {
    var pieces: seq<seq<Byte>> := [[0], [1, 2], [3, 4], [5, 6, 7], [8, 9, 10]];
    assert pieces[..0] == [];
    ConcatStep(pieces, 0);
    ConcatStep(pieces, 1);
    ConcatStep(pieces, 2);
    ConcatStep(pieces, 3);
    ConcatStep(pieces, 4);
    assert pieces[..5] == pieces;
  }

  lemma TestRecords()
    ensures Values([0, 1, 2, 3, 4, 5, 6, 7]) == [0x03020100, 0x07060504]
  {
    var eight: seq<Byte> := [0, 1, 2, 3, 4, 5, 6, 7];
    assert eight[..4] == [0, 1, 2, 3] && eight[4..] == [4, 5, 6, 7];
    var four: seq<Byte> := [4, 5, 6, 7];
    assert four[..4] == four && four[4..] == [];
  }

  /** What a read into a zero-filled buffer of `size` bytes leaves in the
      buffer when `pending` are the bytes left to read. */
  function Filled(pending: seq<Byte>, size: nat): (got: seq<Byte>)
    ensures |got| == size
  {
    var n := Min(size, |pending|);
    pending[..n] + seq(size - n, _ => 0)
  }

  /** The counts and buffer contents of reads into fresh zero-filled
      buffers of the given sizes, one after the other. */
  function ReadPieces(pending: seq<Byte>, sizes: seq<nat>): (r: (seq<nat>, seq<seq<Byte>>))
    ensures |r.0| == |r.1| == |sizes|
  {
    if sizes == [] then ([], [])
    else
      var n := Min(sizes[0], |pending|);
      var rest := ReadPieces(pending[n..], sizes[1..]);
      ([n] + rest.0, [Filled(pending, sizes[0])] + rest.1)
  }

  /** Reads from `stream` into a new zero-filled buffer of `size` bytes and
      returns the count and the buffer's contents afterwards. */
  method ReadZeroed(stream: MemoryStream, size: nat) returns (n: nat, got: seq<Byte>)
    requires stream.Valid()
    modifies stream
    ensures stream.Valid()
    ensures n == Min(size, |old(stream.Pending())|)
    ensures got == Filled(old(stream.Pending()), size)
    ensures stream.Pending() == old(stream.Pending())[n..]
  {
    ghost var p := stream.Pending();
    var buf := new Byte[size](_ => 0);
    n := stream.Read(buf);
    got := buf[..];
    assert got == p[..n] + seq(size - n, _ => 0);
  }

  /** Reads into fresh zero-filled buffers of the given sizes, in turn. */
  method ReadEach(stream: MemoryStream, sizes: seq<nat>) returns (counts: seq<nat>, contents: seq<seq<Byte>>)
    requires stream.Valid()
    modifies stream
    ensures (counts, contents) == ReadPieces(old(stream.Pending()), sizes)
  {
    counts, contents := [], [];
    var j := 0;
    ghost var all := ReadPieces(stream.Pending(), sizes);
    assert sizes[j..] == sizes && counts + all.0 == all.0 && contents + all.1 == all.1;
    while j < |sizes|
      invariant j <= |sizes| && stream.Valid()
      invariant var rest := ReadPieces(stream.Pending(), sizes[j..]);
        ReadPieces(old(stream.Pending()), sizes) == (counts + rest.0, contents + rest.1)
    {
      ghost var p := stream.Pending();
      var n, got := ReadZeroed(stream, sizes[j]);
      assert sizes[j..][1..] == sizes[j + 1..];
      ghost var rest := ReadPieces(stream.Pending(), sizes[j + 1..]);
      assert ReadPieces(p, sizes[j..]) == ([n] + rest.0, [got] + rest.1);
      AppendAssoc(counts, [n], rest.0);
      AppendAssoc(contents, [got], rest.1);
      counts, contents := counts + [n], contents + [got];
      j := j + 1;
    }
    assert sizes[j..] == [];
    assert counts + [] == counts && contents + [] == contents;
  }

  /** The scenario of the `partial_read` test: two records read through
      buffers of 1, 2, 2 and 4 bytes; the last read stops after the final
      byte and leaves the fourth byte of its buffer as it was. (The test
      reuses its 2-byte buffer for the second and third reads; both reads
      fill it, so a fresh one gives the same contents.) */
  method PartialRead() returns (counts: seq<nat>, contents: seq<seq<Byte>>)
    ensures counts == [1, 2, 2, 3]
    ensures contents == [[0], [1, 2], [3, 4], [5, 6, 7, 0]]
  {
    var stream := new MemoryStream();
    var o := stream.WriteValue(0x03020100);
    o := stream.WriteValue(0x07060504);
    PendingOfTwo(0x03020100, 0x07060504);
    assert stream.Pending() == [0, 1, 2, 3, 4, 5, 6, 7];
    TestReads();
    counts, contents := ReadEach(stream, [1, 2, 2, 4]);
  }

  lemma TestReads()
    ensures ReadPieces([0, 1, 2, 3, 4, 5, 6, 7], [1, 2, 2, 4]).0 == [1, 2, 2, 3]
    ensures ReadPieces([0, 1, 2, 3, 4, 5, 6, 7], [1, 2, 2, 4]).1 == [[0], [1, 2], [3, 4], [5, 6, 7, 0]]
  {
    var p: seq<Byte> := [0, 1, 2, 3, 4, 5, 6, 7];
    var z: seq<nat> := [1, 2, 2, 4];
    var r3 := ReadPieces(p[5..], z[3..]);
    assert r3.0 == [3] && r3.1 == [[5, 6, 7, 0]] by {
      assert Filled(p[5..], 4) == [5, 6, 7, 0];
      assert p[5..][3..] == [] && z[3..] == [4] && z[3..][1..] == [];
    }
    var r2 := ReadPieces(p[3..], z[2..]);
    assert r2.0 == [2] + r3.0 && r2.1 == [[3, 4]] + r3.1 by {
      assert Filled(p[3..], 2) == [3, 4];
      assert p[3..][2..] == p[5..] && z[2..][1..] == z[3..] && z[2..][0] == 2;
    }
    var r1 := ReadPieces(p[1..], z[1..]);
    assert r1.0 == [2] + r2.0 && r1.1 == [[1, 2]] + r2.1 by {
      assert Filled(p[1..], 2) == [1, 2];
      assert p[1..][2..] == p[3..] && z[1..][1..] == z[2..] && z[1..][0] == 2;
    }
    assert Filled(p, 1) == [0];
  }

  lemma PendingOfTwo(v: Int32, w: Int32)
    ensures PendingBytes([v, w], 0, 0) == Encode(v) + Encode(w)
    ensures Encode(0x03020100) == [0, 1, 2, 3] && Encode(0x07060504) == [4, 5, 6, 7]
  {
    assert Bytes([v, w]) == Encode(v) + Bytes([w]);
    assert Bytes([w]) == Encode(w) + Bytes([]);
  }
}
