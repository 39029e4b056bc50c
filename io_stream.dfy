/**
 The byte stream that a SubStream wraps, reduced to what the window uses of it:
 a byte sequence, a cursor, and the read/write/seek capabilities. The parent
 stands for any System.IO.Stream; its methods are specified loosely where real
 streams differ (a read may return fewer bytes than asked for) and its body is
 one concrete in-memory stream that meets the specification.
 */
module IoStream {

  newtype byte = x: int | 0 <= x < 256

  /** The exception a stream operation throws, by kind. */
  datatype StreamError =
    | ArgumentNull        // ArgumentNullException
    | ArgumentOutOfRange  // ArgumentOutOfRangeException
    | Argument            // ArgumentException
    | ObjectDisposed      // ObjectDisposedException
    | NotSupported        // NotSupportedException
    | InvalidOperation    // InvalidOperationException
    | IO                  // IOException
    | NullReference       // a member called through a null reference

  /** The outcome of an operation that returns a value or throws. */
  datatype Result<T> = Ok(value: T) | Fail(error: StreamError)

  /** The outcome of an operation that returns nothing or throws. */
  datatype Status = Done | Failed(error: StreamError)

  datatype Option<T> = None | Some(value: T)

  datatype SeekOrigin = Begin | Current | End | Undefined(code: int)

  function Zeros(n: nat): (z: seq<byte>)
    ensures |z| == n && forall i :: 0 <= i < n ==> z[i] == 0
  {
    seq(n, _ => 0)
  }

  /** The argument check every Read and Write of a stream makes on
      (buffer, offset, count) before anything else. */
  function RangeError(bufferLength: nat, offset: int, count: int): (e: Option<StreamError>)
    ensures e == None <==> 0 <= offset && 0 <= count && offset + count <= bufferLength
  {
    if offset < 0 || count < 0 then Some(ArgumentOutOfRange)
    else if offset + count > bufferLength then Some(Argument)
    else None
  }

  /** The contents of a stream holding `d` after `b` is written at position `p`;
      writing past the end first extends the stream with zero bytes. */
  function Overwrite(d: seq<byte>, p: nat, b: seq<byte>): (r: seq<byte>)
    ensures |r| == if p + |b| <= |d| then |d| else p + |b|
    ensures forall i :: 0 <= i < |r| ==>
              r[i] == if p <= i < p + |b| then b[i - p] else if i < |d| then d[i] else 0
  {
    var prefix := if p <= |d| then d[..p] else d + Zeros(p - |d|);
    var suffix := if p + |b| < |d| then d[p + |b|..] else [];
    prefix + b + suffix
  }

  /** Two consecutive writes land where one write of both buffers would. */
  lemma OverwriteTwice(d: seq<byte>, p: nat, a: seq<byte>, b: seq<byte>)
    ensures Overwrite(Overwrite(d, p, a), p + |a|, b) == Overwrite(d, p, a + b)
  {
  }

  /** What was just written can be read back from where it was written. */
  lemma OverwriteReadBack(d: seq<byte>, p: nat, b: seq<byte>)
    ensures p + |b| <= |Overwrite(d, p, b)|
    ensures Overwrite(d, p, b)[p..p + |b|] == b
  {
  }

  /** Writing at the end of the data appends to it. */
  lemma OverwriteAtEnd(d: seq<byte>, b: seq<byte>)
    ensures Overwrite(d, |d|, b) == d + b
  {
  }

  /**
   A parent stream. `readable`, `writable` and `seekable` are what the
   stream supports while open; once closed it supports nothing. When
   `fillsReads` holds, Read returns every byte available up to the count
   asked for, as an in-memory or file stream does; otherwise Read may return
   fewer, though never zero while bytes remain and some were asked for.
   */
  class Stream {
    var data: seq<byte>
    var pos: nat
    var closed: bool
    const readable: bool
    const writable: bool
    const seekable: bool
    const fillsReads: bool

    constructor (data: seq<byte>, readable: bool, writable: bool, seekable: bool, fillsReads: bool)
      ensures this.data == data && pos == 0 && !closed
      ensures this.readable == readable && this.writable == writable
      ensures this.seekable == seekable && this.fillsReads == fillsReads
    {
      this.data := data;
      this.readable := readable;
      this.writable := writable;
      this.seekable := seekable;
      this.fillsReads := fillsReads;
      pos := 0;
      closed := false;
    }

    predicate CanRead() reads this { !closed && readable }

    predicate CanWrite() reads this { !closed && writable }

    predicate CanSeek() reads this { !closed && seekable }

    /** The number of bytes between the cursor and the end of the data. */
    function Available(): (n: nat) reads this
    {
      if pos <= |data| then |data| - pos else 0
    }

    method Read(buffer: array<byte>, offset: int, count: int) returns (r: Result<int>)
      modifies this`pos, buffer
      ensures data == old(data) && closed == old(closed)
      ensures RangeError(buffer.Length, offset, count).Some? ==>
                r == Fail(RangeError(buffer.Length, offset, count).value)
      ensures RangeError(buffer.Length, offset, count) == None && !old(CanRead()) ==>
                r == Fail(if closed then ObjectDisposed else NotSupported)
      ensures r.Fail? ==> pos == old(pos) && buffer[..] == old(buffer[..])
      ensures r.Ok? <==> RangeError(buffer.Length, offset, count) == None && old(CanRead())
      ensures r.Ok? ==>
                && 0 <= r.value <= count && r.value <= old(Available())
                && (count > 0 && old(Available()) > 0 ==> r.value > 0)
                && (fillsReads ==> r.value == if count < old(Available()) then count else old(Available()))
                && pos == old(pos) + r.value
                && (forall i :: offset <= i < offset + r.value ==> buffer[i] == data[old(pos) + i - offset])
                && (forall i :: 0 <= i < buffer.Length && !(offset <= i < offset + r.value) ==>
                      buffer[i] == old(buffer[i]))
    {
      var e := RangeError(buffer.Length, offset, count);
      if e.Some? {
        return Fail(e.value);
      }
      if closed {
        return Fail(ObjectDisposed);
      }
      if !readable {
        return Fail(NotSupported);
      }
      var n := if count < Available() then count else Available();
      forall i | offset <= i < offset + n {
        buffer[i] := data[pos + i - offset];
      }
      pos := pos + n;
      r := Ok(n);
    }

    method ReadByte() returns (r: Result<int>)
      modifies this`pos
      ensures data == old(data) && closed == old(closed)
      ensures r.Fail? <==> !old(CanRead())
      ensures r.Fail? ==> r.error == (if closed then ObjectDisposed else NotSupported) && pos == old(pos)
      ensures r.Ok? && old(Available()) == 0 ==> r.value == -1 && pos == old(pos)
      ensures r.Ok? && old(Available()) > 0 ==> r.value == data[old(pos)] as int && pos == old(pos) + 1
    {
      if closed {
        return Fail(ObjectDisposed);
      }
      if !readable {
        return Fail(NotSupported);
      }
      if Available() == 0 {
        return Ok(-1);
      }
      r := Ok(data[pos] as int);
      pos := pos + 1;
    }

    method Write(buffer: array<byte>, offset: int, count: int) returns (s: Status)
      modifies this`data, this`pos
      ensures closed == old(closed)
      ensures RangeError(buffer.Length, offset, count).Some? ==>
                s == Failed(RangeError(buffer.Length, offset, count).value)
      ensures RangeError(buffer.Length, offset, count) == None && !old(CanWrite()) ==>
                s == Failed(if closed then ObjectDisposed else NotSupported)
      ensures s.Failed? ==> data == old(data) && pos == old(pos)
      ensures s == Done <==> RangeError(buffer.Length, offset, count) == None && old(CanWrite())
      ensures s == Done ==>
                && data == Overwrite(old(data), old(pos), buffer[offset..offset + count])
                && pos == old(pos) + count
    {
      var e := RangeError(buffer.Length, offset, count);
      if e.Some? {
        return Failed(e.value);
      }
      if closed {
        return Failed(ObjectDisposed);
      }
      if !writable {
        return Failed(NotSupported);
      }
      data := Overwrite(data, pos, buffer[offset..offset + count]);
      pos := pos + count;
      s := Done;
    }

    method Flush() returns (s: Status)
      ensures s == Failed(ObjectDisposed) <==> closed
      ensures s == Done <==> !closed
    {
      s := if closed then Failed(ObjectDisposed) else Done;
    }

    method GetLength() returns (r: Result<int>)
      ensures r.Fail? <==> !CanSeek()
      ensures r.Fail? ==> r.error == if closed then ObjectDisposed else NotSupported
      ensures r.Ok? ==> r.value == |data|
    {
      if closed {
        return Fail(ObjectDisposed);
      }
      if !seekable {
        return Fail(NotSupported);
      }
      r := Ok(|data|);
    }

    method GetPosition() returns (r: Result<int>)
      ensures r.Fail? <==> !CanSeek()
      ensures r.Fail? ==> r.error == if closed then ObjectDisposed else NotSupported
      ensures r.Ok? ==> r.value == pos
    {
      if closed {
        return Fail(ObjectDisposed);
      }
      if !seekable {
        return Fail(NotSupported);
      }
      r := Ok(pos);
    }

    method SetPosition(value: int) returns (s: Status)
      modifies this`pos
      ensures s == Done <==> CanSeek() && value >= 0
      ensures !CanSeek() ==> s == Failed(if closed then ObjectDisposed else NotSupported)
      ensures CanSeek() && value < 0 ==> s == Failed(ArgumentOutOfRange)
      ensures pos == if s == Done then value else old(pos)
    {
      if closed {
        return Failed(ObjectDisposed);
      }
      if !seekable {
        return Failed(NotSupported);
      }
      if value < 0 {
        return Failed(ArgumentOutOfRange);
      }
      pos := value;
      s := Done;
    }

    /** Seek relative to the cursor (SeekOrigin.Current). */
    method SeekFromCurrent(offset: int) returns (r: Result<int>)
      modifies this`pos
      ensures r.Ok? <==> CanSeek() && old(pos) + offset >= 0
      ensures !CanSeek() ==> r == Fail(if closed then ObjectDisposed else NotSupported)
      ensures CanSeek() && old(pos) + offset < 0 ==> r == Fail(IO)
      ensures r.Ok? ==> pos == old(pos) + offset && r.value == pos
      ensures r.Fail? ==> pos == old(pos)
    {
      if closed {
        return Fail(ObjectDisposed);
      }
      if !seekable {
        return Fail(NotSupported);
      }
      if pos + offset < 0 {
        return Fail(IO);
      }
      pos := pos + offset;
      r := Ok(pos);
    }

    /** Closing a stream is idempotent and leaves its data and cursor alone. */
    method Dispose()
      modifies this`closed
      ensures closed
    {
      closed := true;
    }
  }
}
