/**
 SubStream: a stream that exposes a fixed-length window of a parent stream,
 starting where the parent's cursor stood when the window was made. It is
 used to read length-prefixed messages without tracking where each ends.

 The window keeps its own cursor `position` in 0 .. length and moves the
 parent's cursor in lock-step with it; `start` (ghost) is the parent's cursor
 at construction, so while the window is open the parent stands at
 `start + position`. Disposing the window clears `parent`; that is the only
 record of the Active -> Disposed transition.
 */
module SubStreams {
  import opened IoStream
  import opened WindowMath

  /** The parent's bytes `src[from .. from + n]` sit in `buffer[offset .. offset + n]`. */
  ghost predicate Delivered(buffer: array<byte>, offset: int, n: int, src: seq<byte>, from: int)
    reads buffer
  {
    && 0 <= offset && 0 <= n && offset + n <= buffer.Length
    && 0 <= from && from + n <= |src|
    && forall i :: offset <= i < offset + n ==> buffer[i] == src[from + i - offset]
  }

  class SubStream {
    var parent: Stream?
    const length: int
    const closesParent: bool
    var position: int
    /** When set, a write that does not fit the window throws; otherwise it is cut to fit. */
    var throwErrorOnEof: bool
    /** The parent's position when the window was made: the window's first byte. */
    ghost const start: int

    ghost predicate Valid()
      reads this, parent
    {
      && 0 <= position <= length <= MaxLong
      && 0 <= start
      && (parent != null ==> parent.pos == start + position)
    }

    predicate IsDisposed()
      reads this
    {
      parent == null
    }

    constructor Init(parent: Stream, length: int, closesParent: bool)
      requires 0 <= length <= MaxLong
      ensures Valid() && this.parent == parent && this.length == length
      ensures this.closesParent == closesParent && position == 0 && throwErrorOnEof
      ensures start == parent.pos
    {
      this.parent := parent;
      this.length := length;
      this.closesParent := closesParent;
      position := 0;
      throwErrorOnEof := true;
      start := parent.pos;
    }

    /** The constructor with an explicit length. */
    static method Create(parent: Stream?, length: int, closesParent: bool) returns (r: Result<SubStream>)
      requires length <= MaxLong
      ensures parent == null ==> r == Fail(ArgumentNull)
      ensures parent != null && length < 0 ==> r == Fail(ArgumentOutOfRange)
      ensures r.Ok? <==> parent != null && length >= 0
      ensures r.Ok? ==>
                && fresh(r.value) && r.value.Valid()
                && r.value.parent == parent && r.value.start == parent.pos
                && r.value.length == length && r.value.position == 0
                && r.value.closesParent == closesParent && r.value.throwErrorOnEof
    {
      if parent == null {
        return Fail(ArgumentNull);
      }
      if length < 0 {
        return Fail(ArgumentOutOfRange);
      }
      var s := new SubStream.Init(parent, length, closesParent);
      r := Ok(s);
    }

    /** The constructor that takes the rest of the parent, Length - Position,
        as the window. It reads the parent before checking it for null. */
    static method CreateForRest(parent: Stream?, closesParent: bool) returns (r: Result<SubStream>)
      requires parent != null ==> |parent.data| <= MaxLong
      ensures parent == null ==> r == Fail(NullReference)
      ensures parent != null && !parent.CanSeek() ==>
                r == Fail(if parent.closed then ObjectDisposed else NotSupported)
      ensures parent != null && parent.CanSeek() && parent.pos > |parent.data| ==> r == Fail(ArgumentOutOfRange)
      ensures r.Ok? <==> parent != null && parent.CanSeek() && parent.pos <= |parent.data|
      ensures r.Ok? ==>
                && fresh(r.value) && r.value.Valid()
                && r.value.parent == parent && r.value.start == parent.pos
                && r.value.length == |parent.data| - parent.pos && r.value.position == 0
                && r.value.closesParent == closesParent && r.value.throwErrorOnEof
    {
      if parent == null {
        return Fail(NullReference);
      }
      var total := parent.GetLength();
      if total.Fail? {
        return Fail(total.error);
      }
      // Position fails exactly when Length does, so it succeeds here.
      var current := parent.GetPosition();
      r := Create(parent, total.value - current.value, closesParent);
    }

    method CheckDisposed() returns (s: Status)
      ensures s == Failed(ObjectDisposed) <==> IsDisposed()
      ensures s == Done <==> !IsDisposed()
    {
      if parent == null {
        return Failed(ObjectDisposed);
      }
      s := Done;
    }

    function CanRead(): (r: bool)
      reads this, parent
      ensures IsDisposed() ==> !r
      ensures !IsDisposed() ==> (r <==> parent.CanRead())
    {
      parent != null && parent.CanRead()
    }

    function CanWrite(): (r: bool)
      reads this, parent
      ensures IsDisposed() ==> !r
      ensures !IsDisposed() ==> (r <==> parent.CanWrite())
    {
      parent != null && parent.CanWrite()
    }

    function CanSeek(): (r: bool)
      reads this, parent
      ensures IsDisposed() ==> !r
      ensures !IsDisposed() ==> (r <==> parent.CanSeek())
    {
      parent != null && parent.CanSeek()
    }

    /** Flush is passed to the parent; after disposal it goes through a null parent. */
    method Flush() returns (s: Status)
      ensures IsDisposed() ==> s == Failed(NullReference)
      ensures !IsDisposed() ==> s == if parent.closed then Failed(ObjectDisposed) else Done
    {
      if parent == null {
        return Failed(NullReference);
      }
      s := parent.Flush();
    }

    method Write(buffer: array<byte>, offset: int, count: int) returns (s: Status)
      requires Valid()
      modifies this`position, parent
      ensures Valid() && parent == old(parent)
      ensures parent != null ==> parent.closed == old(parent.closed)
      ensures old(parent) == null ==> s == Failed(NullReference)
      ensures parent != null && !old(parent.CanWrite()) ==> s == Failed(NotSupported)
      ensures parent != null && old(parent.CanWrite()) ==>
                match WriteCount(count, length - old(position), throwErrorOnEof)
                case None => s == Failed(InvalidOperation)
                case Some(n) =>
                  if RangeError(buffer.Length, offset, n).Some? then s == Failed(RangeError(buffer.Length, offset, n).value)
                  else
                    && s == Done
                    && position == old(position) + n
                    && parent.pos == start + position
                    && parent.data == Overwrite(old(parent.data), start + old(position), buffer[offset..offset + n])
      ensures s.Failed? ==> position == old(position) && (parent != null ==> unchanged(parent))
    {
      if parent == null {
        return Failed(NullReference);
      }
      if !parent.CanWrite() {
        return Failed(NotSupported);
      }
      var n := count;
      if count > length - position {
        if throwErrorOnEof {
          return Failed(InvalidOperation);
        }
        n := length - position;
      }
      s := parent.Write(buffer, offset, n);
      if s == Done {
        position := position + n;
      }
    }

    /** The Position setter. */
    method SetPosition(value: int) returns (s: Status)
      requires Valid()
      modifies this`position, parent
      ensures Valid() && parent == old(parent)
      ensures parent != null ==> parent.closed == old(parent.closed)
      ensures !PositionAccepted(value, length) ==> s == Failed(ArgumentOutOfRange)
      ensures PositionAccepted(value, length) && parent == null ==> s == Failed(NullReference)
      ensures PositionAccepted(value, length) && parent != null && !old(parent.CanSeek()) ==>
                s == Failed(if parent.closed then ObjectDisposed else NotSupported)
      ensures s == Done <==> PositionAccepted(value, length) && parent != null && old(parent.CanSeek())
      ensures s == Done ==> position == value && parent.pos == start + value && parent.data == old(parent.data)
      ensures parent != null ==> parent.pos - position == old(parent.pos) - old(position)
      ensures s.Failed? ==> position == old(position) && (parent != null ==> unchanged(parent))
    {
      if value < 0 || value >= length {
        return Failed(ArgumentOutOfRange);
      }
      if parent == null {
        return Failed(NullReference);
      }
      var current := parent.GetPosition();
      if current.Fail? {
        return Failed(current.error);
      }
      s := parent.SetPosition(current.value + (value - position));
      if s == Done {
        position := value;
      }
    }

    method Seek(offset: int, origin: SeekOrigin) returns (r: Result<int>)
      requires Valid() && IsLong(offset)
      modifies this`position, parent
      ensures Valid() && parent == old(parent)
      ensures parent != null ==> parent.closed == old(parent.closed)
      ensures !old(CanSeek()) ==> r == Fail(InvalidOperation)
      ensures old(CanSeek()) ==> r == SeekOutcome(origin, offset, old(position), length)
      ensures r.Ok? ==> position == r.value && parent.pos == start + r.value && parent.data == old(parent.data)
      ensures r.Fail? ==> position == old(position) && (parent != null ==> unchanged(parent))
    {
      if !CanSeek() {
        return Fail(InvalidOperation);
      }
      var s: Status;
      match origin {
        case Begin =>
          s := SetPosition(offset);
        case Current =>
          s := SetPosition(AddLong(position, offset));
        case End =>
          s := SetPosition(AddLong(length, offset));
        case Undefined(_) =>
          return Fail(Argument);
      }
      if s.Failed? {
        return Fail(s.error);
      }
      r := Ok(position);
    }

    /** The length of a window is fixed. */
    method SetLength(value: int) returns (s: Status)
      ensures s == Failed(NotSupported)
    {
      s := Failed(NotSupported);
    }

    method ReadByte() returns (r: Result<int>)
      requires Valid()
      modifies this`position, parent
      ensures Valid() && parent == old(parent)
      ensures parent != null ==> parent.closed == old(parent.closed) && parent.data == old(parent.data)
      ensures old(parent) == null ==> r == Fail(ObjectDisposed)
      ensures parent != null && old(position) >= length ==> r == Ok(-1)
      ensures parent != null && old(position) < length ==>
                && (r.Fail? <==> !old(parent.CanRead()))
                && (r == Ok(-1) ==> old(parent.Available()) == 0)
      ensures r.Fail? ==> r.error == ObjectDisposed || r.error == NotSupported
      ensures r.Ok? ==> -1 <= r.value < 256
      ensures position == old(position) + (if r.Ok? && r.value >= 0 then 1 else 0)
      ensures r.Ok? && r.value >= 0 ==>
                start + old(position) < |parent.data| && r.value == parent.data[start + old(position)] as int
      ensures !(r.Ok? && r.value >= 0) && parent != null ==> unchanged(parent)
    {
      var disposed := CheckDisposed();
      if disposed.Failed? {
        return Fail(disposed.error);
      }
      if position >= length {
        return Ok(-1);
      }
      r := parent.ReadByte();
      if r.Ok? && r.value >= 0 {
        position := position + 1;
      }
    }

    method Read(buffer: array<byte>, offset: int, count: int) returns (r: Result<int>)
      requires Valid()
      modifies this`position, parent, buffer
      ensures Valid() && parent == old(parent)
      ensures parent != null ==> parent.closed == old(parent.closed) && parent.data == old(parent.data)
      ensures old(parent) == null ==> r == Fail(ObjectDisposed)
      ensures parent != null && old(position) >= length ==> r == Ok(0)
      ensures parent != null && old(position) < length ==>
                var request := ReadRequest(count, length - old(position));
                && (RangeError(buffer.Length, offset, request).Some? ==>
                      r == Fail(RangeError(buffer.Length, offset, request).value))
                && (RangeError(buffer.Length, offset, request) == None && !old(parent.CanRead()) ==>
                      r == Fail(if parent.closed then ObjectDisposed else NotSupported))
                && (r.Ok? <==> RangeError(buffer.Length, offset, request) == None && old(parent.CanRead()))
                && (r.Ok? ==> r.value <= request)
                && (r.Ok? && request > 0 && old(parent.Available()) > 0 ==> r.value > 0)
                && (r.Ok? && parent.fillsReads ==>
                      r.value == if request < old(parent.Available()) then request else old(parent.Available()))
      ensures r.Ok? ==> 0 <= r.value && position == old(position) + r.value
      ensures r.Ok? && r.value > 0 ==>
                Delivered(buffer, offset, r.value, parent.data, start + old(position))
      ensures r.Ok? ==> forall i :: 0 <= i < buffer.Length && !(offset <= i < offset + r.value) ==>
                buffer[i] == old(buffer[i])
      ensures r.Fail? || r == Ok(0) ==>
                position == old(position) && buffer[..] == old(buffer[..]) && (parent != null ==> unchanged(parent))
    {
      var disposed := CheckDisposed();
      if disposed.Failed? {
        return Fail(disposed.error);
      }
      var remaining := length - position;
      if remaining <= 0 {
        return Ok(0);
      }
      var request := ReadRequest(count, remaining);
      r := parent.Read(buffer, offset, request);
      if r.Ok? && r.value > 0 {
        position := position + r.value;
        assert Delivered(buffer, offset, r.value, parent.data, start + old(position));
      }
    }

    /**
     Dispose as the source does it. The parent is taken and the field
     cleared first; the tail of the window is then skipped only under the
     capability flags of this window, which now has no parent and so reports
     none of them. The parent is closed when the window owns it and is
     otherwise left exactly where it was.
     */
    method Dispose()
      requires Valid()
      modifies this`parent, parent
      ensures Valid() && IsDisposed()
      ensures old(parent) != null && closesParent ==>
                old(parent).closed && old(parent).pos == old(parent.pos) && old(parent).data == old(parent.data)
      ensures old(parent) != null && !closesParent ==> unchanged(old(parent))
    {
      var p := parent;
      parent := null;
      if p != null {
        if closesParent {
          p.Dispose();
        } else {
          var remaining := length - position;
          if remaining > 0 {
            AdvanceParentAsWritten(p, remaining, CanSeek(), CanRead(), CanWrite());
          }
        }
      }
    }

    /**
     Dispose as its comments describe it: the capability flags are the
     parent's, so a window that does not own its parent leaves the parent at
     the window's end, by seeking, by reading the rest (stopping early only
     at the end of the parent's data) or by writing zeros.
     */
    method DisposeAdvancing()
      requires Valid()
      modifies this`parent, parent
      ensures Valid() && IsDisposed()
      ensures old(parent) != null && closesParent ==>
                old(parent).closed && old(parent).pos == old(parent.pos) && old(parent).data == old(parent.data)
      ensures old(parent) != null && !closesParent ==> old(parent).closed == old(parent.closed)
      ensures old(parent) != null && !closesParent && old(parent.CanSeek()) ==>
                old(parent).pos == start + length && old(parent).data == old(parent.data)
      ensures old(parent) != null && !closesParent && !old(parent.CanSeek()) && old(parent.CanRead()) ==>
                && old(parent).data == old(parent.data)
                && old(parent.pos) <= old(parent).pos <= start + length
                && (old(parent).pos == start + length || old(parent).Available() == 0)
      ensures old(parent) != null && !closesParent &&
              !old(parent.CanSeek()) && !old(parent.CanRead()) && old(parent.CanWrite()) ==>
                && old(parent).pos == start + length
                && old(parent).data ==
                     if old(position) < length
                     then Overwrite(old(parent.data), old(parent.pos), Zeros(length - old(position)))
                     else old(parent.data)
      ensures old(parent) != null && !closesParent &&
              !old(parent.CanSeek()) && !old(parent.CanRead()) && !old(parent.CanWrite()) ==>
                unchanged(old(parent))
    {
      var p := parent;
      parent := null;
      if p != null {
        if closesParent {
          p.Dispose();
        } else {
          var remaining := length - position;
          if remaining > 0 {
            AdvanceParent(p, remaining, p.CanSeek(), p.CanRead(), p.CanWrite());
          }
        }
      }
    }
  }

  /**
   The tail-skipping step of Dispose, as written, with the three branch
   conditions passed in: seek forward, else read and discard, else write
   zeros. The read and write loops are DrainAsWritten and PadAsWritten.
   */
  method AdvanceParentAsWritten(p: Stream, remaining: int, canSeek: bool, canRead: bool, canWrite: bool)
    requires remaining > 0
    requires canSeek ==> p.CanSeek()
    requires !canSeek && canRead ==> p.CanRead()
    requires !canSeek && !canRead && canWrite ==> p.CanWrite()
    modifies p
    ensures p.closed == old(p.closed)
    ensures !canSeek && !canRead && !canWrite ==> unchanged(p)
    ensures canSeek ==> p.data == old(p.data) && p.pos == old(p.pos) + remaining
    ensures !canSeek && canRead ==>
              && p.data == old(p.data)
              && old(p.pos) <= p.pos < old(p.pos) + remaining + BufferSize(remaining)
              && (p.pos >= old(p.pos) + remaining || p.Available() == 0)
    ensures !canSeek && !canRead && canWrite ==>
              && p.pos == old(p.pos) + WholeChunksTotal(remaining, BufferSize(remaining))
              && p.data == Overwrite(old(p.data), old(p.pos), Zeros(WholeChunksTotal(remaining, BufferSize(remaining))))
  {
    if canSeek {
      var _ := p.SeekFromCurrent(remaining);
    } else if canRead {
      DrainAsWritten(p, remaining);
    } else if canWrite {
      PadAsWritten(p, remaining);
    }
  }

  /**
   The read-and-discard loop of Dispose, as written: every read asks for a
   whole buffer, however little of the window is left, so it can consume up
   to a buffer's worth of bytes beyond the window.
   */
  method DrainAsWritten(p: Stream, tail: int)
    requires tail > 0 && p.CanRead()
    modifies p
    ensures p.data == old(p.data) && p.closed == old(p.closed)
    ensures old(p.pos) <= p.pos < old(p.pos) + tail + BufferSize(tail)
    ensures p.pos >= old(p.pos) + tail || p.Available() == 0
    ensures p.fillsReads && old(p.Available()) >= WholeChunksTotal(tail, BufferSize(tail)) ==>
              p.pos == old(p.pos) + WholeChunksTotal(tail, BufferSize(tail))
  {
    var remaining := tail;
    var buffer := new byte[BufferSize(remaining)];
    ghost var total, pos0, avail0 := remaining, p.pos, p.Available();
    ghost var chunk := buffer.Length;
    var more := true;
    while remaining > 0 && more
      invariant p.data == old(p.data) && p.closed == old(p.closed) && p.CanRead()
      invariant p.pos - pos0 == total - remaining
      invariant -chunk < remaining <= total
      invariant !more ==> p.Available() == 0
      invariant p.fillsReads && avail0 >= WholeChunksTotal(total, chunk) ==>
                  more && p.pos - pos0 + WholeChunksTotal(remaining, chunk) == WholeChunksTotal(total, chunk)
      decreases remaining, more
    {
      var r := p.Read(buffer, 0, buffer.Length);
      var bytes := r.value;
      if bytes > 0 {
        remaining := remaining - bytes;
      } else {
        more := false;
      }
    }
  }

  /**
   The zero-padding loop of Dispose, as written: it writes whole buffers
   until the count goes to zero or below, so it writes a whole number of
   buffers and can pass the end of the window.
   */
  method PadAsWritten(p: Stream, tail: int)
    requires tail > 0 && p.CanWrite()
    modifies p
    ensures p.closed == old(p.closed)
    ensures p.pos == old(p.pos) + WholeChunksTotal(tail, BufferSize(tail))
    ensures p.data == Overwrite(old(p.data), old(p.pos), Zeros(WholeChunksTotal(tail, BufferSize(tail))))
  {
    var remaining := tail;
    var buffer := new byte[BufferSize(remaining)](_ => 0);
    ghost var total, pos0, data0 := remaining, p.pos, p.data;
    ghost var written: nat := 0;
    while remaining > 0
      invariant p.closed == old(p.closed) && p.CanWrite()
      invariant buffer[..] == Zeros(buffer.Length)
      invariant written + WholeChunksTotal(remaining, buffer.Length) == WholeChunksTotal(total, buffer.Length)
      invariant p.pos == pos0 + written
      invariant p.data == if written == 0 then data0 else Overwrite(data0, pos0, Zeros(written))
    {
      var _ := p.Write(buffer, 0, buffer.Length);
      if written > 0 {
        OverwriteTwice(data0, pos0, Zeros(written), Zeros(buffer.Length));
        assert Zeros(written) + Zeros(buffer.Length) == Zeros(written + buffer.Length);
      }
      remaining := remaining - buffer.Length;
      written := written + buffer.Length;
    }
  }

  /** The tail-skipping step with each loop asking for no more than is left. */
  method AdvanceParent(p: Stream, remaining: int, canSeek: bool, canRead: bool, canWrite: bool)
    requires remaining > 0
    requires canSeek ==> p.CanSeek()
    requires !canSeek && canRead ==> p.CanRead()
    requires !canSeek && !canRead && canWrite ==> p.CanWrite()
    modifies p
    ensures p.closed == old(p.closed)
    ensures !canSeek && !canRead && !canWrite ==> unchanged(p)
    ensures canSeek ==> p.data == old(p.data) && p.pos == old(p.pos) + remaining
    ensures !canSeek && canRead ==>
              && p.data == old(p.data)
              && old(p.pos) <= p.pos <= old(p.pos) + remaining
              && (p.pos == old(p.pos) + remaining || p.Available() == 0)
    ensures !canSeek && !canRead && canWrite ==>
              p.pos == old(p.pos) + remaining && p.data == Overwrite(old(p.data), old(p.pos), Zeros(remaining))
  {
    if canSeek {
      var _ := p.SeekFromCurrent(remaining);
    } else if canRead {
      DrainWindowTail(p, remaining);
    } else if canWrite {
      PadWindowTail(p, remaining);
    }
  }

  /** Reads and discards exactly the `remaining` bytes, or up to the end of the parent's data. */
  method DrainWindowTail(p: Stream, tail: int)
    requires tail > 0 && p.CanRead()
    modifies p
    ensures p.data == old(p.data) && p.closed == old(p.closed)
    ensures old(p.pos) <= p.pos <= old(p.pos) + tail
    ensures p.pos == old(p.pos) + tail || p.Available() == 0
    ensures old(p.Available()) >= tail ==> p.pos == old(p.pos) + tail
  {
    var remaining := tail;
    var buffer := new byte[BufferSize(remaining)];
    ghost var total, pos0 := remaining, p.pos;
    var more := true;
    while remaining > 0 && more
      invariant p.data == old(p.data) && p.closed == old(p.closed) && p.CanRead()
      invariant p.pos - pos0 == total - remaining
      invariant 0 <= remaining <= total
      invariant !more ==> p.Available() == 0
      decreases remaining, more
    {
      var request := if remaining < buffer.Length then remaining else buffer.Length;
      var r := p.Read(buffer, 0, request);
      var bytes := r.value;
      if bytes > 0 {
        remaining := remaining - bytes;
      } else {
        more := false;
      }
    }
  }

  /** Writes exactly `remaining` zero bytes. */
  method PadWindowTail(p: Stream, tail: int)
    requires tail > 0 && p.CanWrite()
    modifies p
    ensures p.closed == old(p.closed)
    ensures p.pos == old(p.pos) + tail
    ensures p.data == Overwrite(old(p.data), old(p.pos), Zeros(tail))
  {
    var remaining := tail;
    var buffer := new byte[BufferSize(remaining)](_ => 0);
    ghost var total, pos0, data0 := remaining, p.pos, p.data;
    ghost var written: nat := 0;
    while remaining > 0
      invariant p.closed == old(p.closed) && p.CanWrite()
      invariant buffer[..] == Zeros(buffer.Length)
      invariant remaining >= 0 && written + remaining == total
      invariant p.pos == pos0 + written
      invariant p.data == if written == 0 then data0 else Overwrite(data0, pos0, Zeros(written))
    {
      var n := if remaining < buffer.Length then remaining else buffer.Length;
      var _ := p.Write(buffer, 0, n);
      assert buffer[0..n] == Zeros(n);
      if written > 0 {
        OverwriteTwice(data0, pos0, Zeros(written), Zeros(n));
        assert Zeros(written) + Zeros(n) == Zeros(written + n);
      }
      remaining := remaining - n;
      written := written + n;
    }
  }
}
