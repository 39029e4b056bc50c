/**
 Uses of SubStream that only its contracts can justify: chaining windows
 over one parent, reading back what was written, disposing twice, and the
 behaviour after disposal; and concrete inputs, proved, for the Dispose code as
 written beside the behaviour its comments describe.
 */
module Scenarios {
  import opened IoStream
  import opened WindowMath
  import opened SubStreams

  /** Two windows back to back over one seekable parent: once the first is
      disposed, after reading any part of it, the second starts at its end. */
  method ChainedWindows(p: Stream, a: int, b: int, consumed: int) returns (second: SubStream)
    requires p.CanSeek() && p.pos == 0
    requires 0 <= consumed <= a && 0 <= b && a + b <= |p.data| <= MaxLong
    modifies p
    ensures p.data == old(p.data)
    ensures second.Valid() && second.parent == p
    ensures second.start == a && second.position == 0 && second.length == b
  {
    var r1 := SubStream.Create(p, a, false);
    var first := r1.value;
    var buffer := new byte[consumed];
    var _ := first.Read(buffer, 0, consumed);
    first.DisposeAdvancing();
    var r2 := SubStream.Create(p, b, false);
    second := r2.value;
  }

  /** Two records written back to back over a write-only parent, each through
      a window that is filled and then disposed: disposing a full window adds
      no padding, so the parent holds the two records one after the other. */
  method RecordsOverWriteOnlyParent(first: array<byte>, second: array<byte>) returns (p: Stream)
    requires first.Length <= MaxLong && second.Length <= MaxLong
    ensures p.data == first[..] + second[..]
  {
    p := new Stream([], false, true, false, true);
    var r1 := SubStream.Create(p, first.Length, false);
    var w1 := r1.value;
    var s1 := w1.Write(first, 0, first.Length);
    assert s1 == Done;
    assert first[0..first.Length] == first[..];
    OverwriteAtEnd([], first[..]);
    w1.DisposeAdvancing();
    var r2 := SubStream.Create(p, second.Length, false);
    var w2 := r2.value;
    var s2 := w2.Write(second, 0, second.Length);
    assert s2 == Done;
    assert second[0..second.Length] == second[..];
    OverwriteAtEnd(first[..], second[..]);
    w2.DisposeAdvancing();
  }

  /** Disposing a window that does not own its parent, before its end, leaves
      the parent short of the window's end. */
  method DisposeStopsShort(w: SubStream)
    requires w.Valid() && !w.IsDisposed() && !w.closesParent && w.position < w.length
    modifies w, w.parent
    ensures old(w.parent).pos < w.start + w.length
  {
    w.Dispose();
  }

  /** A window of four bytes over eight, disposed untouched: its end is at 4
      but the parent is still at 0. */
  method UntouchedWindowLeavesParentBehind() returns (windowEnd: int, parentPos: int)
    ensures windowEnd == 4 && parentPos == 0
  {
    var p := new Stream(Zeros(8), true, false, true, true);
    var r := SubStream.Create(p, 4, false);
    var w := r.value;
    w.Dispose();
    windowEnd, parentPos := w.length, p.pos;
  }

  /** The same window under DisposeAdvancing: the parent is moved to 4. */
  method UntouchedWindowAdvancesParent() returns (windowEnd: int, parentPos: int)
    ensures windowEnd == 4 && parentPos == 4
  {
    var p := new Stream(Zeros(8), true, false, true, true);
    var r := SubStream.Create(p, 4, false);
    var w := r.value;
    w.DisposeAdvancing();
    windowEnd, parentPos := w.length, p.pos;
  }

  /** Draining 4097 bytes from an 8192-byte in-memory stream as written
      consumes all 8192. */
  method DrainOvershoots() returns (requested: int, consumed: int)
    ensures requested == 4097 && consumed == 8192
  {
    var p := new Stream(Zeros(8192), true, false, false, true);
    ChunkTotalAt4097();
    DrainAsWritten(p, 4097);
    requested, consumed := 4097, p.pos;
  }

  /** DrainWindowTail consumes exactly the 4097 bytes. */
  method DrainExact() returns (requested: int, consumed: int)
    ensures requested == 4097 && consumed == 4097
  {
    var p := new Stream(Zeros(8192), true, false, false, true);
    DrainWindowTail(p, 4097);
    requested, consumed := 4097, p.pos;
  }

  /** Padding 4097 bytes as written emits 8192 zero bytes. */
  method PadOvershoots() returns (requested: int, written: int)
    ensures requested == 4097 && written == 8192
  {
    var p := new Stream([], false, true, false, true);
    ChunkTotalAt4097();
    PadAsWritten(p, 4097);
    requested, written := 4097, |p.data|;
  }

  /** PadWindowTail emits exactly the 4097 zero bytes. */
  method PadExact() returns (requested: int, written: int)
    ensures requested == 4097 && written == 4097
  {
    var p := new Stream([], false, true, false, true);
    PadWindowTail(p, 4097);
    requested, written := 4097, |p.data|;
  }

  /** Writing N bytes into a window over a random-access parent, seeking back
      to the start and reading N bytes returns the N bytes written. */
  method WriteThenReadBack(p: Stream, bytes: array<byte>, length: int) returns (back: array<byte>)
    requires p.CanRead() && p.CanWrite() && p.CanSeek() && p.fillsReads
    requires 0 < length <= MaxLong && bytes.Length <= length
    modifies p
    ensures back[..] == bytes[..]
  {
    var r := SubStream.Create(p, length, false);
    var w := r.value;
    var written := w.Write(bytes, 0, bytes.Length);
    assert written == Done;
    ghost var data := p.data;
    assert bytes[0..bytes.Length] == bytes[..];
    OverwriteReadBack(old(p.data), old(p.pos), bytes[..]);
    var sought := w.Seek(0, Begin);
    assert sought == Ok(0);
    assert p.pos == old(p.pos) && p.Available() >= bytes.Length;
    back := new byte[bytes.Length];
    assert w.parent == p && p.CanRead() && w.position == 0 < w.length;
    assert ReadRequest(bytes.Length, w.length - w.position) == bytes.Length;
    assert RangeError(back.Length, 0, bytes.Length) == None;
    var got := w.Read(back, 0, bytes.Length);
    assert got == Ok(bytes.Length);
    forall i | 0 <= i < bytes.Length ensures back[i] == bytes[i] {
      assert data[old(p.pos) + i] == bytes[i];
    }
  }

  /** A second Dispose changes nothing: the parent is closed at most once and
      its data and cursor are those the first Dispose left. */
  method DisposeTwice(w: SubStream)
    requires w.Valid() && !w.IsDisposed()
    modifies w, w.parent
    ensures w.IsDisposed()
    ensures old(w.parent).closed == (old(w.parent.closed) || w.closesParent)
    ensures old(w.parent).data == old(w.parent.data) && old(w.parent).pos == old(w.parent.pos)
  {
    w.Dispose();
    w.Dispose();
  }

  /** What each operation does on a disposed window: reads throw
      ObjectDisposed, the capabilities are all false, Seek throws
      InvalidOperation, and Write, Flush and the Position setter go through
      the null parent. */
  method AfterDispose(w: SubStream, buffer: array<byte>)
    returns (read: Result<int>, readByte: Result<int>, write: Status, flush: Status, setPosition: Status, seek: Result<int>)
    requires w.Valid() && !w.IsDisposed()
    modifies w, w.parent, buffer
    ensures !w.CanRead() && !w.CanWrite() && !w.CanSeek()
    ensures read == Fail(ObjectDisposed) && readByte == Fail(ObjectDisposed)
    ensures write == Failed(NullReference) && flush == Failed(NullReference)
    ensures setPosition == if w.length > 0 then Failed(NullReference) else Failed(ArgumentOutOfRange)
    ensures seek == Fail(InvalidOperation)
  {
    w.Dispose();
    read := w.Read(buffer, 0, buffer.Length);
    readByte := w.ReadByte();
    write := w.Write(buffer, 0, buffer.Length);
    flush := w.Flush();
    setPosition := w.SetPosition(0);
    seek := w.Seek(0, Begin);
  }
}
