/**
 The arithmetic of a SubStream window, apart from any stream: how a read or
 write request is cut to the window, where Seek aims with C#'s wrapping
 `long` arithmetic, and how many bytes the chunked loops of Dispose move.
 */
module WindowMath {
  import opened IoStream

  const MinLong: int := -0x8000_0000_0000_0000
  const MaxLong: int := 0x7FFF_FFFF_FFFF_FFFF
  const LongRange: int := 0x1_0000_0000_0000_0000

  /** DEFAULT_SIZE: the largest scratch buffer Dispose allocates. */
  const DefaultSize: int := 4096

  predicate IsLong(x: int) { MinLong <= x <= MaxLong }

  /** C# `long` addition in an unchecked context: the sum wrapped into 64 bits. */
  function AddLong(a: int, b: int): (r: int)
    requires IsLong(a) && IsLong(b)
    ensures IsLong(r)
    ensures IsLong(a + b) ==> r == a + b
    ensures !IsLong(a + b) ==> r == a + b - LongRange || r == a + b + LongRange
  {
    var s := a + b;
    if s > MaxLong then s - LongRange else if s < MinLong then s + LongRange else s
  }

  /** The count Read hands to the parent once the window has `remaining` > 0 bytes left. */
  function ReadRequest(count: int, remaining: int): (r: int)
    requires remaining > 0
    ensures r <= remaining && r <= count
    ensures r == count || r == remaining
  {
    if count > remaining then remaining else count
  }

  /** The count Write hands to the parent, or None when it throws because the
      write would cross the end of the window. */
  function WriteCount(count: int, remaining: int, throwErrorOnEof: bool): (r: Option<int>)
    ensures r == None <==> count > remaining && throwErrorOnEof
    ensures r.Some? ==> r.value <= remaining
    ensures r.Some? && count <= remaining ==> r.value == count
    ensures r.Some? && count > remaining ==> r.value == remaining
  {
    if count > remaining then
      if throwErrorOnEof then None else Some(remaining)
    else Some(count)
  }

  /** Whether the Position setter accepts `value`: a strict upper bound, so the
      end of the window itself is refused. */
  predicate PositionAccepted(value: int, length: int)
  {
    0 <= value < length
  }

  /** The position Seek hands to the Position setter, computed as the source
      computes it (wrapping on overflow); None for an origin that is none of
      Begin, Current and End. */
  function SeekTarget(origin: SeekOrigin, offset: int, position: int, length: int): (t: Option<int>)
    requires IsLong(offset) && 0 <= position <= length <= MaxLong
  {
    match origin
    case Begin => Some(offset)
    case Current => Some(AddLong(position, offset))
    case End => Some(AddLong(length, offset))
    case Undefined(_) => None
  }

  /** What Seek on a seekable window returns: the new position, or the error. */
  function SeekOutcome(origin: SeekOrigin, offset: int, position: int, length: int): (r: Result<int>)
    requires IsLong(offset) && 0 <= position <= length <= MaxLong
    ensures r.Ok? ==> PositionAccepted(r.value, length)
    ensures origin.Undefined? ==> r == Fail(Argument)
    ensures r.Fail? ==> r.error == Argument || r.error == ArgumentOutOfRange
  {
    match SeekTarget(origin, offset, position, length)
    case None => Fail(Argument)
    case Some(t) => if PositionAccepted(t, length) then Ok(t) else Fail(ArgumentOutOfRange)
  }

  /** The target of Seek in exact arithmetic: the offset from the start, from
      the current position or from the end of the window. */
  function ExactSeekTarget(origin: SeekOrigin, offset: int, position: int, length: int): (t: Option<int>)
  {
    match origin
    case Begin => Some(offset)
    case Current => Some(position + offset)
    case End => Some(length + offset)
    case Undefined(_) => None
  }

  /** Wrap-around never changes what Seek does: a wrapped target is out of the
      window exactly when the exact one is, and equal to it when inside. */
  lemma SeekOutcomeExact(origin: SeekOrigin, offset: int, position: int, length: int)
    requires IsLong(offset) && 0 <= position <= length <= MaxLong
    ensures SeekOutcome(origin, offset, position, length).Ok? <==>
              ExactSeekTarget(origin, offset, position, length).Some? &&
              PositionAccepted(ExactSeekTarget(origin, offset, position, length).value, length)
    ensures SeekOutcome(origin, offset, position, length).Ok? ==>
              SeekOutcome(origin, offset, position, length).value ==
              ExactSeekTarget(origin, offset, position, length).value
  {
  }

  /** Seek(0, End) aims at the end of the window, which the Position setter
      refuses: it fails on every window. */
  lemma SeekToEndFails(position: int, length: int)
    requires 0 <= position <= length <= MaxLong
    ensures SeekOutcome(End, 0, position, length) == Fail(ArgumentOutOfRange)
  {
  }

  /** From the end, exactly the offsets -length .. -1 are accepted. */
  lemma SeekFromEndAccepts(offset: int, position: int, length: int)
    requires IsLong(offset) && 0 <= position <= length <= MaxLong
    ensures SeekOutcome(End, offset, position, length).Ok? <==> -length <= offset < 0
    ensures SeekOutcome(End, offset, position, length).Ok? ==>
              SeekOutcome(End, offset, position, length).value == length + offset
  {
  }

  /** A window of length zero cannot be positioned anywhere. */
  lemma EmptyWindowRefusesSeek(origin: SeekOrigin, offset: int)
    requires IsLong(offset)
    ensures SeekOutcome(origin, offset, 0, 0).Fail?
  {
  }

  /** The size of the scratch buffer Dispose allocates for `remaining` bytes. */
  function BufferSize(remaining: int): (r: int)
    requires remaining > 0
    ensures 0 < r <= remaining && r <= DefaultSize
    ensures r == remaining || r == DefaultSize
  {
    if remaining < DefaultSize then remaining else DefaultSize
  }

  /** The bytes moved by a loop that, while `remaining` > 0, moves a whole
      `chunk` and subtracts it from `remaining`. */
  function WholeChunksTotal(remaining: int, chunk: int): (total: nat)
    requires chunk > 0
    decreases remaining
  {
    if remaining <= 0 then 0 else chunk + WholeChunksTotal(remaining - chunk, chunk)
  }

  /** Whole chunks cover what remains and overshoot it by less than a chunk. */
  lemma {:induction false} WholeChunksCover(remaining: int, chunk: int)
    requires chunk > 0 && remaining > 0
    ensures remaining <= WholeChunksTotal(remaining, chunk) < remaining + chunk
    decreases remaining
  {
    if remaining > chunk {
      WholeChunksCover(remaining - chunk, chunk);
    }
  }

  /** With buffers of DEFAULT_SIZE, the loop moves exactly `remaining` bytes
      only when `remaining` is a multiple of DEFAULT_SIZE. */
  lemma {:induction false} WholeDefaultChunksExact(remaining: int)
    requires remaining > 0
    ensures WholeChunksTotal(remaining, DefaultSize) == remaining <==> remaining % DefaultSize == 0
    decreases remaining
  {
    if remaining > DefaultSize {
      WholeDefaultChunksExact(remaining - DefaultSize);
      WholeChunksCover(remaining - DefaultSize, DefaultSize);
    }
  }

  /** The zero-padding loop of Dispose, as written, emits whole buffers of
      BufferSize(remaining) bytes: at least `remaining` in all, and exactly
      `remaining` only when it fits one buffer or is a multiple of DEFAULT_SIZE. */
  lemma PaddingAsWrittenTotal(remaining: int)
    requires remaining > 0
    ensures remaining <= WholeChunksTotal(remaining, BufferSize(remaining)) < remaining + DefaultSize
    ensures WholeChunksTotal(remaining, BufferSize(remaining)) == remaining <==>
              remaining <= DefaultSize || remaining % DefaultSize == 0
  {
    WholeChunksCover(remaining, BufferSize(remaining));
    if remaining > DefaultSize {
      WholeDefaultChunksExact(remaining);
    } else {
      assert WholeChunksTotal(remaining - remaining, remaining) == 0;
    }
  }

  /** One byte more than a buffer: either chunked loop of Dispose moves two whole buffers. */
  lemma ChunkTotalAt4097()
    ensures BufferSize(4097) == 4096
    ensures WholeChunksTotal(4097, BufferSize(4097)) == 8192
  {
  }
}
