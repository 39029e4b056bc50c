# SubStream: a bounded window over a parent stream

This project models `SubStream`, the stream of the Stormancer file-storage plugin that lays a fixed-length window over a parent stream. The window starts at the parent's position when the window is created, and the plugin uses it to read length-prefixed messages. The window has its own cursor `Position` in `0 .. Length`, and it moves the parent's cursor by the same amount on every read, write and seek. Reads are cut off at the end of the window. A write that does not fit either throws or is cut to fit, depending on `ThrowErrorOnEof`. The `Position` setter refuses any value outside `0 .. Length - 1`. Disposing the window either closes the parent, or, by its comments, moves the parent past the rest of the window.

Files:

- `io_stream.dfy`, module `IoStream`: bytes, the exception kinds as `StreamError`, `Result`/`Status`, `SeekOrigin`, and `Stream`, the parent. `Stream` is a class holding a byte sequence, a cursor, a closed flag and the read, write and seek capabilities. Its `Read` may return any count from 0 up to the count asked for, but never 0 while bytes remain and some were asked for. When `fillsReads` is set, `Read` returns every byte available, as an in-memory stream does. Writing past the end extends the data with zeros, which `Overwrite` describes.
- `window_math.dfy`, module `WindowMath`: the window's arithmetic as functions. This covers how `Read` and `Write` cut a count, the seek target in C#'s wrapping `long` arithmetic, and how many bytes the chunked loops of `Dispose` move.
- `substream.dfy`, module `SubStreams`: class `SubStream`, with the fields `parent`, `length`, `closesParent`, `position` and `throwErrorOnEof`. A ghost `start` records where the window begins in the parent. `Valid()` holds `0 <= position <= length`, and while the window is open it holds `parent.pos == start + position`, the lock-step of the two cursors. The module also has the tail-skipping step of `Dispose` and its two loops, each both as written and corrected.
- `scenarios.dfy`, module `Scenarios`: uses proved from the contracts alone. These are two windows chained over one parent, write then seek then read back, disposing twice, every operation after disposal, and concrete inputs, proved, that show each finding below.

Where the code does something other than its comments or names suggest, the model follows the code:
- `Seek` on a window whose parent cannot seek throws `InvalidOperation`, not `NotSupported`.
- After disposal only `Read` and `ReadByte` throw `ObjectDisposed`. `Write` and `Flush`, and the `Position` setter for a value in `0 .. Length - 1`, go through the null parent and fail with `NullReference`; the setter still refuses any other value with `ArgumentOutOfRange` first, so on a zero-length window every value gets that. `Seek` throws `InvalidOperation`.
- `Dispose` does not move the parent forward; see Findings.
- `Position` can equal `Length` after reads and writes, even though the setter refuses that value.
- The constructor that takes "the rest of the parent" reads `parent.Length` before any null check, so a null parent gives `NullReference`, not `ArgumentNull`.

## Model

| member | source | states |
|---|---|---|
| `SubStreams.SubStream.Create` | Stormancer.Plugins.FileStorage.Server/Substream.cs:32-46 | A null parent gives ArgumentNull and a negative length gives ArgumentOutOfRange. Otherwise the result is a fresh valid window over that parent with position 0, the given length, `ThrowErrorOnEof` set, and its start at the parent's cursor. |
| `SubStreams.SubStream.CreateForRest` | Stormancer.Plugins.FileStorage.Server/Substream.cs:26-30 | The length is parent Length minus parent Position. A null parent gives NullReference. A parent that cannot report Length/Position gives its error. A parent positioned past its end gives ArgumentOutOfRange. |
| `SubStreams.SubStream.CheckDisposed` | Stormancer.Plugins.FileStorage.Server/Substream.cs:48-53 | Fails with ObjectDisposed exactly when the parent has been cleared. |
| `SubStreams.SubStream.CanRead` | Stormancer.Plugins.FileStorage.Server/Substream.cs:120 | False once disposed, otherwise the parent's CanRead. |
| `SubStreams.SubStream.CanWrite` | Stormancer.Plugins.FileStorage.Server/Substream.cs:122 | False once disposed, otherwise the parent's CanWrite. |
| `SubStreams.SubStream.CanSeek` | Stormancer.Plugins.FileStorage.Server/Substream.cs:124 | False once disposed, otherwise the parent's CanSeek. |
| `SubStreams.SubStream.Flush` | Stormancer.Plugins.FileStorage.Server/Substream.cs:126-129 | Passes Flush to the parent. Once disposed it fails with NullReference. |
| `WindowMath.WriteCount` | Stormancer.Plugins.FileStorage.Server/Substream.cs:137-147 | A write is refused exactly when it does not fit and `ThrowErrorOnEof` is set. Otherwise the count written is the count asked for when it fits, and what is left of the window when it does not. It never exceeds what is left. |
| `SubStreams.SubStream.Write` | Stormancer.Plugins.FileStorage.Server/Substream.cs:131-151 | NullReference once disposed; NotSupported on a parent that cannot write; InvalidOperation when the write does not fit and `ThrowErrorOnEof` is set; otherwise the parent's argument errors. Every failure leaves position and parent unchanged. On success the parent holds the bytes written at `start + position`, and position grows by the count written and stays within the length. |
| `SubStreams.SubStream.SetPosition` | Stormancer.Plugins.FileStorage.Server/Substream.cs:172-180 | Accepts only `0 <= value < Length`; otherwise ArgumentOutOfRange. Once disposed it fails with NullReference. It shifts the parent's cursor by the same amount, so parent position minus window position is constant. On failure nothing changes. |
| `WindowMath.AddLong` | Stormancer.Plugins.FileStorage.Server/Substream.cs:204-210 | C# unchecked `long` addition: always a `long`, equal to the exact sum whenever that fits, and off by exactly 2^64 otherwise. |
| `WindowMath.SeekOutcome` | Stormancer.Plugins.FileStorage.Server/Substream.cs:193-218 | What Seek returns on a seekable window: a position accepted by the setter, ArgumentOutOfRange, or Argument for an undefined origin. |
| `WindowMath.SeekOutcomeExact` | Stormancer.Plugins.FileStorage.Server/Substream.cs:193-218 | Wrap-around never changes Seek. Seek succeeds exactly when the exact target (offset, position + offset, or length + offset) lies in `0 .. Length - 1`, and it then returns that target. |
| `WindowMath.SeekToEndFails` | Stormancer.Plugins.FileStorage.Server/Substream.cs:175 | `Seek(0, End)` aims at Length, which the setter refuses, so it fails with ArgumentOutOfRange on every window. |
| `WindowMath.SeekFromEndAccepts` | Stormancer.Plugins.FileStorage.Server/Substream.cs:208-210 | From End, exactly the offsets `-Length .. -1` are accepted, and they land at `Length + offset`. |
| `WindowMath.EmptyWindowRefusesSeek` | Stormancer.Plugins.FileStorage.Server/Substream.cs:175 | A zero-length window cannot be positioned by any seek. |
| `SubStreams.SubStream.Seek` | Stormancer.Plugins.FileStorage.Server/Substream.cs:186-224 | InvalidOperation when the window cannot seek, which includes every call after disposal. Otherwise the result is `SeekOutcome`. On success position is the returned value and the parent stands at `start + position`. On failure nothing changes. |
| `SubStreams.SubStream.SetLength` | Stormancer.Plugins.FileStorage.Server/Substream.cs:228-233 | Always fails with NotSupported. The length itself is a `const`. |
| `SubStreams.SubStream.ReadByte` | Stormancer.Plugins.FileStorage.Server/Substream.cs:237-257 | ObjectDisposed once disposed. At the window's end it returns -1 and leaves the parent alone. Otherwise it returns the parent's byte at `start + position`, or -1 at the parent's end. Position grows by exactly 1 only when a byte is returned. |
| `WindowMath.ReadRequest` | Stormancer.Plugins.FileStorage.Server/Substream.cs:266-270 | The count passed to the parent never exceeds what is left of the window. It equals the count asked for, or what is left. |
| `SubStreams.SubStream.Read` | Stormancer.Plugins.FileStorage.Server/Substream.cs:261-285 | ObjectDisposed once disposed. At the window's end it returns 0 without calling the parent, whatever the arguments. Otherwise it reads at most the cut-down count, delivers the parent's bytes from `start + position` into the buffer, and advances position by exactly the count returned, so position never passes the length. |
| `SubStreams.SubStream.Dispose` | Stormancer.Plugins.FileStorage.Server/Substream.cs:55-118 | The window is disposed afterwards. An owned parent is closed with its data and cursor kept. A parent the window does not own is left entirely unchanged, because the branches test the capabilities of the already cleared field. |
| `SubStreams.AdvanceParentAsWritten` | Stormancer.Plugins.FileStorage.Server/Substream.cs:74-112 | The tail-skipping branches under given capability flags. With no flag the parent is unchanged. A seek moves it by the rest of the window. A drain or a pad follows the loops below. |
| `SubStreams.DrainAsWritten` | Stormancer.Plugins.FileStorage.Server/Substream.cs:90-96 | The read loop keeps the data. It stops once the rest is consumed or the parent is at its end, and it may overshoot by less than a buffer. Over an in-memory parent that holds at least `WholeChunksTotal(remaining, BufferSize(remaining))` bytes past its cursor, it consumes exactly that many: whole buffers. |
| `SubStreams.PadAsWritten` | Stormancer.Plugins.FileStorage.Server/Substream.cs:103-109 | The write loop emits exactly `WholeChunksTotal(remaining, BufferSize(remaining))` zero bytes at the parent's cursor. |
| `WindowMath.BufferSize` | Stormancer.Plugins.FileStorage.Server/Substream.cs:90 | The scratch buffer is `remaining` capped at 4096, and it is never empty. |
| `WindowMath.WholeChunksCover` | Stormancer.Plugins.FileStorage.Server/Substream.cs:105-109 | Whole chunks cover what remains and overshoot it by less than one chunk. |
| `WindowMath.WholeDefaultChunksExact` | Stormancer.Plugins.FileStorage.Server/Substream.cs:105-109 | With 4096-byte buffers the loop moves exactly `remaining` bytes if and only if `remaining` is a multiple of 4096. |
| `WindowMath.PaddingAsWrittenTotal` | Stormancer.Plugins.FileStorage.Server/Substream.cs:103-109 | The pad loop writes at least `remaining` bytes and fewer than `remaining + 4096`. It writes exactly `remaining` if and only if `remaining` fits one buffer or is a multiple of 4096. |
| `WindowMath.ChunkTotalAt4097` | Stormancer.Plugins.FileStorage.Server/Substream.cs:90-109 | For 4097 remaining bytes the buffer is 4096, and either loop, reading or padding with whole buffers, moves 8192 bytes. The reading loop moves that many only when the parent holds 8192 bytes or more past its cursor; with less it stops at the end of the data. |
| `SubStreams.SubStream.DisposeAdvancing` | Stormancer.Plugins.FileStorage.Server/Substream.cs:64-112 | Dispose with the parent's own capabilities. An owned parent is closed. Otherwise the parent stays open and ends at the window's end `start + length`, by a seek or by zero padding, or the rest is drained up to that end or up to the end of the parent's data. Zero padding writes exactly the bytes left in the window, and a full window leaves the parent's data as it was. A parent that can neither seek, read nor write is left unchanged. |
| `Scenarios.RecordsOverWriteOnlyParent` | Stormancer.Plugins.FileStorage.Server/Substream.cs:64-112 | Two length-prefixed records over a write-only parent: each window is written in full and disposed, and the parent then holds the two records one after the other. |
| `SubStreams.AdvanceParent` | Stormancer.Plugins.FileStorage.Server/Substream.cs:74-112 | The tail-skipping branches with loops that never go past the window: seek and pad move the parent by exactly the rest, and drain moves it by at most that much. |
| `SubStreams.DrainWindowTail` | Stormancer.Plugins.FileStorage.Server/Substream.cs:90-96 | Consumes at most `remaining` bytes. It consumes exactly `remaining` unless the parent's data ends first, and always does when enough data is available. |
| `SubStreams.PadWindowTail` | Stormancer.Plugins.FileStorage.Server/Substream.cs:103-109 | Writes exactly `remaining` zero bytes at the parent's cursor. |
| `Scenarios.ChainedWindows` | Stormancer.Plugins.FileStorage.Server/Substream.cs:72-84 | Over a seekable parent, a first window of length a is read in part and then disposed with the parent's capabilities. A second window then starts exactly at a, and the parent's data is unchanged. |
| `Scenarios.DisposeStopsShort` | Stormancer.Plugins.FileStorage.Server/Substream.cs:59-60 | Disposing, as written, a non-owning window that has not reached its end leaves the parent before the window's end. |
| `Scenarios.UntouchedWindowLeavesParentBehind` | Stormancer.Plugins.FileStorage.Server/Substream.cs:59-79 | A 4-byte window over an 8-byte seekable stream, disposed as written, leaves the parent at 0 instead of 4. |
| `Scenarios.UntouchedWindowAdvancesParent` | Stormancer.Plugins.FileStorage.Server/Substream.cs:79-84 | The same window under DisposeAdvancing leaves the parent at 4. |
| `Scenarios.DrainOvershoots` | Stormancer.Plugins.FileStorage.Server/Substream.cs:90-96 | Draining 4097 bytes, as written, from an 8192-byte in-memory stream consumes all 8192 bytes. |
| `Scenarios.DrainExact` | Stormancer.Plugins.FileStorage.Server/Substream.cs:90-96 | The corrected drain consumes exactly 4097 bytes. |
| `Scenarios.PadOvershoots` | Stormancer.Plugins.FileStorage.Server/Substream.cs:103-109 | Padding 4097 bytes as written writes 8192 zero bytes. |
| `Scenarios.PadExact` | Stormancer.Plugins.FileStorage.Server/Substream.cs:103-109 | The corrected pad writes exactly 4097 zero bytes. |
| `Scenarios.WriteThenReadBack` | Stormancer.Plugins.FileStorage.Server/Substream.cs:131-285 | Over a random-access parent, writing N <= Length bytes, seeking to the start and reading N bytes gives back the N bytes written. |
| `Scenarios.DisposeTwice` | Stormancer.Plugins.FileStorage.Server/Substream.cs:59-61 | A second Dispose changes nothing. The parent is closed only if the window owns it, and its data and cursor are as before. |
| `Scenarios.AfterDispose` | Stormancer.Plugins.FileStorage.Server/Substream.cs:120-264 | After Dispose the three capabilities are false. Read and ReadByte throw ObjectDisposed. Write and Flush, and the Position setter for a value in `0 .. Length - 1`, go through the null parent and fail with NullReference; the setter gives ArgumentOutOfRange for any other value, and so for every value on a zero-length window. Seek throws InvalidOperation. |

## Left out

- The parent `System.IO.Stream` is replaced by `IoStream.Stream`, one in-memory stream model with loosely specified reads. Capacity limits, other seek origins of the parent, timeouts and asynchronous I/O are not modelled.
- `base.Dispose(disposing)` and the finalizer path (`disposing == false`) are left out. `Dispose` models `Dispose(true)`, which the using pattern calls.
- Buffers are non-null arrays, so the parent's ArgumentNullException for a null buffer is not modelled.
- `Read` and `Write` take `count` as an unbounded integer. The two casts `(int)(Length - Position)` are taken only when the value is below an `int` count, so they are exact.
- The `Length` and `Position` getters are the fields `length` (a `const`) and `position`. The `ThrowErrorOnEof` property is the public field `throwErrorOnEof`.
- Exceptions are told apart by kind only. Their messages and parameter names are not modelled.
- `Valid()` bounds the window's own cursor by `MaxLong` but not the parent's cursor `start + position`. The `long` sum the `Position` setter makes on the parent's cursor (`Substream.cs:177`) is taken as exact, so its wrap-around past `MaxLong` on a parent positioned near the top of the `long` range is not modelled.
- Use from several threads, and moving the parent's cursor by another party while a window is open, are not modelled. `Valid()` assumes neither happens.

## Findings

| source | as written | input that shows it | evidently intended | confidence | as-written member | corrected member |
|---|---|---|---|---|---|---|
| Stormancer.Plugins.FileStorage.Server/Substream.cs:59-99 | `_parent` is cleared before the tail is skipped. The branches test `CanSeek`, `CanRead` and `CanWrite`, which read the cleared field, so no branch ever runs and the parent stays where the window left it. | A 4-byte window over an 8-byte seekable stream, created with `closesParent` false and disposed untouched: the parent stays at 0. | The parent ends at the window's end, 4, so that the next window starts there. | high; not executed | `SubStreams.SubStream.Dispose`; `Scenarios.UntouchedWindowLeavesParentBehind` | `SubStreams.SubStream.DisposeAdvancing`; `Scenarios.UntouchedWindowAdvancesParent`; `Scenarios.ChainedWindows` |
| Stormancer.Plugins.FileStorage.Server/Substream.cs:92 | Each read in the drain loop asks for a whole buffer, however little of the window is left, so the loop can consume bytes that belong after the window. | `remaining` 4097 over a non-seekable in-memory stream of 8192 bytes: the loop consumes 8192. | Consume exactly the 4097 bytes left in the window. | medium (the loop is unreachable while the first finding stands); not executed | `SubStreams.DrainAsWritten`; `Scenarios.DrainOvershoots` | `SubStreams.DrainWindowTail`; `Scenarios.DrainExact` |
| Stormancer.Plugins.FileStorage.Server/Substream.cs:105-109 | The pad loop writes whole buffers until the count reaches zero or below, so it writes past the window whenever `remaining` is above 4096 and not a multiple of it. | `remaining` 4097 on a write-only stream: the loop writes 8192 zero bytes. | Write exactly the 4097 zero bytes left in the window. | medium (the loop is unreachable while the first finding stands); not executed | `SubStreams.PadAsWritten`; `WindowMath.ChunkTotalAt4097`; `Scenarios.PadOvershoots` | `SubStreams.PadWindowTail`; `Scenarios.PadExact` |
