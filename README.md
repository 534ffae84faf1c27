# eolify line-ending normalization, modelled in Dafny

eolify converts the line endings of a byte stream, either to CRLF or to LF. It does this one
chunk at a time. Its heart is a chunk transducer:

    normalize_chunk(input, output, preceded_by_cr, is_last_chunk)

The call writes the converted chunk into a caller buffer. It reports how many bytes it wrote
and whether the chunk ended with a CR whose fate depends on the next chunk (`ended_with_cr`).
If the buffer is smaller than the worst case the call demands, it fails with
`OutputBufferTooSmall { required }`. On top of the transducers sit buffered adapters:

- a pull reader that normalizes an inner reader's bytes as they are read;
- a push writer that normalizes bytes before handing them to an inner writer;
- their poll-based counterparts, `ReadBuffer` and `WriteBuffer`. `WriteBuffer` goes through
  the phases Writing, Finishing and Finished.

The model has three layers.

- **Reference functions** say what one chunk call produces, as a `Normalized(bytes,
  endedWithCr)` value:
  - `CrlfSpec.ToCrlf` for the current CRLF transducer;
  - `LfSpec.ToLf` for the LF transducer;
  - `LegacyCrlf.LegacyToCrlf` for the oldest CRLF transducer.

  Lemmas about these functions state the promised properties:
  - capacity bounds and their tightness;
  - no bare CR or LF in CRLF output, and no CR at all in LF output;
  - what `endedWithCr` means;
  - idempotence;
  - splitting the input into chunks is invisible;
  - only CR and LF bytes change.
- **Imperative transducers** work on an `array<byte>`. Each one is proved to fail exactly
  when the buffer is under the demanded size. On success it writes exactly the reference
  bytes at the front of the buffer and nothing past them. There is one per source file:
  - `FormatsCrlf.NormalizeChunk` for `src/formats/crlf.rs`;
  - `CoreCrlf.NormalizeChunk` for `src/core/crlf.rs`;
  - `LegacyCrlf.NormalizeChunk` for `src/crlf.rs`;
  - `FormatsLf.NormalizeChunk` for `src/formats/lf.rs`.

  Each one uses a three-cursor scanning loop over the result of a `memchr`/`memchr2`
  search. `Transducer` gathers the four behind one `Variant`. The whole-buffer helpers of
  `src/formats/mod.rs` are in `Formats`.
- **Adapters** are classes whose fields are the source's fields:
  - `Readers.Reader` covers every reader generation;
  - `Writers.Writer` covers both blocking writers;
  - `AsyncWriters.WriteBuffer` is the poll-based writer.

  Each class keeps a `Valid()` invariant. It says that everything handed out or written so
  far, followed by what is still buffered, is exactly the one-call normalization of every
  byte taken from the caller or the inner reader. It also says that the carried bit is the
  one that call would carry.
  - The inner reader's answers (bytes, Pending or an error) are parameters of the calls.
  - The inner writer is a `Sink` object whose answers are scripted in advance.

## Model

| member | source | states |
|---|---|---|
| Types.Error.RequiredSize | src/types.rs:14-29 | the single error variant is rebuilt from the size it reports |
| ChunkResult.NormalizeChunkResult.New | src/formats/mod.rs:17-41 | the constructor stores both fields and the accessors return them unchanged |
| ChunkResult.Normalized.Status | src/formats/mod.rs:9-15 | the status of a call reports the length of its output and its carried bit |
| ByteSearch.Memchr | src/formats/lf.rs:49 | the result is the least index from the scan position holding the byte, or None when no index does |
| ByteSearch.Memchr2 | src/formats/crlf.rs:77 | the result is the least index from the scan position holding either byte, or None when no index does |
| Copy.CopyNonoverlapping | src/formats/crlf.rs:136-146 | the copied span lands at the write position; the buffer is unchanged before it and from its end on |
| CrlfSpec.OutputLengthBounds | src/formats/crlf.rs:17-39 | a CRLF chunk's output is never shorter than its input and never longer than 2n, plus 1 for a last chunk |
| CrlfSpec.ExpandLength | tests/crlf_prop_test.rs:25-28 | every byte of a span expands to one or two bytes |
| CrlfSpec.AllLfDoubles | src/formats/crlf.rs:26 | n LFs with no carried CR need exactly 2n bytes |
| CrlfSpec.AllCrAfterCrNeedsExtraByte | src/formats/crlf.rs:31-34 | n CRs after a carried CR in a last chunk need exactly 2n + 1 bytes |
| CrlfSpec.CarriedCrCompleted | src/formats/crlf.rs:64-74 | compared with the same chunk without a carried CR: a chunk that starts with LF loses the CR of its first CR LF pair, since that LF completes the carried CR; any other chunk, outside the empty non-last case, gains one LF in front; the outgoing bit is the same |
| CrlfSpec.ScanPair | src/formats/crlf.rs:81-87 | a CR LF pair is skipped by the scan and later copied as it is, keeping the scan invariant |
| CrlfSpec.ScanBare | src/formats/crlf.rs:88-108 | a bare LF, or a CR before another byte, becomes CR LF after the pending run is copied |
| CrlfSpec.ScanFinalCr | src/formats/crlf.rs:109-130 | a final CR is copied, and completed by LF only in a last chunk; this finishes the chunk's output |
| CrlfSpec.ScanEnd | src/formats/crlf.rs:133-147 | when no line byte is left, copying the rest finishes the chunk's output |
| CrlfSpec.ChunkClean | tests/crlf_prop_test.rs:30-71 | CRLF output has no bare CR or LF, apart from a leading LF that completes a carried CR and a final CR that the call reports as carried |
| CrlfSpec.ChunkEndedWithCr | src/formats/crlf.rs:109-147 | a last chunk never carries; otherwise the bit is the empty chunk's incoming bit or whether the input ends with CR, and a non-empty output ends with CR exactly when the bit is set |
| CrlfSpec.ExpandKeepsClean | tests/crlf_prop_test.rs:84-110 | clean CRLF text is left unchanged by expansion |
| CrlfSpec.Idempotent | tests/crlf_prop_test.rs:84-110 | converting a whole-stream CRLF output again leaves it unchanged |
| CrlfSpec.ExpandConcat | tests/crlf_prop_test.rs:73-81 | expanding a concatenation equals expanding the front, then converting the back as a chunk that carries the front's final CR |
| CrlfSpec.LoneCrThenChunk | src/formats/crlf.rs:64-74 | a CR in front of a chunk is completed the same way as a carried CR |
| CrlfSpec.SplitInvariance | tests/crlf_prop_test.rs:73-81 | two calls that pass the carried bit along give the bytes and the carried bit of one call on the concatenation |
| CrlfSpec.KeepsText | src/formats/mod.rs:100-104 | deleting every CR and LF from the input and from the CRLF output gives the same bytes |
| LfSpec.CollapseLength | tests/lf_prop_test.rs:29-32 | a collapsed span is never longer than the span |
| LfSpec.OutputLength | src/formats/lf.rs:19-24 | an LF chunk's output is never longer than its input |
| LfSpec.ScanPair | src/formats/lf.rs:53-71 | at a CR LF pair the run before the CR is copied, and the pair's LF starts the next run |
| LfSpec.ScanLoneCr | src/formats/lf.rs:72-98 | a CR before another byte becomes LF after the run before it is copied |
| LfSpec.ScanFinalCr | src/formats/lf.rs:87-94 | a final CR becomes LF at once, which finishes the chunk's output |
| LfSpec.ScanEnd | src/formats/lf.rs:101-115 | when no CR is left, copying the rest finishes the chunk's output |
| LfSpec.CollapseNoCr | src/formats/lf.rs:48-116 | collapsed output holds no CR |
| LfSpec.ChunkNoCr | tests/lf_prop_test.rs:34-52 | no LF chunk's output holds a CR, whatever the carried bit |
| LfSpec.CarriedCrSwallowsLf | src/formats/lf.rs:39-46 | compared with the same chunk without a carried CR: a chunk that starts with LF loses that one leading LF, already written for the carried CR; any other chunk's output is unchanged; outside the empty non-last case the outgoing bit is the same |
| LfSpec.CarriedCrAlreadyWritten | src/formats/lf.rs:87-94 | after a non-empty chunk, a set outgoing bit never stands for a CR still to be written: the output is non-empty and ends with the LF that CR became |
| LfSpec.CollapseKeepsNoCr | tests/lf_prop_test.rs:55-80 | a span without CR is left unchanged |
| LfSpec.Idempotent | tests/lf_prop_test.rs:55-80 | converting a whole-stream LF output again leaves it unchanged |
| LfSpec.CollapseConcat | tests/lf_reader.rs:32-39 | collapsing a concatenation equals collapsing the front, then converting the back as a chunk that carries the front's final CR |
| LfSpec.LoneCrThenChunk | src/formats/lf.rs:39-46 | a CR in front of a chunk is resolved the same way as a carried CR; the chunk's leading LF is dropped |
| LfSpec.SplitInvariance | tests/lf_prop_test.rs:8-32 | two calls that pass the carried bit along give the bytes and the carried bit of one call on the concatenation |
| LfSpec.KeepsText | src/formats/mod.rs:100-104 | deleting every CR and LF from the input and from the LF output gives the same bytes |
| FormatsCrlf.MaxOutputSizeForChunk | src/formats/crlf.rs:17-39 | the demanded size, which depends only on the length and the last-chunk flag, suffices for every chunk of that length |
| FormatsCrlf.MaxOutputSizeIsTight | src/formats/crlf.rs:22-37 | for every non-empty length, some chunk needs the whole demanded size |
| FormatsCrlf.NormalizeChunk | src/formats/crlf.rs:41-74 | the call fails with exactly the demanded size, writing nothing, when and only when the buffer is smaller; otherwise it writes exactly the reference CRLF bytes at the front of the buffer and nothing past them, and reports their length and the carried bit; an empty non-last chunk passes the bit through |
| FormatsCrlf.Scan | src/formats/crlf.rs:76-148 | the scanning loop writes exactly the rest of the reference output behind what is already written, stays inside the buffer, and ends; the `core` generation (src/core/crlf.rs, lines 83-153) runs the same loop |
| FormatsLf.OutputRequired | src/formats/lf.rs:19-24 | the demanded size, which is the input length, suffices for every chunk of that length |
| FormatsLf.OutputRequiredIsTight | src/formats/lf.rs:19-24 | for every length, a chunk without CR needs the whole demanded size |
| FormatsLf.NormalizeChunk | src/formats/lf.rs:12-46 | the call fails with exactly the demanded size, writing nothing, when and only when the buffer is shorter than the input; otherwise it writes exactly the reference LF bytes; an empty chunk reports the bit `precededByCr && !isLastChunk`; after a carried CR a leading LF is skipped |
| FormatsLf.Scan | src/formats/lf.rs:48-116 | the scanning loop writes exactly the rest of the reference output, stays inside the buffer, and ends |
| CoreCrlf.NormalizeChunk | src/core/crlf.rs:33-81 | the demanded size is 2n, plus 1 for a last chunk, computed inline; the call fails with exactly that size, writing nothing, when and only when the buffer is smaller; otherwise it writes exactly the reference CRLF bytes |
| LegacyCrlf.AgreesWithCurrent | src/crlf.rs:46-60 | the oldest and the current CRLF transducer agree except on an empty non-last chunk after a carried CR |
| LegacyCrlf.EmptyChunkAfterCr | src/crlf.rs:54-60 | on that call the oldest transducer writes an LF and clears the bit, while the current one writes nothing and passes the bit on |
| LegacyCrlf.EmptyChunkIsVisible | src/crlf.rs:50-74 | "\r", then an empty chunk, then "\n" gives "\r\n\r\n", where one call on "\r\n" gives "\r\n" |
| LegacyCrlf.SplitInvariance | src/crlf.rs:46-109 | splitting is invisible for the oldest transducer when no empty non-last chunk follows a carried CR |
| LegacyCrlf.OutputLength | src/crlf.rs:37-44 | 2n + 1 bytes always suffice |
| LegacyCrlf.OutputLengthIsTight | src/crlf.rs:37-44 | for every length, some chunk needs all 2n + 1 bytes |
| LegacyCrlf.NormalizeChunk | src/crlf.rs:31-60 | the demanded size is always 2n + 1; the call fails with exactly that size, writing nothing, when and only when the buffer is smaller; otherwise it writes exactly the oldest transducer's reference bytes |
| LegacyCrlf.Scan | src/crlf.rs:62-109 | the loop's three branches cover every index the search returns, and the loop writes exactly the rest of the reference output and ends |
| Transducer.ChunkFits | src/formats/crlf.rs:93-94 | every variant's output fits in the size it demands, so no write goes out of bounds |
| Transducer.RequiredMonotone | src/wrappers/io.rs:24-37 | a shorter chunk, or a non-last one, never demands more |
| Transducer.NormalizeChunk | src/core/crlf.rs:174-177 | one call of the selected variant's transducer has that variant's contract |
| Transducer.NormalizeInto | src/wrappers/io.rs:55-64 | the call fails exactly when the buffer is under the demanded size; otherwise the buffer's prefix holds exactly the reference bytes |
| Transducer.Probe | src/io/mod.rs:26-32 | a probe with an empty buffer learns the demanded size, and it succeeds, which makes the caller panic, exactly when that size is zero |
| Transducer.ProbePanicsOnlyForEmpty | src/async_io.rs:91-97 | a non-last probe succeeds only for an empty chunk of a current-generation variant |
| Transducer.SplitInvariance | tests/crlf_reader.rs:14-39 | for every variant, two calls that pass the carried bit along give the result of one call; the oldest variant needs non-empty chunks while a CR is carried |
| Transducer.LastChunkCarriesNothing | src/formats/crlf.rs:126-129 | a last-chunk call never reports a carried CR |
| Transducer.KeepsText | src/formats/mod.rs:100-104 | every variant changes only CR and LF bytes |
| Transducer.AdapterCallFits | src/wrappers/io.rs:24-37 | an output buffer sized for a full non-last chunk also fits every shorter chunk, and a last chunk shorter than the buffer |
| Transducer.FeedIsOneCall | tests/crlf_writer.rs:5-48 | feeding any list of chunks, carrying the bit between calls, and then an empty last chunk gives one last-chunk call on all the bytes |
| Formats.OutputSizeFor | src/formats/mod.rs:79-86 | the probe returns the demanded size of a whole input as a last chunk; it is None exactly where the probe succeeds and the helper panics |
| Formats.OutputSizeForPanics | src/formats/mod.rs:80-84 | the helper panics exactly for the LF format on an empty input |
| Formats.Normalize | src/formats/mod.rs:90-96 | the result is the reference conversion of the whole input as one last chunk; the inner call cannot fail; None only where the size probe panics |
| Formats.NormalizeStr | src/formats/mod.rs:100-104 | the result is the conversion of the whole input as one last chunk from a clear bit, the same as Normalize, and differs from the input only in CR and LF bytes; None exactly for an empty LF input |
| Types.Min | src/io.rs:81 | the smaller of two lengths |
| Readers.Reader.Buffered | src/wrappers/async_core.rs:61-63 | the bytes not yet handed out, as many as the gap between the two positions |
| Readers.Reader.Init | src/wrappers/io.rs:24-37 | a fresh reader starts with empty positions, no carried CR, not at end of stream, and its invariant holding |
| Readers.Reader.New | src/wrappers/async_core.rs:29-41 | the output buffer is sized for a full non-last chunk; the reader starts empty and valid |
| Readers.Reader.WithSize | src/io.rs:23-40 | the probe sizes the output buffer; the constructor panics exactly when the demanded size is zero; src/io/mod.rs, src/async_io/read.rs and src/async_io.rs size their readers by the same probe |
| Readers.Reader.FillBuf | src/async_io.rs:134-169 | positions are reset first and the unread bytes count as handed out; after end of stream nothing is read; Pending or an error leaves the carried bit and end of stream unchanged; a read is normalized as one chunk with the bit passed in, and a zero-byte read is the last chunk and ends the stream for good; the capacity error occurs only when the buffer size is zero; the same step is `poll_fill_buf` in src/wrappers/async_core.rs and src/async_io/read.rs and `fill_buf`, where no Pending comes, in src/wrappers/io.rs, src/io/mod.rs and src/io.rs |
| Readers.Reader.Read | src/async_io/read.rs:46-69 | a read returns min(len, remaining) bytes in order and moves the position past them; it refills first when the buffer is used up and returns zero bytes when the refill yields none; after end of stream it returns zero bytes without reading; everything returned over the session is a prefix of the normalization of all bytes read; the same step is `poll_read` in src/wrappers/async_core.rs and src/async_io.rs and `read`, where no Pending comes, in src/wrappers/io.rs, src/io/mod.rs and src/io.rs |
| Readers.Reader.Take | src/wrappers/io.rs:82-86 | the copy hands out the first min(len, remaining) buffered bytes and nothing else changes |
| Readers.ZeroByteReadBeforeEnd | src/wrappers/io.rs:75-80 | an LF reader fed "\r" and then "\n" returns "\n" and then zero bytes, although the stream has not ended |
| Writers.CommitKeepsSession | src/wrappers/io.rs:150-161 | writing out one more full chunk keeps the inner writer equal to the normalization of all committed bytes |
| Writers.Writer.Buffered | src/wrappers/io.rs:118 | the taken bytes not yet normalized, as many as the input position |
| Writers.Writer.Init | src/wrappers/io.rs:101-112 | a fresh writer starts with an empty input buffer and no carried CR |
| Writers.Writer.New | src/wrappers/io.rs:101-112 | the output buffer is sized for a full non-last chunk; the writer starts valid |
| Writers.Writer.WithSize | src/io/mod.rs:110-125 | the probe sizes the output buffer; the constructor panics exactly when the buffer size is zero |
| Writers.Writer.Step | src/wrappers/io.rs:136-162 | one loop pass takes min(remaining, room) bytes; a buffer that is still not full ends the write; a full one is normalized as a non-last chunk and written out, or stays full when the inner writer fails; a zero-sized buffer takes nothing, writes nothing and answers "not done" (Ready(false)), so the write never ends |
| Writers.Writer.CommitFull | src/wrappers/io.rs:150-161 | the full buffer's non-last normalization is appended to the inner writer, and the buffer is emptied, only when the write succeeds; an empty normalization always succeeds |
| Writers.Writer.Write | src/wrappers/io.rs:132-164 | a successful write takes all of the buffer, returns its length, and leaves the input buffer not full; a failure passes on the inner error; every byte taken is added to the session; src/io/mod.rs has the same loop with the `last_was_cr` bit |
| Writers.Writer.CommitPending | src/wrappers/io.rs:167-180 | the buffered bytes are normalized as a non-last chunk; only non-empty output is written out, and only then are the bit updated and the buffer emptied |
| Writers.Writer.Flush | src/wrappers/io.rs:166-182 | CommitPending, then the inner writer is flushed; success means one more inner flush; src/io/mod.rs has the same flush |
| Writers.Writer.Finish | src/wrappers/io.rs:114-128 | on success the inner writer holds the normalization of every byte ever written, as one last chunk; the capacity error occurs exactly when a CRLF writer's input buffer is full: after a failed write, or always when the buffer has size zero; src/io/mod.rs has the same finish |
| AsyncWriters.Rank | src/wrappers/async_core.rs:129-133 | the phases in order: Writing, Finishing, Finished |
| AsyncWriters.SealKeepsSession | src/wrappers/async_core.rs:215-225 | one more normalization keeps the session whole; once the last chunk has been normalized a further call adds nothing |
| AsyncWriters.WriteBuffer.Buffered | src/wrappers/async_core.rs:122 | the taken bytes not yet normalized |
| AsyncWriters.WriteBuffer.constructor | src/wrappers/async_core.rs:137-150 | a fresh buffer is empty, in the Writing phase, with its output buffer sized for a full non-last chunk |
| AsyncWriters.WriteBuffer.Drain | src/wrappers/async_core.rs:162-172 | the pending output is offered once; what the inner writer takes leaves the buffer in order |
| AsyncWriters.WriteBuffer.Seal | src/wrappers/async_core.rs:215-225 | the buffered input is normalized into the empty output buffer and the input position is reset; the capacity error cannot occur |
| AsyncWriters.WriteBuffer.Refill | src/wrappers/async_core.rs:174-201 | positions are reset, min(remaining, room) bytes are taken, and a buffer that fills up is normalized as a non-last chunk |
| AsyncWriters.WriteBuffer.PollWrite | src/wrappers/async_core.rs:152-204 | Ready only with the whole length, all output written and the input buffer not full; Pending or a failure of the inner writer is passed on even after bytes of the buffer were taken |
| AsyncWriters.WriteBuffer.PollWriteCorrected | src/wrappers/async_core.rs:152-204 | corrected write: Pending or a failure only when nothing was taken; otherwise Ready with the count taken, which is positive for a non-empty buffer |
| AsyncWriters.WriteBuffer.PollFlush | src/wrappers/async_core.rs:206-253 | normalizes with the last-chunk flag set to `finish`, writes out and flushes until a normalization yields nothing; Ready leaves nothing buffered; with nothing buffered it returns Ready without flushing the inner writer, and otherwise it is Ready only after at least one flush of the inner writer |
| AsyncWriters.WriteBuffer.PollFinish | src/wrappers/async_core.rs:255-278 | the phase only moves forward; Ready exactly when Finished, and the inner writer then holds the last-chunk normalization of every byte taken; once Finished the inner writer is not touched again |
| AsyncWriters.PendingAfterTaking | src/wrappers/async_core.rs:161-172 | a one-byte CRLF buffer over a writer that is not ready answers Pending to writing "a" while it holds that byte |

## Left out

- I/O errors of the inner reader and writer are opaque codes (`IoError.Inner`). They are passed on unchanged.
- A transducer error is wrapped as `IoError.Transducer`. The standard library's error kinds and messages are not modelled.
- `write_all` is all-or-nothing in the `Sink` model. A real `write_all` that fails part-way may already have written a prefix.
- Waker and `Context` semantics of polling are not modelled. Every poll outcome of the inner reader or writer is an input.
- Integers are unbounded `nat`. The `usize` overflow of `2 * len` is not modelled.
- `MaybeUninit` output buffers (src/helpers.rs) are plain byte arrays.
- The generic transducer state `Option<N::State>` of the newest adapters is the carried-CR bit, the only state the formats have.
- The LF format shown implements only `normalize_chunk`. The adapters' `max_output_size_for_chunk` is taken to be its demanded size, the input length.
- The runtime shims and extension traits are not modelled: the tokio and futures-io modules, `IoExt`, `ReadExt`, `WriteExt` and `Finisher`. They only forward calls.
- `normalize` and `normalize_str` of src/core/crlf.rs and src/crlf.rs delegate to `crate::core::normalize` and `crate::normalize`. Those functions are not part of this model.
- Strings are byte sequences. UTF-8 validity is not modelled; only the fact that CR and LF are the only bytes that change.
- The default buffer size of 8192 is not modelled. Every constructor takes the size.
- `into_inner` is not modelled. Ownership moves (`finish(self)`) are calls on the object.
- The caller's read buffer is not an array: the bytes a read copies are returned as a sequence.
- Readers.Reader.FillBuf: the inner reader's answer is a parameter. The requirement that it reads at most the buffer size is a precondition, which a real `read` into that buffer always meets.
- Writers.Writer.Write: requires a non-zero buffer size. With a zero-sized buffer the source loops forever; Writers.Writer.Step states that one pass then takes nothing, writes nothing and answers "not done", so the loop makes no progress.
- Writers.Writer: there is no writer over the oldest CRLF transducer. Its splitting property needs non-empty chunks after a carried CR, which `flush` does not guarantee.
- AsyncWriters.WriteBuffer.constructor: requires a non-zero buffer size. With a zero-sized buffer `poll_write` loops forever.
- AsyncWriters.WriteBuffer.PollWrite: requires that the stream is not closed. Writing after `poll_finish` is outside what the source supports.
- AsyncWriters.WriteBuffer.PollWrite: for an exhausted script it states only that nothing is written out. It does not state every byte count the loop can reach.
- AsyncWriters.WriteBuffer.PollWrite, AsyncWriters.WriteBuffer.PollWriteCorrected and AsyncWriters.WriteBuffer.PollFlush: the source retries without end when the inner writer keeps answering that it took zero bytes (src/wrappers/async_core.rs:168-170 and 237-239). Such a writer can no longer take bytes, and the source then never returns. The model's inner writer has a finite script of answers and answers Pending once the script is used up, so in that case the model ends with Pending. Every answer the script does give, a zero-byte one included, is handled as the source handles it.
- The poll-based `ReadBuffer` reuses the `Readers.Reader` class. Its `poll_read` and `poll_fill_buf` are `Read` and `FillBuf` with a Pending answer.

## Findings

| source | as written | input that shows it | evidently intended | confidence | as-written member | corrected member |
|---|---|---|---|---|---|---|
| src/wrappers/async_core.rs:161-172 | while draining, a Pending or error answer of the inner writer is returned as it is, even though bytes of `buf` were already copied into the input buffer in the same call | a CRLF `WriteBuffer` with a one-byte buffer, an inner writer that answers Pending, and `poll_write(b"a")`: the byte is taken and normalized, draining answers Pending, and the call returns Pending while "a" stays buffered; a caller that retries writes "a" twice | Pending or an error only when no byte was taken; otherwise Ready with the number taken | not executed | AsyncWriters.PendingAfterTaking | AsyncWriters.WriteBuffer.PollWriteCorrected |
