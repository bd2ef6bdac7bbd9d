# AFEx stages: sliding-window rebuffering and the feature-file writer

A Dafny model of two pieces of the AFEx acoustic feature-extraction pipeline (Android, Java).

**`Stage`.** A stage receives multichannel sample blocks (`float[][]`) from its inbound queue.
Its `rebuffer` loop copies them column by column into a two-row window buffer of `blockSize`
samples. Each full buffer goes to `process`, then the buffer is shifted left in place by
`hopSize` and the fill counter restarts at `blockSize - hopSize`. Stages are wired by
`addConsumer`, which gives each consumer a fresh queue. `send` puts a block on every outbound
queue.

**`StageFeatureWrite`.** This sink turns every block it receives into one fixed-size record of a
binary feature file:

- The header is 29 bytes: block count, feature dimension, block size, hop size and sampling rate
  as big-endian int32, then the nine time characters of the file's start time.
- Each record holds a start and end timestamp and then the block's values, as float32.
- The two counts are zero placeholders until the file is closed. On close, the writer seeks back
  to offset 0 and writes them in.
- A new file is started before a block once the running end timestamp reaches 10000.

Modules:

- `Common`: bytes, `Option`, blocks, flattening a block.
- `Windowing`: the windowing engine as pure functions.
  - `FeedFrom` handles one block and `Run` handles a queue of blocks.
  - The lemmas cover window count, window contents, fill counter, malformed blocks and
    termination.
- `Stages`: the `Stage` class and the `BlockQueue` class.
  - `Stage.Rebuffer` works on an `array2` buffer in place and is proved to compute `Run`.
- `Files`: a random-access file as a byte sequence with a file pointer, and the int32 encoding.
- `FeatureFormat`: header, record and file layout as byte sequences, and how they read back.
- `FeatureWrite`: the `StageFeatureWrite` class.
  - Its invariant `Valid` ties the open file's bytes to the blocks appended since it was opened.
  - It also ties the timestamps to the block count.

Modelling choices:

- Sample values are reals the model never inspects, and float32 encoding is an opaque four-byte encoder `f32`.
- Timestamps are exact reals.
- The formatted start time is an opaque 18-character string given by a function `clock` of the
  millisecond offset.
- `process` of a generic stage is modelled as recording each window it is given (`processed`).
- Block size, hop size and sampling rate of the stage that feeds the writer are parameters.
  `StageFeatureWrite.java` reads them from an `inStage` field that `Stage.java` does not declare.

Behaviour kept as written:

- **Timestamp units.** `relTimestampMs` holds seconds (`blockSize / samplingrate`) but is
  compared with a threshold meant as milliseconds. A file therefore rotates after about 10000
  seconds of audio, not 10 seconds. The model keeps the code's arithmetic.
- **When rotation happens.** Rotation is checked on the end timestamp *before* the block is
  written. Once the end timestamp of the next block would reach the threshold, that block already
  goes into a new file.
- **Writer's `rebuffer`.** It handles exactly one block.
- **Shift after a window.** It touches only the rows `i < dataIn.length`. For one-channel input,
  row 1 keeps its old samples.
- **Failing column.** A column that fails part-way keeps the channels already copied.
  - This happens with more than two channels, or with a row shorter than row 0.
  - `samples` is not advanced, and the rest of that block is skipped.
- **Rotated files share one name.** Each new file restarts the block count and the timestamps.
  When blocks are shorter than the threshold, a file is rotated away at the first block whose end
  timestamp reaches it (`RotatesAtFirstCrossing`). That block is the same for every file
  (`RotationsShareName`), so every rotation after the first sees the same end timestamp and
  names the next file after it. The second and each later rotation therefore reopen one file.
  A block of 10000 or more reaches the threshold on its own. Then a file opened by a rotation
  takes its first block without the check and is rotated away at its second block, which also
  repeats one end timestamp.
- **Block without channels.** The exception handler itself fails on `dataIn[0]`, which ends the
  loop.

## Model

| member | source | states |
|---|---|---|
| `Stages.Stage.constructor` | app/src/main/java/de/jade_hs/afe/AcousticFeatureExtraction/Stage.java:38-53 | block size is 400 when absent; hop size is the block size when absent; no queues, no consumers |
| `Stages.BlockQueue.Poll` | app/src/main/java/de/jade_hs/afe/AcousticFeatureExtraction/Stage.java:152 | an empty queue yields nothing and stays empty; otherwise the head is removed and returned |
| `Stages.BlockQueue.Put` | app/src/main/java/de/jade_hs/afe/AcousticFeatureExtraction/Stage.java:170 | the block is appended at the tail |
| `Stages.Stage.Receive` | app/src/main/java/de/jade_hs/afe/AcousticFeatureExtraction/Stage.java:146-163 | yields the head of the inbound queue and removes it, or nothing when the queue is empty |
| `Stages.Stage.Send` | app/src/main/java/de/jade_hs/afe/AcousticFeatureExtraction/Stage.java:166-175 | every outbound queue gets the same block appended at its tail; nothing else is modified |
| `Stages.Stage.SetInQueue` | app/src/main/java/de/jade_hs/afe/AcousticFeatureExtraction/Stage.java:193-196 | the inbound queue is replaced; every other field is unchanged |
| `Stages.Stage.AddConsumer` | app/src/main/java/de/jade_hs/afe/AcousticFeatureExtraction/Stage.java:178-191 | the consumer gets a fresh empty inbound queue; exactly that queue joins the outbound set; the consumer is appended to `consumerSet`; another stage as consumer keeps its processed windows and input flag |
| `Stages.CopyColumn` | app/src/main/java/de/jade_hs/afe/AcousticFeatureExtraction/Stage.java:111-113 | copies channels in order until the buffer row or the input row runs out; returns that channel index (`FirstFault`); the buffer is exactly the old one with those cells written |
| `Stages.CopyWithinRow` | app/src/main/java/de/jade_hs/afe/AcousticFeatureExtraction/Stage.java:123 | `arraycopy` within one row: the first `len` cells take the values from `hop` on; all other cells are unchanged |
| `Stages.ShiftRowInPlace` | app/src/main/java/de/jade_hs/afe/AcousticFeatureExtraction/Stage.java:123 | one row of the buffer becomes that row shifted left by `hopSize` (`ShiftRow`); the other row is unchanged |
| `Stages.ShiftLeft` | app/src/main/java/de/jade_hs/afe/AcousticFeatureExtraction/Stage.java:122-124 | the buffer becomes `ShiftRows` of the old buffer: rows below the input's channel count are shifted by `hopSize` |
| `Stages.Stage.CopySample` | app/src/main/java/de/jade_hs/afe/AcousticFeatureExtraction/Stage.java:110-125 | one column: a column that faults at channel `m` leaves exactly the cells before `m` written and nothing else changed; a complete column advances the state exactly as `TakeSample`, processing a full window |
| `Stages.Stage.CopyBlock` | app/src/main/java/de/jade_hs/afe/AcousticFeatureExtraction/Stage.java:106-134 | the in-place column loop over one block leaves buffer, counter and processed windows exactly as `FeedFrom` |
| `Stages.Stage.Rebuffer` | app/src/main/java/de/jade_hs/afe/AcousticFeatureExtraction/Stage.java:87-143 | the windows processed are exactly those of `Run` from a zero buffer over the queued blocks; the queue keeps what `Run` leaves; `crashed` matches; `hasInput` is unchanged |
| `Windowing.Initial` | app/src/main/java/de/jade_hs/afe/AcousticFeatureExtraction/Stage.java:92-94 | the buffer starts as `blockSize` zeros per channel, with counter 0 and no windows |
| `Windowing.TakeSample` | app/src/main/java/de/jade_hs/afe/AcousticFeatureExtraction/Stage.java:111-125 | one complete column keeps the buffer shape; the counter grows by one, or, on a full window, resets to `blockSize - hopSize` with exactly one window appended; that window ends with the column just taken |
| `Windowing.FirstFault` | app/src/main/java/de/jade_hs/afe/AcousticFeatureExtraction/Stage.java:110-113 | the faulting channel is the first with index >= 2 or a row too short for column `k`; all channels before it can be copied |
| `Windowing.FeedFrom` | app/src/main/java/de/jade_hs/afe/AcousticFeatureExtraction/Stage.java:110-126 | buffer shape and `samples < blockSize` are preserved; windows are only appended |
| `Windowing.Run` | app/src/main/java/de/jade_hs/afe/AcousticFeatureExtraction/Stage.java:98-139 | buffer shape and the fill-counter bound are preserved across blocks; windows are only appended |
| `Windowing.RunTermination` | app/src/main/java/de/jade_hs/afe/AcousticFeatureExtraction/Stage.java:98-104 | the loop crashes iff some block has no channels; otherwise it drains the queue; a crash leaves exactly the blocks after the first channel-less one |
| `Windowing.OverwideBlockKeepsPartialSample` | app/src/main/java/de/jade_hs/afe/AcousticFeatureExtraction/Stage.java:109-134 | a block with more than two channels writes rows 0 and 1 of its first column; it changes neither `samples` nor the windows |
| `Windowing.JaggedBlockKeepsPartialSample` | app/src/main/java/de/jade_hs/afe/AcousticFeatureExtraction/Stage.java:109-134 | a two-channel block whose row 1 is `L` samples, shorter than row 0: columns before `L` are taken as from the block cut to `L` columns; column `L` writes row 0 only, keeps `samples` and the windows, and ends the block |
| `Windowing.ShiftKeepsOverlap` | app/src/main/java/de/jade_hs/afe/AcousticFeatureExtraction/Stage.java:120-124 | after the shift a row starts with the old row from `hopSize` on; rows at or past the input's channel count are untouched |
| `Windowing.CounterStep` | app/src/main/java/de/jade_hs/afe/AcousticFeatureExtraction/Stage.java:114-121 | for a contiguous stream the counter stays below `blockSize`; reaching `blockSize` emits exactly one window and resets to `blockSize - hopSize`; otherwise it grows by one |
| `Windowing.TakeSampleTracks` | app/src/main/java/de/jade_hs/afe/AcousticFeatureExtraction/Stage.java:111-125 | one column keeps the state in step with the stream: counter, window count, buffer tail and window contents |
| `Windowing.FeedFromTracks` | app/src/main/java/de/jade_hs/afe/AcousticFeatureExtraction/Stage.java:110-126 | a well-formed block keeps the state in step with the stream extended by the block's row |
| `Windowing.RunTracks` | app/src/main/java/de/jade_hs/afe/AcousticFeatureExtraction/Stage.java:98-139 | a well-formed queue is drained without a crash, and the state is in step with the whole stream |
| `Windowing.WindowContents` | app/src/main/java/de/jade_hs/afe/AcousticFeatureExtraction/Stage.java:110-125 | a well-formed queue is drained without a crash; N samples per channel give `floor((N - blockSize) / hopSize) + 1` windows (0 when N < blockSize); window j of channel c is `blockSize` long and is the samples `[j * hopSize, j * hopSize + blockSize)` of that channel (`StreamWindow`) |
| `Windowing.WindowsIgnoreSplit` | app/src/main/java/de/jade_hs/afe/AcousticFeatureExtraction/Stage.java:110-125 | two queues carrying the same stream give the same windows, however the stream is cut into blocks |
| `Windowing.HalfOverlapExample` | app/src/main/java/de/jade_hs/afe/AcousticFeatureExtraction/Stage.java:110-123 | blockSize 4, hopSize 2 and samples 1..6 in two blocks give windows [1,2,3,4] and [3,4,5,6] |
| `Files.Int32BE` | app/src/main/java/de/jade_hs/afe/AcousticFeatureExtraction/StageFeatureWrite.java:118-123 | four bytes whose big-endian value is the argument modulo 2^32 |
| `Files.Int32RoundTrip` | app/src/main/java/de/jade_hs/afe/AcousticFeatureExtraction/StageFeatureWrite.java:118-123 | an int32 written by `writeInt` (big-endian) reads back as the same value |
| `Files.Overwrite` | app/src/main/java/de/jade_hs/afe/AcousticFeatureExtraction/StageFeatureWrite.java:185-187 | writing at the file pointer replaces exactly those bytes, growing the file past its end; every other byte is unchanged |
| `FeatureFormat.Header` | app/src/main/java/de/jade_hs/afe/AcousticFeatureExtraction/StageFeatureWrite.java:117-125 | 29 bytes starting with the block count and the feature dimension as big-endian int32 |
| `FeatureFormat.HeaderRoundTrip` | app/src/main/java/de/jade_hs/afe/AcousticFeatureExtraction/StageFeatureWrite.java:117-125 | the header is 29 bytes; the five int32 fields and the nine time characters read back as written, whatever follows |
| `FeatureFormat.PatchHeader` | app/src/main/java/de/jade_hs/afe/AcousticFeatureExtraction/StageFeatureWrite.java:182-187 | overwriting bytes 0-4 and 4-8 of a placeholder header gives the header with the real counts; the records are untouched |
| `FeatureFormat.EncodeAllAt` | app/src/main/java/de/jade_hs/afe/AcousticFeatureExtraction/StageFeatureWrite.java:163-167 | value i of a float sequence occupies bytes `[4i, 4i + 4)` |
| `FeatureFormat.Record` | app/src/main/java/de/jade_hs/afe/AcousticFeatureExtraction/StageFeatureWrite.java:160-167 | a record exists iff the two timestamps and all values fit in `size` bytes; it is then exactly `size` bytes |
| `FeatureFormat.RecordLayout` | app/src/main/java/de/jade_hs/afe/AcousticFeatureExtraction/StageFeatureWrite.java:150-167 | a record exists iff the block has at most `size / 4 - 2` values; it is `size` bytes: start, end, the values channel after channel, zero padding |
| `FeatureFormat.ConcatAt` | app/src/main/java/de/jade_hs/afe/AcousticFeatureExtraction/StageFeatureWrite.java:172-173 | in a body of equal-size records, record i starts at `i * size` |
| `FeatureFormat.RecordInFile` | app/src/main/java/de/jade_hs/afe/AcousticFeatureExtraction/StageFeatureWrite.java:172-173 | behind the 29-byte header, record i starts at `29 + i * size` |
| `FeatureFormat.FileReadsBack` | app/src/main/java/de/jade_hs/afe/AcousticFeatureExtraction/StageFeatureWrite.java:182-188 | a patched file is `29 + blockCount * size` bytes; its header reads back; record i is at `29 + i * size` |
| `FeatureWrite.TruncToLong` | app/src/main/java/de/jade_hs/afe/AcousticFeatureExtraction/StageFeatureWrite.java:109 | `(long)` truncates toward zero |
| `FeatureWrite.FileName` | app/src/main/java/de/jade_hs/afe/AcousticFeatureExtraction/StageFeatureWrite.java:113-114 | the file name starts with the prefix and `_`, holds the 18-character timestamp next and ends with `.feat` |
| `FeatureWrite.PutFloats` | app/src/main/java/de/jade_hs/afe/AcousticFeatureExtraction/StageFeatureWrite.java:163-167 | a float put writes the encoded values at the buffer position and leaves the other bytes alone |
| `FeatureWrite.PutRow` | app/src/main/java/de/jade_hs/afe/AcousticFeatureExtraction/StageFeatureWrite.java:165-167 | putting one channel after the values already in a zero-padded record buffer gives the encoding of all values so far followed by zeros |
| `FeatureWrite.FeatureCount` | app/src/main/java/de/jade_hs/afe/AcousticFeatureExtraction/StageFeatureWrite.java:152-157 | the feature dimension is 2 plus the total number of values of the block |
| `FeatureWrite.StageFeatureWrite.FixRecordSize` | app/src/main/java/de/jade_hs/afe/AcousticFeatureExtraction/StageFeatureWrite.java:152-158 | only the first block fixes the feature dimension, to 2 plus its value count, and the record size to four bytes per feature; later blocks keep both |
| `FeatureWrite.FillRecord` | app/src/main/java/de/jade_hs/afe/AcousticFeatureExtraction/StageFeatureWrite.java:160-167 | the zeroed byte buffer filled channel by channel is exactly `Record`; an overflowing channel gives none |
| `FeatureWrite.WriteHeader` | app/src/main/java/de/jade_hs/afe/AcousticFeatureExtraction/StageFeatureWrite.java:117-125 | a new file holds exactly the placeholder header, 29 bytes, with the pointer at its end |
| `FeatureWrite.RecordsMatchAt` | app/src/main/java/de/jade_hs/afe/AcousticFeatureExtraction/StageFeatureWrite.java:160-170 | record i of a file is block i with timestamps `i * hopDuration` and that plus one block duration |
| `FeatureWrite.FileHoldsSnoc` | app/src/main/java/de/jade_hs/afe/AcousticFeatureExtraction/StageFeatureWrite.java:169-178 | appending the next block's record at the end of an open file keeps its shape: header, then one record per counted block, each holding that block and its timestamps |
| `FeatureWrite.ClosedFileReadsBack` | app/src/main/java/de/jade_hs/afe/AcousticFeatureExtraction/StageFeatureWrite.java:160-188 | a closed file reads back with `blockCount` records; record i holds block i and its timestamps |
| `FeatureWrite.RotationsShareName` | app/src/main/java/de/jade_hs/afe/AcousticFeatureExtraction/StageFeatureWrite.java:127-143 | two blocks that are each the first whose end timestamp, counted from a file start, reaches 10000 are the same block, so such rotations see one end timestamp |
| `FeatureWrite.TimedStep` | app/src/main/java/de/jade_hs/afe/AcousticFeatureExtraction/StageFeatureWrite.java:143-170 | writing a block below the threshold, or the first block of a file, keeps the timestamps `count` hops after the file start and one block apart, with the last block ending below the threshold |
| `FeatureWrite.StageFeatureWrite.RotatesAtFirstCrossing` | app/src/main/java/de/jade_hs/afe/AcousticFeatureExtraction/StageFeatureWrite.java:140-143 | when the writer rotates and a block is shorter than 10000, its block count is that first crossing block (a longer block rotates every file opened by a rotation after one block) |
| `FeatureWrite.StageFeatureWrite.constructor` | app/src/main/java/de/jade_hs/afe/AcousticFeatureExtraction/StageFeatureWrite.java:48-66 | no file yet; timestamps [0, 0]; counts and record size 0 |
| `FeatureWrite.StageFeatureWrite.CloseFeatureFile` | app/src/main/java/de/jade_hs/afe/AcousticFeatureExtraction/StageFeatureWrite.java:182-193 | an open file gets its counts patched in and is closed; an already closed file is unchanged |
| `FeatureWrite.StageFeatureWrite.OpenFeatureFile` | app/src/main/java/de/jade_hs/afe/AcousticFeatureExtraction/StageFeatureWrite.java:97-137 | the old open file is patched and closed first; an old file already closed keeps its bytes; the timestamp is `clock` of the truncated old end timestamp; a new `prefix_timestamp.feat` holds the placeholder header; block count 0; timestamps [0, blockSize/fs]; hop duration hopSize/fs; record size kept |
| `FeatureWrite.StageFeatureWrite.CreateFeatureFile` | app/src/main/java/de/jade_hs/afe/AcousticFeatureExtraction/StageFeatureWrite.java:108-131 | the new file is named after the truncated old end timestamp and holds exactly the placeholder header; block count 0; timestamps [0, blockSize/fs]; hop duration hopSize/fs |
| `FeatureWrite.StageFeatureWrite.StoreRecord` | app/src/main/java/de/jade_hs/afe/AcousticFeatureExtraction/StageFeatureWrite.java:169-178 | both timestamps advance one hop; an open file gains the record; a closed file keeps its bytes; the block is counted even when the write fails |
| `FeatureWrite.StageFeatureWrite.AppendRecord` | app/src/main/java/de/jade_hs/afe/AcousticFeatureExtraction/StageFeatureWrite.java:150-178 | the record is built from the current timestamps; overflow changes neither the count nor the file; otherwise the count grows by one and an open file gains the record; a closed file keeps its bytes |
| `FeatureWrite.StageFeatureWrite.AppendFeature` | app/src/main/java/de/jade_hs/afe/AcousticFeatureExtraction/StageFeatureWrite.java:140-179 | rotates exactly when the end timestamp has reached 10000; the first block ever fixes `nFeatures` and `bufferSize`; the record holds the pre-advance timestamps; overflow writes and counts nothing; otherwise one count and one record; without rotation the file, its start time and whether it is open are kept, and a closed file keeps its bytes; a closed file rotated away keeps its bytes |
| `FeatureWrite.StageFeatureWrite.RotateAndAppend` | app/src/main/java/de/jade_hs/afe/AcousticFeatureExtraction/StageFeatureWrite.java:143-178 | once the end timestamp has reached 10000: the old file is patched and closed (or, already closed, keeps its bytes), a fresh file is opened, and the block is appended to it as `AppendsTo` states |
| `FeatureWrite.StageFeatureWrite.Process` | app/src/main/java/de/jade_hs/afe/AcousticFeatureExtraction/StageFeatureWrite.java:77-82 | a block without channels fails before anything changes; otherwise it is appended as `AppendsTo` states, and on a rotation the old file is patched and closed, or keeps its bytes if it was already closed |
| `FeatureWrite.StageFeatureWrite.Rebuffer` | app/src/main/java/de/jade_hs/afe/AcousticFeatureExtraction/StageFeatureWrite.java:90-95 | takes exactly one block off the queue and processes it, with the old file patched and closed on a rotation (kept if already closed); an empty queue fails with nothing else changed |

## Left out

- Threads: `start`, `stop`, interruption, and the recursive start of consumers. The loop's
  `isInterrupted` test is never true here. Concurrency is the point of that code and is not
  modelled.
- Blocking `put` and `poll` with the 1000 ms timeout: `poll` returns the head or nothing. A
  poll that times out on a queue that will later fill is not modelled.
- `Integer.parseInt` of the parameters: the constructor takes them already parsed.
- Logging and diagnostic output, and the unused `TreeSet` superclass.
- The Android storage directory and `mkdir`. The file name leaves the directory out.
- Reopening an existing file name: a file is always created empty. Because rotated files share
  one name, Java's `"rw"` mode instead reopens the same file without truncating it. The model
  therefore does not capture what that costs. Records of a longer earlier file survive behind
  the new ones. Such a file can be longer than `29 + blockCount * size`. Files with later audio
  can carry the same start time as earlier ones.
- I/O errors other than writing to a closed file are not modelled. This includes a failing
  `new RandomAccessFile`, a full disk and interruption.
- Date formatting is an opaque function `clock`. The `Date`/`Instant` mismatch on `startTime`
  is not modelled.
- Float rounding of timestamps and the IEEE-754 bits of float32 values: timestamps are exact reals,
  and values go through an opaque encoder.
- The concrete `process`/`cleanup` of other stages: windows are recorded, not processed.
- `process` may keep a reference to the window buffer that `rebuffer` keeps changing. The model
  records a copy of each window, so that aliasing is not modelled.
- Java `int` wrap-around of `blockCount`, `nFeatures` and `bufferSize = nFeatures * 4`: they are
  unbounded here. The header stores the counts modulo 2^32, as `writeInt` does. A wrapped,
  negative `bufferSize` would make `ByteBuffer.allocate` throw, which is not modelled.
- A writer stage without input (`process(null)`) and an `appendFeature` or `closeFeatureFile`
  before the first `openFeatureFile`: both end in a `NullPointerException`.
- Stages.Stage.Rebuffer: requires `0 < hopSize <= blockSize`, which nothing in the source checks.
  Without it the fill counter can leave the buffer.
- Stages.Stage.Rebuffer: also requires an inbound queue (`inQueue != null`), as do
  `Stages.Stage.Receive` and `FeatureWrite.StageFeatureWrite.Rebuffer`. In the source, a stage
  without one throws a `NullPointerException` at the poll and its thread ends. That case is not
  modelled.
- Stages.Stage.CopyBlock: requires `0 < hopSize <= blockSize`, as `Rebuffer` does.
- FeatureWrite.StageFeatureWrite.constructor: requires `samplingrate > 0`, because float division
  by zero (infinite or NaN timestamps) is not modelled.
- FeatureWrite.StageFeatureWrite.AppendFeature: requires a file to have been opened
  (`featureRAF != null`), which `start` does before the stage runs.
- Files.RandomAccessFile.Seek: requires a position within the file. Seeking past the end is not
  needed by the writer.
