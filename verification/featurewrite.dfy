/**
 * The feature-file sink stage: every block it receives becomes one fixed-size record of a
 * feature file; files rotate once the running end timestamp reaches a threshold, and the header
 * counts are patched in when a file is closed.
 */
module FeatureWrite {
  import opened Common
  import opened Files
  import opened FeatureFormat
  import opened Stages

  const Extension := ".feat"

  /** The threshold on the running end timestamp at which a new file is started. */
  const FeatFileSizeMs: real := 10000.0

  /** Java's `(long)` cast of a float: truncation toward zero. */
  function TruncToLong(x: real): (n: int)
    ensures x >= 0.0 ==> 0 <= n && n as real <= x < n as real + 1.0
    ensures x < 0.0 ==> n <= 0 && n as real - 1.0 < x <= n as real
  {
    if x >= 0.0 then x.Floor else -((-x).Floor)
  }

  /** `ByteBuffer` and its `FloatBuffer` view: store word `w` at byte offset `at`. */
  method PutWord(buf: array<byte>, at: nat, w: Word)
    requires at + 4 <= buf.Length
    modifies buf
    ensures buf[..] == old(buf[..])[..at] + w + old(buf[..])[at + 4..]
  {
    buf[at] := w[0];
    buf[at + 1] := w[1];
    buf[at + 2] := w[2];
    buf[at + 3] := w[3];
  }

  /** `FloatBuffer.put(float[])` once the room is known: the values at float position `position`. */
  method PutFloats(buf: array<byte>, position: nat, xs: seq<real>, f32: real -> Word)
    requires 4 * (position + |xs|) <= buf.Length
    modifies buf
    ensures buf[..] == old(buf[..])[..4 * position] + EncodeAll(xs, f32)
                       + old(buf[..])[4 * (position + |xs|)..]
  {
    ghost var before := buf[..];
    var j := 0;
    while j < |xs|
      invariant 0 <= j <= |xs|
      invariant buf[..] == before[..4 * position] + EncodeAll(xs[..j], f32) + before[4 * (position + j)..]
    {
      PutWord(buf, 4 * (position + j), f32(xs[j]));
      PutFloatsStep(before, position, xs, j, f32, buf[..]);
      j := j + 1;
    }
    assert xs[..j] == xs;
  }

  /** The bytes of `PutFloats` after the word of value `j` is put. */
  lemma PutFloatsStep(before: seq<byte>, position: nat, xs: seq<real>, j: nat, f32: real -> Word,
                      after: seq<byte>)
    requires j < |xs| && 4 * (position + |xs|) <= |before|
    requires var cur := before[..4 * position] + EncodeAll(xs[..j], f32) + before[4 * (position + j)..];
             after == cur[..4 * (position + j)] + f32(xs[j]) + cur[4 * (position + j) + 4..]
    ensures after == before[..4 * position] + EncodeAll(xs[..j + 1], f32) + before[4 * (position + j + 1)..]
  {
    var pre, mid, post := before[..4 * position], EncodeAll(xs[..j], f32), before[4 * (position + j)..];
    var cur := pre + mid + post;
    assert cur[..4 * (position + j)] == pre + mid;
    assert cur[4 * (position + j) + 4..] == post[4..] == before[4 * (position + j + 1)..];
    EncodeSnoc(xs, j, f32);
  }

  lemma EncodeSnoc(xs: seq<real>, j: nat, f32: real -> Word)
    requires j < |xs|
    ensures EncodeAll(xs[..j + 1], f32) == EncodeAll(xs[..j], f32) + f32(xs[j])
  {
    assert xs[..j + 1] == xs[..j] + [xs[j]];
    EncodeAllAppend(xs[..j], [xs[j]], f32);
    assert EncodeAll([xs[j]], f32) == f32(xs[j]) + EncodeAll([], f32);
  }

  lemma ZerosTail(n: nat, k: nat)
    requires k <= n
    ensures Zeros(n)[k..] == Zeros(n - k)
  {
  }

  lemma TotalLengthSnoc(rows: seq<seq<Sample>>, c: nat)
    requires c < |rows|
    ensures TotalLength(rows[..c + 1]) == TotalLength(rows[..c]) + |rows[c]|
    ensures Flatten(rows[..c + 1]) == Flatten(rows[..c]) + rows[c]
  {
    assert rows[..c + 1] == rows[..c] + [rows[c]];
    FlattenSnoc(rows[..c], rows[c]);
  }

  /** The rows after the first `c` add to the total. */
  lemma {:induction false} TotalLengthPrefix(rows: seq<seq<Sample>>, c: nat)
    requires c <= |rows|
    ensures TotalLength(rows[..c]) <= TotalLength(rows)
    decreases |rows| - c
  {
    if c < |rows| {
      TotalLengthSnoc(rows, c);
      TotalLengthPrefix(rows, c + 1);
    } else {
      assert rows[..c] == rows;
    }
  }

  /** The feature dimension of a block: its two timestamps and every value of every channel. */
  method FeatureCount(data: Block) returns (n: int)
    ensures n == 2 + TotalLength(data)
  {
    n := 2;
    var c := 0;
    while c < |data|
      invariant 0 <= c <= |data|
      invariant n == 2 + TotalLength(data[..c])
    {
      TotalLengthSnoc(data, c);
      n := n + |data[c]|;
      c := c + 1;
    }
    assert data[..c] == data;
  }

  /**
   * The record buffer of `appendFeature`: a zeroed `size`-byte buffer, the two timestamps put
   * first and every channel after them; a channel that does not fit in the remaining room
   * raises `BufferOverflowException` (none).
   */
  method FillRecord(size: nat, rel0: real, rel1: real, data: Block, f32: real -> Word)
    returns (record: Option<seq<byte>>)
    ensures record == Record(rel0, rel1, data, size, f32)
    ensures record.Some? ==> |record.value| == size
  {
    var bbuffer := new byte[size](_ => 0);
    var capacity := size / 4;
    assert 4 * capacity <= size < 4 * capacity + 4;
    if 2 > capacity {
      assert 4 * |[rel0, rel1] + Flatten(data)| > size;
      return None;
    }
    PutFloats(bbuffer, 0, [rel0, rel1], f32);
    ZerosTail(size, 8);
    var position := 2;
    var c := 0;
    while c < |data|
      invariant 0 <= c <= |data|
      invariant position == 2 + TotalLength(data[..c]) <= capacity
      invariant bbuffer.Length == size
      invariant bbuffer[..] == EncodeAll([rel0, rel1] + Flatten(data[..c]), f32) + Zeros(size - 4 * position)
    {
      TotalLengthSnoc(data, c);
      if |data[c]| > capacity - position {
        TotalLengthPrefix(data, c + 1);
        assert 4 * |[rel0, rel1] + Flatten(data)| > size;
        return None;
      }
      PutRow(bbuffer, position, data[c], [rel0, rel1] + Flatten(data[..c]), f32);
      ValuesSnoc([rel0, rel1], data, c);
      position := position + |data[c]|;
      c := c + 1;
    }
    assert data[..c] == data;
    record := Some(bbuffer[..]);
  }

  /** One channel of `appendFeature` put into the zero-padded record buffer after `prefix`. */
  method PutRow(buf: array<byte>, position: nat, row: seq<real>, ghost prefix: seq<real>, f32: real -> Word)
    requires |prefix| == position && 4 * (position + |row|) <= buf.Length
    requires buf[..] == EncodeAll(prefix, f32) + Zeros(buf.Length - 4 * position)
    modifies buf
    ensures buf[..] == EncodeAll(prefix + row, f32) + Zeros(buf.Length - 4 * (position + |row|))
  {
    ghost var before := buf[..];
    PutFloats(buf, position, row, f32);
    FillStep(prefix, row, buf.Length, position, before, buf[..], f32);
  }

  lemma ValuesSnoc(head: seq<real>, rows: seq<seq<Sample>>, c: nat)
    requires c < |rows|
    ensures head + Flatten(rows[..c + 1]) == (head + Flatten(rows[..c])) + rows[c]
  {
    TotalLengthSnoc(rows, c);
  }

  /** Putting `row` after the values already in a zero-padded record buffer. */
  lemma FillStep(prefix: seq<real>, row: seq<real>, size: nat, position: nat, before: seq<byte>,
                  after: seq<byte>, f32: real -> Word)
    requires |prefix| == position && 4 * (position + |row|) <= size
    requires before == EncodeAll(prefix, f32) + Zeros(size - 4 * position)
    requires after == before[..4 * position] + EncodeAll(row, f32) + before[4 * (position + |row|)..]
    ensures after == EncodeAll(prefix + row, f32) + Zeros(size - 4 * (position + |row|))
  {
    assert before[..4 * position] == EncodeAll(prefix, f32);
    assert before[4 * (position + |row|)..] == Zeros(size - 4 * position)[4 * |row|..];
    ZerosTail(size - 4 * position, 4 * |row|);
    EncodeAllAppend(prefix, row, f32);
  }

  /** The header writes of `openFeatureFile` on a new file: two zero placeholders, then the rest. */
  method WriteHeader(raf: RandomAccessFile, blockSize: int, hopSize: int, samplingrate: int, stamp: Stamp)
    requires raf.content == [] && raf.pos == 0 && raf.isOpen
    modifies raf
    ensures raf.content == Header(0, 0, blockSize, hopSize, samplingrate, stamp)
    ensures raf.pos == |raf.content| == HeaderSize && raf.isOpen
  {
    OverwriteAtEnd([], Int32BE(0));
    var ok := raf.WriteInt(0);
    OverwriteAtEnd(raf.content, Int32BE(0));
    ok := raf.WriteInt(0);
    OverwriteAtEnd(raf.content, Int32BE(blockSize));
    ok := raf.WriteInt(blockSize);
    OverwriteAtEnd(raf.content, Int32BE(hopSize));
    ok := raf.WriteInt(hopSize);
    OverwriteAtEnd(raf.content, Int32BE(samplingrate));
    ok := raf.WriteInt(samplingrate);
    OverwriteAtEnd(raf.content, LowBytes(stamp[9..]));
    ok := raf.WriteBytes(stamp[9..]);
  }

  /** The start timestamp of block `i` of a file, relative to the file start. */
  function HopStart(i: int, hop: real): real
  {
    i as real * hop
  }

  /**
   * Record `i` of a file is block `i` of the file with the timestamps `i` hops after the file
   * start, one block duration apart.
   */
  ghost predicate RecordsMatch(blocks: seq<Block>, records: seq<seq<byte>>, hop: real, duration: real,
                               size: nat, f32: real -> Word)
    decreases |blocks|
  {
    |blocks| == |records|
    && (|blocks| > 0 ==>
          var n := |blocks| - 1;
          RecordsMatch(blocks[..n], records[..n], hop, duration, size, f32)
          && Record(HopStart(n, hop), HopStart(n, hop) + duration, blocks[n], size, f32) == Some(records[n]))
  }

  lemma {:induction false} RecordsMatchAt(blocks: seq<Block>, records: seq<seq<byte>>, hop: real,
                                          duration: real, size: nat, f32: real -> Word, i: nat)
    requires RecordsMatch(blocks, records, hop, duration, size, f32) && i < |blocks|
    ensures Record(HopStart(i, hop), HopStart(i, hop) + duration, blocks[i], size, f32) == Some(records[i])
    decreases |blocks|
  {
    var n := |blocks| - 1;
    if i < n {
      RecordsMatchAt(blocks[..n], records[..n], hop, duration, size, f32, i);
      assert blocks[..n][i] == blocks[i] && records[..n][i] == records[i];
    }
  }

  lemma RecordsMatchSnoc(blocks: seq<Block>, records: seq<seq<byte>>, hop: real, duration: real,
                         size: nat, f32: real -> Word, data: Block, record: seq<byte>)
    requires RecordsMatch(blocks, records, hop, duration, size, f32)
    requires Record(HopStart(|blocks|, hop), HopStart(|blocks|, hop) + duration, data, size, f32) == Some(record)
    ensures RecordsMatch(blocks + [data], records + [record], hop, duration, size, f32)
  {
    assert (blocks + [data])[..|blocks|] == blocks;
    assert (records + [record])[..|records|] == records;
  }

  lemma HopStartNext(i: int, hop: real)
    ensures HopStart(i + 1, hop) == HopStart(i, hop) + hop
  {
  }

  /**
   * The bytes of an open feature file: the header with placeholder counts, then one record of
   * `size` bytes per block written so far, the file pointer at the end.
   */
  ghost predicate FileHolds(content: seq<byte>, pos: int, header: seq<byte>, blocks: seq<Block>,
                            records: seq<seq<byte>>, count: int, size: nat, hop: real, duration: real,
                            f32: real -> Word)
  {
    |records| == count
    && (size == 0 ==> count == 0)
    && (forall i | 0 <= i < |records| :: |records[i]| == size)
    && RecordsMatch(blocks, records, hop, duration, size, f32)
    && content == header + Concat(records)
    && pos == |content|
  }

  lemma HopStartZero(hop: real)
    ensures HopStart(0, hop) == 0.0
  {
  }

  /** A file holding only its header holds no block. */
  lemma FileHoldsEmpty(header: seq<byte>, size: nat, hop: real, duration: real, f32: real -> Word)
    ensures FileHolds(header, |header|, header, [], [], 0, size, hop, duration, f32)
  {
    assert Concat([]) == [];
    assert header + [] == header;
  }

  /** Appending the record of the next block keeps the file in that shape. */
  lemma FileHoldsSnoc(content: seq<byte>, header: seq<byte>, blocks: seq<Block>, records: seq<seq<byte>>,
                      count: int, size: nat, hop: real, duration: real, f32: real -> Word,
                      data: Block, record: seq<byte>)
    requires FileHolds(content, |content|, header, blocks, records, count, size, hop, duration, f32)
    requires |record| == size > 0
    requires Record(HopStart(count, hop), HopStart(count, hop) + duration, data, size, f32) == Some(record)
    ensures FileHolds(Overwrite(content, |content|, record), |content| + |record|, header, blocks + [data],
                      records + [record], count + 1, size, hop, duration, f32)
  {
    OverwriteAtEnd(content, record);
    ConcatSnoc(records, record);
    assert |blocks| == count;
    RecordsMatchSnoc(blocks, records, hop, duration, size, f32, data, record);
    var longer := records + [record];
    forall i | 0 <= i < |longer| ensures |longer[i]| == size {
      if i < |records| {
        assert longer[i] == records[i];
      }
    }
  }

  /**
   * A closed feature file reads back: `29 + blockCount * size` bytes, the header values as
   * written, and record `i` holds block `i` with its start and end timestamps.
   */
  lemma ClosedFileReadsBack(blockCount: int, nFeatures: int, blockSize: int, hopSize: int,
                            samplingrate: int, stamp: Stamp, blocks: seq<Block>,
                            records: seq<seq<byte>>, hop: real, duration: real, size: nat,
                            f32: real -> Word)
    requires IsInt32(blockCount) && IsInt32(nFeatures) && IsInt32(blockSize)
    requires IsInt32(hopSize) && IsInt32(samplingrate)
    requires |records| == blockCount && forall i | 0 <= i < |records| :: |records[i]| == size
    requires RecordsMatch(blocks, records, hop, duration, size, f32)
    ensures var file := Header(blockCount, nFeatures, blockSize, hopSize, samplingrate, stamp) + Concat(records);
      |file| == HeaderSize + blockCount * size
      && ParseHeader(file)
         == Some(HeaderFields(blockCount, nFeatures, blockSize, hopSize, samplingrate, LowBytes(stamp[9..])))
      && forall i | 0 <= i < blockCount ::
           Record(HopStart(i, hop), HopStart(i, hop) + duration, blocks[i], size, f32)
           == Some(RecordAt(file, size, i))
  {
    FileReadsBack(blockCount, nFeatures, blockSize, hopSize, samplingrate, stamp, records, size);
    forall i | 0 <= i < blockCount
      ensures Record(HopStart(i, hop), HopStart(i, hop) + duration, blocks[i], size, f32) == Some(records[i])
    {
      RecordsMatchAt(blocks, records, hop, duration, size, f32, i);
    }
  }

  /** The name of a feature file: prefix, start time, extension (the directory is left out). */
  function FileName(prefix: string, stamp: Stamp): (n: string)
    ensures |n| == |prefix| + 24 && n[..|prefix|] == prefix && n[|prefix|] == '_'
    ensures n[|prefix| + 1 .. |prefix| + 19] == stamp && n[|prefix| + 19..] == Extension
  {
    prefix + "_" + stamp + Extension
  }

  /**
   * The timestamps of a file after `count` blocks: `count` hops after the file start and one
   * block apart; when a block is shorter than the threshold, the last block written ended below
   * it (the file would have been rotated away otherwise).
   */
  predicate Timed(rel0: real, rel1: real, count: int, hop: real, duration: real)
  {
    rel0 == HopStart(count, hop) && rel1 == rel0 + duration
    && (count > 0 && duration < FeatFileSizeMs ==> HopStart(count - 1, hop) + duration < FeatFileSizeMs)
  }

  /** Writing one more block below the threshold (or the first block of a file) keeps `Timed`. */
  lemma TimedStep(rel0: real, rel1: real, count: int, hop: real, duration: real)
    requires Timed(rel0, rel1, count, hop, duration) && count >= 0
    requires count == 0 || rel1 < FeatFileSizeMs
    ensures Timed(rel0 + hop, rel1 + hop, count + 1, hop, duration)
  {
    HopStartNext(count, hop);
    HopStartZero(hop);
  }

  /**
   * A file is rotated away while appending block `k` of it when `k` is the first block whose end
   * timestamp reaches the threshold: every earlier block ended below it, or the file was
   * rotated on its first block.
   */
  predicate FirstCrossing(k: nat, hop: real, duration: real)
  {
    HopStart(k, hop) + duration >= FeatFileSizeMs
    && (k == 0 || HopStart(k - 1, hop) + duration < FeatFileSizeMs)
  }

  lemma HopStartMonotone(i: int, j: int, hop: real)
    requires i <= j && hop >= 0.0
    ensures HopStart(i, hop) <= HopStart(j, hop)
  {
    assert HopStart(j, hop) - HopStart(i, hop) == (j - i) as real * hop;
    assert (j - i) as real >= 0.0;
  }

  /**
   * Every file after the first one starts with block count 0 and timestamps restarted
   * (`CreateFeatureFile`), and `Valid` keeps its end timestamp at `HopStart(blockCount, hop) +
   * duration`. The block `k` at which such a file is rotated away is therefore the same for every
   * rotation, and so is the end timestamp `HopStart(k, hop) + duration` that `AppendsTo` names
   * the next file after: the second and each later rotation reuse one file name.
   */
  lemma {:induction false} RotationsShareName(k1: nat, k2: nat, hop: real, duration: real)
    requires hop > 0.0
    requires FirstCrossing(k1, hop, duration) && FirstCrossing(k2, hop, duration)
    ensures k1 == k2
  {
    if k1 < k2 {
      HopStartMonotone(k1, k2 - 1, hop);
    } else if k2 < k1 {
      HopStartMonotone(k2, k1 - 1, hop);
    }
  }

  /**
   * What `appendFeature` changes in a writer: both timestamps, the file's start time, the file,
   * whether it is open and its bytes, feature dimension, record size, block count, and the blocks and
   * records of the current file.
   */
  datatype WriterState = WriterState(rel0: real, rel1: real, timestamp: Option<Stamp>,
                                     raf: RandomAccessFile?, open: bool, content: seq<byte>,
                                     nFeatures: int, bufferSize: int,
                                     blockCount: int, records: seq<seq<byte>>, blocks: seq<Block>)

  /**
   * The writer stage. `stage` is its inherited `Stage` part, which owns the inbound queue;
   * `inBlockSize` and `inHopSize` are the block and hop size of the stage that feeds it, and
   * `clock(ms)` is the formatted pipeline start time plus `ms` milliseconds.
   */
  class StageFeatureWrite {
    const stage: Stage
    const feature: string
    const inBlockSize: int
    const inHopSize: int
    const samplingrate: int
    const clock: int -> Stamp
    const f32: real -> Word
    const relTimestampMs: array<real>

    var featureRAF: RandomAccessFile?
    var timestamp: Option<Stamp>
    var nFeatures: int
    var blockCount: int
    var bufferSize: int
    var hopDuration: real

    /** The blocks appended to the current file since it was opened, and their records. */
    ghost var blocks: seq<Block>
    ghost var records: seq<seq<byte>>

    /** Length of one block of the feeding stage, in the unit of the timestamps. */
    function BlockDuration(): real
      requires samplingrate > 0
    {
      inBlockSize as real / samplingrate as real
    }

    /**
     * Once a file has been opened: the timestamps are `blockCount` hops after the file start and
     * one block apart. While the file is open it holds the header with the two placeholders and
     * the records written since, all `bufferSize` bytes long, and its pointer is at the end.
     */
    ghost predicate Valid()
      reads this, relTimestampMs, featureRAF
    {
      relTimestampMs.Length == 2 && samplingrate > 0
      && bufferSize == 4 * nFeatures && (nFeatures == 0 || nFeatures >= 2) && blockCount >= 0
      && (featureRAF != null ==>
            timestamp.Some? && featureRAF.pos <= |featureRAF.content|
            && hopDuration == inHopSize as real / samplingrate as real
            && Timed(relTimestampMs[0], relTimestampMs[1], blockCount, hopDuration, BlockDuration()))
      && (featureRAF != null && featureRAF.isOpen ==>
            FileHolds(featureRAF.content, featureRAF.pos,
                      Header(0, 0, inBlockSize, inHopSize, samplingrate, timestamp.value),
                      blocks, records, blockCount, bufferSize, hopDuration, BlockDuration(), f32))
    }

    /** The fields `appendFeature` changes, read off as one value. */
    ghost function State(): WriterState
      requires relTimestampMs.Length == 2
      reads this, relTimestampMs, featureRAF
    {
      WriterState(relTimestampMs[0], relTimestampMs[1], timestamp, featureRAF,
                  featureRAF != null && featureRAF.isOpen, if featureRAF != null then featureRAF.content else [],
                  nFeatures, bufferSize, blockCount, records, blocks)
    }

    constructor (stage: Stage, prefix: string, inBlockSize: int, inHopSize: int, samplingrate: int,
                 clock: int -> Stamp, f32: real -> Word)
      requires samplingrate > 0
      ensures Valid() && fresh(relTimestampMs)
      ensures this.stage == stage && feature == prefix && this.inBlockSize == inBlockSize
      ensures this.inHopSize == inHopSize && this.samplingrate == samplingrate
      ensures this.clock == clock && this.f32 == f32
      ensures featureRAF == null && timestamp == None && relTimestampMs[..] == [0.0, 0.0]
      ensures nFeatures == 0 && blockCount == 0 && bufferSize == 0
    {
      this.stage := stage;
      feature := prefix;
      this.inBlockSize := inBlockSize;
      this.inHopSize := inHopSize;
      this.samplingrate := samplingrate;
      this.clock := clock;
      this.f32 := f32;
      relTimestampMs := new real[2](_ => 0.0);
      featureRAF := null;
      timestamp := None;
      nFeatures := 0;
      blockCount := 0;
      bufferSize := 0;
      hopDuration := 0.0;
      records := [];
      blocks := [];
    }

    /**
     * Seek to 0 and patch block count and feature dimension into the header, then close. On a
     * file that is already closed the seek fails and nothing changes.
     */
    method CloseFeatureFile()
      requires Valid() && featureRAF != null
      modifies featureRAF
      ensures Valid() && !featureRAF.isOpen
      ensures old(featureRAF.isOpen) ==>
        featureRAF.content
        == Header(blockCount, nFeatures, inBlockSize, inHopSize, samplingrate, timestamp.value) + Concat(records)
      ensures !old(featureRAF.isOpen) ==> featureRAF.content == old(featureRAF.content)
      ensures old(featureRAF.isOpen) ==>
        |records| == blockCount && (forall i | 0 <= i < |records| :: |records[i]| == bufferSize)
        && RecordsMatch(blocks, records, hopDuration, BlockDuration(), bufferSize, f32)
    {
      var ok := featureRAF.Seek(0);
      if ok {
        PatchHeader(blockCount, nFeatures, inBlockSize, inHopSize, samplingrate, timestamp.value, Concat(records));
        ok := featureRAF.WriteInt(blockCount);
        ok := featureRAF.WriteInt(nFeatures);
        featureRAF.Close();
      }
    }

    /**
     * Close (and patch) the current file if there is one, then create
     * `prefix_timestamp.feat`, whose timestamp is the start time plus the end timestamp of the
     * last block, write its header and restart the block count and the timestamps.
     */
    method OpenFeatureFile()
      requires Valid()
      modifies this, relTimestampMs, featureRAF
      ensures Valid() && featureRAF != null && fresh(featureRAF) && featureRAF.isOpen
      ensures old(featureRAF) != null && old(featureRAF.isOpen) ==>
        !old(featureRAF).isOpen
        && old(featureRAF).content
           == Header(old(blockCount), old(nFeatures), inBlockSize, inHopSize, samplingrate,
                     old(timestamp).value) + old(Concat(records))
      ensures old(featureRAF) != null && !old(featureRAF.isOpen) ==>
        !old(featureRAF).isOpen && old(featureRAF).content == old(featureRAF.content)
      ensures timestamp == Some(clock(TruncToLong(old(relTimestampMs[1]))))
      ensures featureRAF.name == FileName(feature, timestamp.value)
      ensures featureRAF.content == Header(0, 0, inBlockSize, inHopSize, samplingrate, timestamp.value)
      ensures |featureRAF.content| == HeaderSize
      ensures blockCount == 0 && records == [] && blocks == []
      ensures relTimestampMs[..] == [0.0, BlockDuration()]
      ensures hopDuration == inHopSize as real / samplingrate as real
      ensures nFeatures == old(nFeatures) && bufferSize == old(bufferSize)
    {
      if featureRAF != null {
        CloseFeatureFile();
      }
      CreateFeatureFile();
    }

    /**
     * The second half of `openFeatureFile`: name the new file after the end timestamp, write its
     * header and restart the block count and the timestamps.
     */
    method CreateFeatureFile()
      requires Valid()
      modifies this`timestamp, this`featureRAF, this`blockCount, this`records, this`blocks
      modifies this`hopDuration, relTimestampMs
      ensures Valid() && featureRAF != null && fresh(featureRAF) && featureRAF.isOpen
      ensures timestamp == Some(clock(TruncToLong(old(relTimestampMs[1]))))
      ensures featureRAF.name == FileName(feature, timestamp.value)
      ensures featureRAF.content == Header(0, 0, inBlockSize, inHopSize, samplingrate, timestamp.value)
      ensures |featureRAF.content| == HeaderSize
      ensures blockCount == 0 && records == [] && blocks == []
      ensures relTimestampMs[..] == [0.0, BlockDuration()]
      ensures hopDuration == inHopSize as real / samplingrate as real
    {
      var stamp := clock(TruncToLong(relTimestampMs[1]));
      timestamp := Some(stamp);
      var raf := new RandomAccessFile(FileName(feature, stamp));
      featureRAF := raf;
      WriteHeader(raf, inBlockSize, inHopSize, samplingrate, stamp);
      blockCount := 0;
      records := [];
      blocks := [];
      relTimestampMs[0] := 0.0;
      hopDuration := inHopSize as real / samplingrate as real;
      relTimestampMs[1] := BlockDuration();
      HopStartZero(hopDuration);
      FileHoldsEmpty(raf.content, bufferSize, hopDuration, BlockDuration(), f32);
    }

    /**
     * The end of `appendFeature` once the record is built: advance both timestamps by one hop,
     * write the record at the file pointer and count the block, also when the write fails.
     */
    method StoreRecord(ghost data: Block, record: seq<byte>)
      requires Valid() && featureRAF != null && |record| == bufferSize > 0
      requires blockCount == 0 || relTimestampMs[1] < FeatFileSizeMs
      requires Record(relTimestampMs[0], relTimestampMs[1], data, bufferSize, f32) == Some(record)
      modifies this`blocks, this`records, this`blockCount, relTimestampMs, featureRAF
      ensures Valid() && featureRAF == old(featureRAF) && featureRAF.isOpen == old(featureRAF.isOpen)
      ensures blockCount == old(blockCount) + 1
      ensures featureRAF.isOpen ==> records == old(records) + [record] && blocks == old(blocks) + [data]
      ensures !featureRAF.isOpen ==> featureRAF.content == old(featureRAF.content)
    {
      TimedStep(relTimestampMs[0], relTimestampMs[1], blockCount, hopDuration, BlockDuration());
      relTimestampMs[0] := relTimestampMs[0] + hopDuration;
      relTimestampMs[1] := relTimestampMs[1] + hopDuration;
      ghost var content := featureRAF.content;
      var ok := featureRAF.Write(record);
      if ok {
        FileHoldsSnoc(content, Header(0, 0, inBlockSize, inHopSize, samplingrate, timestamp.value),
                      blocks, records, blockCount, bufferSize, hopDuration, BlockDuration(), f32, data, record);
        records := records + [record];
        blocks := blocks + [data];
      }
      HopStartNext(blockCount, hopDuration);
      blockCount := blockCount + 1;
    }

    /**
     * The first block ever fixes the feature dimension: its two timestamps and all its values.
     * No block has been counted yet, so the file shape holds for any record size.
     */
    method FixRecordSize(data: Block)
      requires Valid() && featureRAF != null
      modifies this`nFeatures, this`bufferSize
      ensures Valid() && bufferSize == 4 * nFeatures && nFeatures >= 2
      ensures nFeatures == (if old(bufferSize) == 0 then 2 + TotalLength(data) else old(nFeatures))
    {
      if bufferSize == 0 {
        var n := FeatureCount(data);
        nFeatures := n;
        bufferSize := n * 4;
      }
    }

    /**
     * What `appendFeature(data)` does, from state `s0` to state `s1`, on top of `Valid()` (a new
     * file is also fresh, which the methods state beside this). When the end timestamp has reached
     * the threshold, a new file is started first. The first block ever fixes the record size. The
     * record holds the pre-advance timestamps of the (possibly new) file. When it fits, the block
     * is counted and the timestamps advance by one hop (`Valid()`), and an open file gains the
     * record. When it does not fit (`overflow`), nothing is written, counted or advanced.
     */
    ghost predicate AppendsTo(s0: WriterState, s1: WriterState, data: Block, overflow: bool)
      requires samplingrate > 0 && s0.nFeatures >= 0
    {
      var rotate := s0.rel1 >= FeatFileSizeMs;
      var start := if rotate then 0.0 else s0.rel0;
      s1.raf != null
      && (rotate ==> s1.open && s1.timestamp == Some(clock(TruncToLong(s0.rel1)))
                     && s1.raf.name == FileName(feature, s1.timestamp.value))
      && (!rotate ==> s1.raf == s0.raf && s1.timestamp == s0.timestamp && s1.open == s0.open)
      && (!rotate && !s0.open ==> s1.content == s0.content)
      && RecordAppended(start, start + BlockDuration(), if rotate then 0 else s0.blockCount,
                        if rotate then [] else s0.records, if rotate then [] else s0.blocks,
                        s0.nFeatures, s0.bufferSize, s1, data, overflow)
    }

    /**
     * The part of `appendFeature` after the file is chosen, from timestamps `rel0` and `rel1`,
     * block count `count`, the records and blocks of the file so far and the feature dimension
     * and record size before the block: the first block ever fixes the record size, the record
     * holds the two timestamps, and when it fits the block is counted and an open file gains the
     * record; when it does not fit (`overflow`), nothing is counted or recorded.
     */
    ghost predicate RecordAppended(rel0: real, rel1: real, count: int, before: seq<seq<byte>>,
                                   appended: seq<Block>, nFeatures0: int, bufferSize0: int,
                                   s1: WriterState, data: Block, overflow: bool)
      requires nFeatures0 >= 0
    {
      var dim := if bufferSize0 == 0 then 2 + TotalLength(data) else nFeatures0;
      var rec := Record(rel0, rel1, data, 4 * dim, f32);
      s1.nFeatures == dim && s1.bufferSize == 4 * dim
      && overflow == rec.None?
      && s1.blockCount == count + (if overflow then 0 else 1)
      && (s1.open ==> s1.records == before + (if overflow then [] else [rec.value]))
      && (s1.open ==> s1.blocks == appended + (if overflow then [] else [data]))
    }

    /**
     * When `appendFeature` finds the end timestamp at the threshold, the block count is the first
     * block whose end reaches it (`FirstCrossing`), as long as one block is shorter than the
     * threshold. A longer block reaches it on its own: a file opened by a rotation then takes
     * its first block unchecked and is rotated away before the second.
     */
    lemma RotatesAtFirstCrossing()
      requires Valid() && featureRAF != null && relTimestampMs[1] >= FeatFileSizeMs
      requires BlockDuration() < FeatFileSizeMs
      ensures blockCount >= 0 && FirstCrossing(blockCount, hopDuration, BlockDuration())
    {
      if blockCount == 0 {
        HopStartZero(hopDuration);
      }
    }

    /** `appendFeature` is `openFeatureFile` when the threshold is reached, then the rest. */
    lemma AppendsToSteps(s0: WriterState, sm: WriterState, s1: WriterState, data: Block, overflow: bool)
      requires samplingrate > 0 && s0.nFeatures >= 0
      requires s0.rel1 >= FeatFileSizeMs ==>
        sm.open && sm.raf != null && sm.timestamp == Some(clock(TruncToLong(s0.rel1)))
        && sm.raf.name == FileName(feature, sm.timestamp.value)
        && sm.rel0 == 0.0 && sm.rel1 == BlockDuration() && sm.blockCount == 0
        && sm.records == [] && sm.blocks == []
        && sm.nFeatures == s0.nFeatures && sm.bufferSize == s0.bufferSize
      requires s0.rel1 < FeatFileSizeMs ==> sm == s0 && s0.raf != null && s0.rel1 == s0.rel0 + BlockDuration()
      requires s1.raf == sm.raf && s1.timestamp == sm.timestamp && s1.open == sm.open
      requires !sm.open ==> s1.content == sm.content
      requires RecordAppended(sm.rel0, sm.rel1, sm.blockCount, sm.records, sm.blocks,
                              sm.nFeatures, sm.bufferSize, s1, data, overflow)
      ensures AppendsTo(s0, s1, data, overflow)
    {
    }

    /**
     * `appendFeature`: start a new file if the end timestamp has reached the threshold, fix the
     * record size on the first block, build the record, advance the timestamps, write the record
     * and count the block (also when the write fails).
     */
    method AppendFeature(data: Block) returns (overflow: bool)
      requires Valid() && featureRAF != null
      modifies this, relTimestampMs, featureRAF
      ensures Valid() && AppendsTo(old(State()), State(), data, overflow)
      ensures old(relTimestampMs[1]) >= FeatFileSizeMs ==> fresh(featureRAF)
      ensures old(relTimestampMs[1]) >= FeatFileSizeMs && !old(featureRAF.isOpen) ==>
        old(featureRAF).content == old(featureRAF.content)
      ensures old(relTimestampMs[1]) >= FeatFileSizeMs && old(featureRAF.isOpen) ==>
        !old(featureRAF).isOpen
        && old(featureRAF).content
           == Header(old(blockCount), old(nFeatures), inBlockSize, inHopSize, samplingrate,
                     old(timestamp).value) + old(Concat(records))
    {
      if relTimestampMs[1] >= FeatFileSizeMs {
        overflow := RotateAndAppend(data);
      } else {
        ghost var s0 := State();
        overflow := AppendRecord(data);
        AppendsToSteps(s0, s0, State(), data, overflow);
      }
    }

    /** `appendFeature` once the end timestamp has reached the threshold: a new file first. */
    method RotateAndAppend(data: Block) returns (overflow: bool)
      requires Valid() && featureRAF != null && relTimestampMs[1] >= FeatFileSizeMs
      modifies this, relTimestampMs, featureRAF
      ensures Valid() && AppendsTo(old(State()), State(), data, overflow) && fresh(featureRAF)
      ensures !old(featureRAF.isOpen) ==> old(featureRAF).content == old(featureRAF.content)
      ensures old(featureRAF.isOpen) ==>
        !old(featureRAF).isOpen
        && old(featureRAF).content
           == Header(old(blockCount), old(nFeatures), inBlockSize, inHopSize, samplingrate,
                     old(timestamp).value) + old(Concat(records))
    {
      ghost var s0 := State();
      ghost var previous := featureRAF;
      OpenFeatureFile();
      ghost var sm := State();
      ghost var closed := previous.content;
      overflow := AppendRecord(data);
      assert previous.content == closed;
      AppendsToSteps(s0, sm, State(), data, overflow);
    }

    /**
     * `appendFeature` once the file is chosen: fix the record size on the first block, build the
     * record from the current timestamps and store it; an overflowing record changes nothing else.
     */
    method AppendRecord(data: Block) returns (overflow: bool)
      requires Valid() && featureRAF != null
      requires blockCount == 0 || relTimestampMs[1] < FeatFileSizeMs
      modifies this`nFeatures, this`bufferSize, this`blocks, this`records, this`blockCount
      modifies relTimestampMs, featureRAF
      ensures Valid() && featureRAF.isOpen == old(featureRAF.isOpen)
      ensures RecordAppended(old(relTimestampMs[0]), old(relTimestampMs[1]), old(blockCount),
                             old(records), old(blocks), old(nFeatures), old(bufferSize), State(),
                             data, overflow)
      ensures !featureRAF.isOpen ==> featureRAF.content == old(featureRAF.content)
    {
      FixRecordSize(data);
      var record := FillRecord(bufferSize, relTimestampMs[0], relTimestampMs[1], data, f32);
      if record.None? {
        return true;
      }
      StoreRecord(data, record.value);
      overflow := false;
    }

    /**
     * `process`: report the block's shape, which fails on a block without channels
     * (`crashed`, nothing else happens), then append it; an overflowing record also ends the
     * stage's thread (`crashed`).
     */
    method Process(data: Block) returns (crashed: bool)
      requires Valid() && featureRAF != null
      modifies this, relTimestampMs, featureRAF
      ensures Valid()
      ensures |data| == 0 ==> crashed && unchanged(this, relTimestampMs, old(featureRAF))
      ensures |data| > 0 ==> AppendsTo(old(State()), State(), data, crashed)
      ensures |data| > 0 && old(relTimestampMs[1]) >= FeatFileSizeMs ==> fresh(featureRAF)
      ensures |data| > 0 && old(relTimestampMs[1]) >= FeatFileSizeMs && !old(featureRAF.isOpen) ==>
        old(featureRAF).content == old(featureRAF.content)
      ensures |data| > 0 && old(relTimestampMs[1]) >= FeatFileSizeMs && old(featureRAF.isOpen) ==>
        !old(featureRAF).isOpen
        && old(featureRAF).content
           == Header(old(blockCount), old(nFeatures), inBlockSize, inHopSize, samplingrate,
                     old(timestamp).value) + old(Concat(records))
    {
      if |data| == 0 {
        return true;
      }
      crashed := AppendFeature(data);
    }

    /**
     * The writer's `rebuffer`: no windowing; take one block from the inbound queue and process
     * it. An empty queue hands `null` to `process`, which fails at once (`crashed`).
     */
    method Rebuffer() returns (crashed: bool)
      requires Valid() && featureRAF != null && stage.inQueue != null
      modifies this, relTimestampMs, featureRAF, stage.inQueue
      ensures Valid() && stage.inQueue == old(stage.inQueue)
      ensures old(stage.inQueue.items) == [] ==>
        crashed && stage.inQueue.items == [] && unchanged(this, relTimestampMs, old(featureRAF))
      ensures old(stage.inQueue.items) != [] ==> stage.inQueue.items == old(stage.inQueue.items)[1..]
      ensures old(stage.inQueue.items) != [] && old(stage.inQueue.items)[0] == [] ==>
        crashed && unchanged(this, relTimestampMs, old(featureRAF))
      ensures old(stage.inQueue.items) != [] && old(stage.inQueue.items)[0] != [] ==>
        AppendsTo(old(State()), State(), old(stage.inQueue.items)[0], crashed)
        && (old(relTimestampMs[1]) >= FeatFileSizeMs ==> fresh(featureRAF))
      ensures old(stage.inQueue.items) != [] && old(stage.inQueue.items)[0] != []
              && old(relTimestampMs[1]) >= FeatFileSizeMs && !old(featureRAF.isOpen) ==>
        old(featureRAF).content == old(featureRAF.content)
      ensures old(stage.inQueue.items) != [] && old(stage.inQueue.items)[0] != []
              && old(relTimestampMs[1]) >= FeatFileSizeMs && old(featureRAF.isOpen) ==>
        !old(featureRAF).isOpen
        && old(featureRAF).content
           == Header(old(blockCount), old(nFeatures), inBlockSize, inHopSize, samplingrate,
                     old(timestamp).value) + old(Concat(records))
    {
      var data := stage.Receive();
      assert State() == old(State());
      if data.None? {
        return true;
      }
      crashed := Process(data.value);
    }
  }
}
