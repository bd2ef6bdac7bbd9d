/**
 * The byte layout of a feature file: a 29-byte header (block count, feature dimension, block
 * size, hop size, sampling rate as big-endian int32, then nine characters of the start time)
 * followed by fixed-size records of float32 values [start, end, features...].
 */
module FeatureFormat {
  import opened Common
  import opened Files

  const HeaderSize := 29

  /** A start time formatted as `yyyyMMdd_HHmmssSSS`: always 18 characters. */
  type Stamp = s: string | |s| == 18 witness "00000000_000000000"

  /** The encoding of one float32 value: four bytes. */
  type Word = w: seq<byte> | |w| == 4 witness [0, 0, 0, 0]

  /** The header as `openFeatureFile` writes it, with the two leading counts given. */
  function Header(blockCount: int, nFeatures: int, blockSize: int, hopSize: int,
                  samplingrate: int, stamp: Stamp): (h: seq<byte>)
    ensures |h| == HeaderSize
    ensures h[..4] == Int32BE(blockCount) && h[4..8] == Int32BE(nFeatures)
  {
    Int32BE(blockCount) + Int32BE(nFeatures) + Int32BE(blockSize) + Int32BE(hopSize)
    + Int32BE(samplingrate) + LowBytes(stamp[9..])
  }

  datatype HeaderFields = HeaderFields(blockCount: int, nFeatures: int, blockSize: int,
                                       hopSize: int, samplingrate: int, time: seq<byte>)

  /** What a reader of the file sees in its first 29 bytes. */
  function ParseHeader(file: seq<byte>): Option<HeaderFields>
  {
    if |file| < HeaderSize then None
    else Some(HeaderFields(ReadInt32BE(file[0..4]), ReadInt32BE(file[4..8]), ReadInt32BE(file[8..12]),
                           ReadInt32BE(file[12..16]), ReadInt32BE(file[16..20]), file[20..29]))
  }

  /** The header is 29 bytes and reads back as the values written, whatever follows it. */
  lemma HeaderRoundTrip(blockCount: int, nFeatures: int, blockSize: int, hopSize: int,
                        samplingrate: int, stamp: Stamp, body: seq<byte>)
    requires IsInt32(blockCount) && IsInt32(nFeatures) && IsInt32(blockSize)
    requires IsInt32(hopSize) && IsInt32(samplingrate)
    ensures |Header(blockCount, nFeatures, blockSize, hopSize, samplingrate, stamp)| == HeaderSize
    ensures ParseHeader(Header(blockCount, nFeatures, blockSize, hopSize, samplingrate, stamp) + body)
      == Some(HeaderFields(blockCount, nFeatures, blockSize, hopSize, samplingrate, LowBytes(stamp[9..])))
  {
    var file := Header(blockCount, nFeatures, blockSize, hopSize, samplingrate, stamp) + body;
    assert file[0..4] == Int32BE(blockCount);
    assert file[4..8] == Int32BE(nFeatures);
    assert file[8..12] == Int32BE(blockSize);
    assert file[12..16] == Int32BE(hopSize);
    assert file[16..20] == Int32BE(samplingrate);
    assert file[20..29] == LowBytes(stamp[9..]);
    Int32RoundTrip(blockCount);
    Int32RoundTrip(nFeatures);
    Int32RoundTrip(blockSize);
    Int32RoundTrip(hopSize);
    Int32RoundTrip(samplingrate);
  }

  /** Patching the two placeholders turns an open file's header into the final header. */
  lemma PatchHeader(blockCount: int, nFeatures: int, blockSize: int, hopSize: int,
                    samplingrate: int, stamp: Stamp, body: seq<byte>)
    ensures var file := Header(0, 0, blockSize, hopSize, samplingrate, stamp) + body;
      |file| >= 8
      && Overwrite(Overwrite(file, 0, Int32BE(blockCount)), 4, Int32BE(nFeatures))
         == Header(blockCount, nFeatures, blockSize, hopSize, samplingrate, stamp) + body
  {
    var file := Header(0, 0, blockSize, hopSize, samplingrate, stamp) + body;
    var patched := Overwrite(Overwrite(file, 0, Int32BE(blockCount)), 4, Int32BE(nFeatures));
    var final := Header(blockCount, nFeatures, blockSize, hopSize, samplingrate, stamp) + body;
    assert |patched| == |final|;
    forall i | 0 <= i < |final| ensures patched[i] == final[i] {
      if i < 4 {
        assert patched[0..4] == Int32BE(blockCount);
      } else if i < 8 {
        assert patched[4..8] == Int32BE(nFeatures);
      }
    }
  }

  /** The bytes of a sequence of float32 values, each encoded by `f32`. */
  function EncodeAll(xs: seq<real>, f32: real -> Word): (b: seq<byte>)
    ensures |b| == 4 * |xs|
  {
    if xs == [] then [] else f32(xs[0]) + EncodeAll(xs[1..], f32)
  }

  lemma {:induction false} EncodeAllAppend(xs: seq<real>, ys: seq<real>, f32: real -> Word)
    ensures EncodeAll(xs + ys, f32) == EncodeAll(xs, f32) + EncodeAll(ys, f32)
  {
    if xs == [] {
      assert xs + ys == ys;
    } else {
      assert (xs + ys)[1..] == xs[1..] + ys;
      EncodeAllAppend(xs[1..], ys, f32);
    }
  }

  /** Value `i` occupies bytes `[4 * i, 4 * i + 4)`. */
  lemma {:induction false} EncodeAllAt(xs: seq<real>, f32: real -> Word, i: nat)
    requires i < |xs|
    ensures EncodeAll(xs, f32)[4 * i .. 4 * i + 4] == f32(xs[i])
  {
    if i > 0 {
      EncodeAllAt(xs[1..], f32, i - 1);
      assert EncodeAll(xs, f32) == f32(xs[0]) + EncodeAll(xs[1..], f32);
    }
  }

  function Zeros(n: nat): (z: seq<byte>)
  {
    seq(n, _ => 0)
  }

  /**
   * The record `appendFeature` builds in a `size`-byte buffer: the timestamp pair and the
   * concatenated channels as float32 values, zero-padded; none when they do not fit
   * (`BufferOverflowException`).
   */
  function Record(rel0: real, rel1: real, data: Block, size: nat, f32: real -> Word): (r: Option<seq<byte>>)
    ensures r.Some? <==> 4 * (2 + TotalLength(data)) <= size
    ensures r.Some? ==> |r.value| == size
  {
    var values := [rel0, rel1] + Flatten(data);
    if 4 * |values| > size then None
    else Some(EncodeAll(values, f32) + Zeros(size - 4 * |values|))
  }

  /** Word `i` of a byte string: bytes `[4 * i, 4 * i + 4)`, empty past the end. */
  function WordAt(r: seq<byte>, i: nat): (w: seq<byte>)
    ensures |w| == 4 || |w| == 0
  {
    if 4 * i + 4 <= |r| then r[4 * i .. 4 * i + 4] else []
  }

  /**
   * Record layout: it exists exactly when the block has at most `size / 4 - 2` values; then it is
   * `size` bytes, words 0 and 1 are the start and end timestamps, word `i + 2` is value `i` of
   * the concatenated channels, and the rest is zero.
   */
  lemma RecordLayout(rel0: real, rel1: real, data: Block, size: nat, f32: real -> Word)
    ensures Record(rel0, rel1, data, size, f32).Some? <==> 8 + 4 * TotalLength(data) <= size
    ensures Record(rel0, rel1, data, size, f32).Some? ==>
      var r := Record(rel0, rel1, data, size, f32).value;
      |r| == size && WordAt(r, 0) == f32(rel0) && WordAt(r, 1) == f32(rel1)
      && (forall i | 0 <= i < TotalLength(data) :: WordAt(r, i + 2) == f32(Flatten(data)[i]))
      && (forall i | 8 + 4 * TotalLength(data) <= i < size :: r[i] == 0)
  {
    var values := [rel0, rel1] + Flatten(data);
    if 4 * |values| <= size {
      var r := Record(rel0, rel1, data, size, f32).value;
      var e := EncodeAll(values, f32);
      assert r == e + Zeros(size - 4 * |values|);
      EncodeAllAt(values, f32, 0);
      EncodeAllAt(values, f32, 1);
      forall i | 0 <= i < |values| ensures WordAt(r, i) == f32(values[i]) {
        EncodeAllAt(values, f32, i);
      }
      forall i | 0 <= i < TotalLength(data) ensures WordAt(r, i + 2) == f32(Flatten(data)[i]) {
        assert values[i + 2] == Flatten(data)[i];
      }
    }
  }

  /** A file body: records one after another. */
  function Concat(records: seq<seq<byte>>): seq<byte>
  {
    if records == [] then [] else records[0] + Concat(records[1..])
  }

  lemma {:induction false} ConcatSnoc(records: seq<seq<byte>>, r: seq<byte>)
    ensures Concat(records + [r]) == Concat(records) + r
  {
    if records == [] {
      assert records + [r] == [r];
    } else {
      assert (records + [r])[1..] == records[1..] + [r];
      ConcatSnoc(records[1..], r);
    }
  }

  lemma MulSucc(i: nat, size: nat)
    requires i > 0
    ensures i * size == (i - 1) * size + size
  {
  }

  /** Records of uniform size: the body has `n * size` bytes. */
  lemma {:induction false} ConcatLength(records: seq<seq<byte>>, size: nat)
    requires forall i | 0 <= i < |records| :: |records[i]| == size
    ensures |Concat(records)| == |records| * size
  {
    if records != [] {
      ConcatLength(records[1..], size);
      MulSucc(|records|, size);
    }
  }

  /** Records of uniform size: record `i` starts at `i * size`. */
  lemma {:induction false} ConcatAt(records: seq<seq<byte>>, size: nat, i: nat)
    requires forall j | 0 <= j < |records| :: |records[j]| == size
    requires i < |records|
    ensures i * size + size <= |Concat(records)|
    ensures Concat(records)[i * size .. i * size + size] == records[i]
  {
    var rest := records[1..];
    assert Concat(records) == records[0] + Concat(rest);
    if i > 0 {
      ConcatAt(rest, size, i - 1);
      MulSucc(i, size);
      var a := (i - 1) * size;
      assert Concat(records)[a + size .. a + size + size] == Concat(rest)[a .. a + size];
    }
  }

  lemma SliceAfterPrefix(h: seq<byte>, body: seq<byte>, a: nat, n: nat)
    requires a + n <= |body|
    ensures (h + body)[|h| + a .. |h| + a + n] == body[a .. a + n]
  {
  }

  /** Record `i` of a file with `size`-byte records, as a reader seeking to `29 + i * size` finds it. */
  function RecordAt(file: seq<byte>, size: nat, i: nat): (r: seq<byte>)
    ensures |r| <= size
  {
    var off := HeaderSize + i * size;
    if off + size <= |file| then file[off .. off + size] else []
  }

  /** Behind a 29-byte header, record `i` of a uniform body starts at offset `29 + i * size`. */
  lemma RecordInFile(h: seq<byte>, records: seq<seq<byte>>, size: nat, i: nat)
    requires |h| == HeaderSize && i < |records|
    requires forall j | 0 <= j < |records| :: |records[j]| == size
    ensures RecordAt(h + Concat(records), size, i) == records[i]
  {
    ConcatAt(records, size, i);
    SliceAfterPrefix(h, Concat(records), i * size, size);
  }

  /**
   * A closed feature file reads back: it is `29 + blockCount * size` bytes long, its header holds
   * the values written, and record `i` is at offset `29 + i * size`.
   */
  lemma FileReadsBack(blockCount: int, nFeatures: int, blockSize: int, hopSize: int,
                      samplingrate: int, stamp: Stamp, records: seq<seq<byte>>, size: nat)
    requires IsInt32(blockCount) && IsInt32(nFeatures) && IsInt32(blockSize)
    requires IsInt32(hopSize) && IsInt32(samplingrate)
    requires |records| == blockCount && forall i | 0 <= i < |records| :: |records[i]| == size
    ensures var file := Header(blockCount, nFeatures, blockSize, hopSize, samplingrate, stamp) + Concat(records);
      |file| == HeaderSize + blockCount * size
      && ParseHeader(file)
         == Some(HeaderFields(blockCount, nFeatures, blockSize, hopSize, samplingrate, LowBytes(stamp[9..])))
      && forall i | 0 <= i < blockCount :: RecordAt(file, size, i) == records[i]
  {
    HeaderRoundTrip(blockCount, nFeatures, blockSize, hopSize, samplingrate, stamp, Concat(records));
    ConcatLength(records, size);
    var h := Header(blockCount, nFeatures, blockSize, hopSize, samplingrate, stamp);
    forall i | 0 <= i < blockCount ensures RecordAt(h + Concat(records), size, i) == records[i] {
      RecordInFile(h, records, size, i);
    }
  }
}
