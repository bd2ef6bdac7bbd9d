/**
 * The sliding-window engine of a stage, as values: what `Stage.rebuffer` does to its window
 * buffer, its fill counter `samples` and the list of windows it hands to `process`, one sample
 * column at a time. `Stages.Stage.Rebuffer` is proved to compute exactly `Run`.
 */
module Windowing {
  import opened Common

  /** `rebuffer` always allocates two rows, whatever the input's channel count. */
  const Channels := 2

  /** The window buffer: `Channels` rows of `blockSize` samples. */
  type Rows = seq<seq<Sample>>

  /** The engine's state between two samples: buffer, fill counter, windows processed so far. */
  datatype WindowState = WindowState(rows: Rows, samples: nat, windows: seq<Rows>)

  /** What the engine needs of its configuration (nothing in the source checks it). */
  predicate ValidConfig(blockSize: int, hopSize: int)
  {
    0 < hopSize <= blockSize
  }

  /** Buffer shape and the fill-counter invariant: between samples, `samples < blockSize`. */
  predicate Fits(st: WindowState, blockSize: int)
  {
    |st.rows| == Channels && |st.rows[0]| == blockSize && |st.rows[1]| == blockSize
    && st.samples < blockSize
    && forall j | 0 <= j < |st.windows| :: |st.windows[j]| == Channels
  }

  /** A freshly allocated, zero-filled buffer with nothing in it. */
  function Initial(blockSize: nat): (st: WindowState)
    ensures 0 < blockSize ==> Fits(st, blockSize)
    ensures st.samples == 0 && st.windows == []
    ensures forall i, j | 0 <= i < Channels && 0 <= j < blockSize :: st.rows[i][j] == 0.0
  {
    var zeros := seq(blockSize, _ => 0.0);
    WindowState([zeros, zeros], 0, [])
  }

  /**
   * The channel index at which copying column `k` of `block` fails, scanning from channel `m`:
   * `buffer[m]` is out of range once `m >= Channels`, and `dataIn[m][k]` once row `m` is too
   * short. `|block|` when the whole column can be copied.
   */
  function FirstFault(block: Block, k: nat, m: nat): (f: nat)
    requires m <= |block|
    ensures m <= f <= |block|
    ensures m < f ==> f <= Channels
    ensures forall i | m <= i < f :: i < Channels && k < |block[i]|
    ensures f < |block| ==> Channels <= f || |block[f]| <= k
    decreases |block| - m
  {
    if m == |block| then m
    else if Channels <= m || |block[m]| <= k then m
    else FirstFault(block, k, m + 1)
  }

  /** The buffer after `buffer[i][s] = block[i][k]` for the channels `i < f`. */
  function WriteColumn(rows: Rows, s: nat, block: Block, k: nat, f: nat): Rows
    requires |rows| == Channels && s < |rows[0]| && s < |rows[1]|
    requires f <= Channels && f <= |block|
    requires forall i | 0 <= i < f :: k < |block[i]|
  {
    [ if 0 < f then rows[0][s := block[0][k]] else rows[0],
      if 1 < f then rows[1][s := block[1][k]] else rows[1] ]
  }

  /** `System.arraycopy(row, hop, row, 0, |row| - hop)`: the row shifted left by `hop`. */
  function ShiftRow(row: seq<Sample>, hop: nat): seq<Sample>
    requires hop <= |row|
  {
    row[hop..] + row[|row| - hop..]
  }

  /** The shift applied to the first `n` rows only (the source loops over the input's channels). */
  function ShiftRows(rows: Rows, n: nat, hop: nat): Rows
    requires |rows| == Channels && hop <= |rows[0]| && hop <= |rows[1]|
  {
    [ if 0 < n then ShiftRow(rows[0], hop) else rows[0],
      if 1 < n then ShiftRow(rows[1], hop) else rows[1] ]
  }

  /**
   * Overlap shift: a shifted row starts with the old row's samples from `hop` on, keeps its
   * length, and the rows at or past `n` are untouched.
   */
  lemma ShiftKeepsOverlap(rows: Rows, n: nat, hop: nat)
    requires |rows| == Channels && hop <= |rows[0]| && hop <= |rows[1]|
    ensures var r := ShiftRows(rows, n, hop);
      |r| == Channels
      && forall i | 0 <= i < Channels ::
           |r[i]| == |rows[i]|
           && (i < n ==> r[i][..|rows[i]| - hop] == rows[i][hop..])
           && (n <= i ==> r[i] == rows[i])
  {
  }

  /** One complete column copied in; a full buffer is processed, then shifted. */
  function TakeSample(st: WindowState, block: Block, k: nat, blockSize: int, hopSize: int): (r: WindowState)
    requires ValidConfig(blockSize, hopSize) && Fits(st, blockSize)
    requires |block| <= Channels && forall i | 0 <= i < |block| :: k < |block[i]|
    ensures Fits(r, blockSize)
    ensures r.samples == if st.samples + 1 >= blockSize then blockSize - hopSize else st.samples + 1
    ensures |r.windows| == |st.windows| + (if st.samples + 1 >= blockSize then 1 else 0)
    ensures r.windows[..|st.windows|] == st.windows
    ensures st.samples + 1 >= blockSize ==>
      forall i | 0 <= i < |block| ::
        |r.windows[|st.windows|][i]| == blockSize && r.windows[|st.windows|][i][st.samples] == block[i][k]
  {
    var rows := WriteColumn(st.rows, st.samples, block, k, |block|);
    if st.samples + 1 >= blockSize then
      WindowState(ShiftRows(rows, |block|, hopSize), blockSize - hopSize, st.windows + [rows])
    else
      WindowState(rows, st.samples + 1, st.windows)
  }

  /**
   * Columns `k..` of a block with at least one channel. A failing column keeps the channels
   * already copied, leaves `samples` as it was, and skips the rest of the block.
   */
  function FeedFrom(st: WindowState, block: Block, k: nat, blockSize: int, hopSize: int): (r: WindowState)
    requires ValidConfig(blockSize, hopSize) && Fits(st, blockSize)
    requires 1 <= |block| && k <= |block[0]|
    ensures Fits(r, blockSize)
    ensures st.windows <= r.windows
    decreases |block[0]| - k
  {
    if k == |block[0]| then st
    else
      var f := FirstFault(block, k, 0);
      if f < |block| then st.(rows := WriteColumn(st.rows, st.samples, block, k, f))
      else FeedFrom(TakeSample(st, block, k, blockSize, hopSize), block, k + 1, blockSize, hopSize)
  }

  /** The end of a run: final engine state, blocks still queued, and whether the loop crashed. */
  datatype RunResult = RunResult(state: WindowState, rest: seq<Block>, crashed: bool)

  /**
   * The `rebuffer` loop over the queued blocks. It stops when the queue is empty (the poll yields
   * null). A block without channels makes the exception handler itself fail on `dataIn[0]`, which
   * ends the loop with the remaining blocks still queued.
   */
  function Run(st: WindowState, queue: seq<Block>, blockSize: int, hopSize: int): (r: RunResult)
    requires ValidConfig(blockSize, hopSize) && Fits(st, blockSize)
    ensures Fits(r.state, blockSize)
    ensures st.windows <= r.state.windows
    decreases |queue|
  {
    if queue == [] then RunResult(st, [], false)
    else if |queue[0]| == 0 then RunResult(st, queue[1..], true)
    else Run(FeedFrom(st, queue[0], 0, blockSize, hopSize), queue[1..], blockSize, hopSize)
  }

  /** The loop ends by draining the queue, unless a channel-less block crashes it first. */
  lemma {:induction false} RunTermination(st: WindowState, queue: seq<Block>, blockSize: int, hopSize: int)
    requires ValidConfig(blockSize, hopSize) && Fits(st, blockSize)
    ensures var r := Run(st, queue, blockSize, hopSize);
      (r.crashed <==> exists i | 0 <= i < |queue| :: |queue[i]| == 0)
      && (!r.crashed ==> r.rest == [])
      && (r.crashed ==> exists i | 0 <= i < |queue| ::
            |queue[i]| == 0 && r.rest == queue[i + 1..] && forall j | 0 <= j < i :: |queue[j]| > 0)
    decreases |queue|
  {
    if queue != [] && |queue[0]| != 0 {
      var next := FeedFrom(st, queue[0], 0, blockSize, hopSize);
      RunTermination(next, queue[1..], blockSize, hopSize);
      var r := Run(next, queue[1..], blockSize, hopSize);
      if r.crashed {
        var i :| 0 <= i < |queue[1..]| && |queue[1..][i]| == 0 && r.rest == queue[1..][i + 1..]
                 && forall j | 0 <= j < i :: |queue[1..][j]| > 0;
        assert queue[1..][i + 1..] == queue[i + 2..];
        assert |queue[i + 1]| == 0 && forall j | 0 <= j < i + 1 :: |queue[j]| > 0;
      } else {
        forall i | 0 <= i < |queue| ensures |queue[i]| != 0 {
          if i > 0 { assert queue[i] == queue[1..][i - 1]; }
        }
      }
    } else if queue != [] {
      assert |queue[0]| == 0;
    }
  }

  /** A malformed block of three or more channels: the first column is half copied (rows 0 and
      1), `samples` is not advanced, nothing is processed and the rest of the block is skipped. */
  lemma OverwideBlockKeepsPartialSample(st: WindowState, block: Block, blockSize: int, hopSize: int)
    requires ValidConfig(blockSize, hopSize) && Fits(st, blockSize)
    requires |block| > Channels && |block[0]| > 0 && |block[1]| > 0
    ensures var r := FeedFrom(st, block, 0, blockSize, hopSize);
      r.samples == st.samples && r.windows == st.windows
      && r.rows[0] == st.rows[0][st.samples := block[0][0]]
      && r.rows[1] == st.rows[1][st.samples := block[1][0]]
  {
    assert FirstFault(block, 0, 2) == 2;
    assert FirstFault(block, 0, 1) == 2;
    assert FirstFault(block, 0, 0) == 2;
  }

  /**
   * A jagged two-channel block whose row 1 is shorter (`L` samples) than row 0: columns `k..L-1`
   * are taken exactly as from the block cut to `L` columns; column `L` then fails on row 1 after
   * row 0 has been written, `samples` is not advanced, and the rest of the block is skipped.
   */
  lemma {:induction false} JaggedBlockKeepsPartialSample(st: WindowState, block: Block, k: nat,
                                                         blockSize: int, hopSize: int)
    requires ValidConfig(blockSize, hopSize) && Fits(st, blockSize)
    requires |block| == Channels && |block[1]| < |block[0]| && k <= |block[1]|
    ensures var L := |block[1]|;
      var mid := FeedFrom(st, [block[0][..L], block[1]], k, blockSize, hopSize);
      var r := FeedFrom(st, block, k, blockSize, hopSize);
      r.samples == mid.samples && r.windows == mid.windows
      && r.rows == [mid.rows[0][mid.samples := block[0][L]], mid.rows[1]]
    decreases |block[1]| - k
  {
    var L := |block[1]|;
    var cut := [block[0][..L], block[1]];
    if k == L {
      assert FirstFault(block, k, 1) == 1;
      assert FirstFault(block, k, 0) == 1;
    } else {
      assert FirstFault(block, k, 2) == 2 && FirstFault(cut, k, 2) == 2;
      assert FirstFault(block, k, 0) == 2 && FirstFault(cut, k, 0) == 2;
      assert TakeSample(st, block, k, blockSize, hopSize) == TakeSample(st, cut, k, blockSize, hopSize);
      JaggedBlockKeepsPartialSample(TakeSample(st, block, k, blockSize, hopSize), block, k + 1,
                                    blockSize, hopSize);
    }
  }

  // ---------------------------------------------------------------------------------------------
  // Window count and window contents for a well-formed stream.

  /** A block with `channels` rows of equal length. */
  predicate WellFormedBlock(block: Block, channels: nat)
  {
    |block| == channels && forall i | 0 <= i < |block| :: |block[i]| == |block[0]|
  }

  /** A queue of well-formed blocks that all have the same one or two channels. */
  predicate WellFormedStream(queue: seq<Block>, channels: nat)
  {
    1 <= channels <= Channels && forall j | 0 <= j < |queue| :: WellFormedBlock(queue[j], channels)
  }

  /** Channel `c` of a queue of blocks, as one contiguous stream in arrival order. */
  function Stream(queue: seq<Block>, c: nat): seq<Sample>
    requires forall j | 0 <= j < |queue| :: c < |queue[j]|
  {
    if queue == [] then [] else queue[0][c] + Stream(queue[1..], c)
  }

  /** The fill counter after `n` samples of a contiguous stream. */
  function FillAfter(n: nat, blockSize: int, hopSize: int): int
    requires ValidConfig(blockSize, hopSize)
  {
    if n < blockSize then n else blockSize - hopSize + (n - blockSize) % hopSize
  }

  /** The number of windows after `n` samples of a contiguous stream. */
  function WindowsAfter(n: nat, blockSize: int, hopSize: int): int
    requires ValidConfig(blockSize, hopSize)
  {
    if n < blockSize then 0 else (n - blockSize) / hopSize + 1
  }

  lemma MulAtLeast(a: int, d: int)
    requires 1 <= a && 0 < d
    ensures a * d >= d
  {
  }

  lemma DivModUnique(x: int, d: int, q: int, r: int)
    requires 0 < d && 0 <= r < d && x == q * d + r
    ensures x / d == q && x % d == r
  {
    var q', r' := x / d, x % d;
    assert x == q' * d + r';
    assert (q' - q) * d == q' * d - q * d;
    if q' > q {
      MulAtLeast(q' - q, d);
    } else if q' < q {
      assert (q - q') * d == q * d - q' * d;
      MulAtLeast(q - q', d);
    }
  }

  /** How one more sample moves the fill counter and the window count. */
  lemma CounterStep(n: nat, blockSize: int, hopSize: int)
    requires ValidConfig(blockSize, hopSize)
    ensures 0 <= FillAfter(n, blockSize, hopSize) <= n
    ensures FillAfter(n, blockSize, hopSize) < blockSize
    ensures FillAfter(n, blockSize, hopSize) + 1 >= blockSize ==>
      FillAfter(n + 1, blockSize, hopSize) == blockSize - hopSize
      && WindowsAfter(n + 1, blockSize, hopSize) == WindowsAfter(n, blockSize, hopSize) + 1
      && WindowsAfter(n, blockSize, hopSize) * hopSize == n + 1 - blockSize
    ensures FillAfter(n, blockSize, hopSize) + 1 < blockSize ==>
      FillAfter(n + 1, blockSize, hopSize) == FillAfter(n, blockSize, hopSize) + 1
      && WindowsAfter(n + 1, blockSize, hopSize) == WindowsAfter(n, blockSize, hopSize)
  {
    if n >= blockSize {
      var x := n - blockSize;
      var q, r := x / hopSize, x % hopSize;
      if r + 1 < hopSize {
        DivModUnique(x + 1, hopSize, q, r + 1);
      } else {
        DivModUnique(x + 1, hopSize, q + 1, 0);
      }
    } else if n + 1 == blockSize {
      DivModUnique(0, hopSize, 0, 0);
    }
  }

  /** The first `n` samples of `row` are the last `n` samples of the stream `s`. */
  ghost predicate HoldsTail(row: seq<Sample>, n: nat, s: seq<Sample>)
  {
    n <= |row| && n <= |s| && forall i | 0 <= i < n :: row[i] == s[|s| - n + i]
  }

  /** Channel `c` of window `j` is the stream's `blockSize` samples starting at `j * hopSize`. */
  ghost predicate WindowsMatch(ws: seq<Rows>, s: seq<Sample>, c: nat, blockSize: int, hopSize: int)
    requires ValidConfig(blockSize, hopSize)
  {
    forall j | 0 <= j < |ws| ::
      c < |ws[j]| && j * hopSize + blockSize <= |s|
      && ws[j][c] == s[j * hopSize .. j * hopSize + blockSize]
  }

  /**
   * The engine state after the stream `s` of channel `c`: the counter and window count are those
   * of `|s|` samples, the filled part of row `c` holds the last `samples` samples, and the windows
   * match the stream.
   */
  ghost predicate Tracks(st: WindowState, s: seq<Sample>, c: nat, blockSize: int, hopSize: int)
    requires ValidConfig(blockSize, hopSize)
  {
    Fits(st, blockSize) && c < Channels
    && st.samples == FillAfter(|s|, blockSize, hopSize)
    && |st.windows| == WindowsAfter(|s|, blockSize, hopSize)
    && HoldsTail(st.rows[c], st.samples, s)
    && WindowsMatch(st.windows, s, c, blockSize, hopSize)
  }

  lemma WindowsMatchExtend(ws: seq<Rows>, s: seq<Sample>, x: Sample, c: nat, blockSize: int, hopSize: int)
    requires ValidConfig(blockSize, hopSize) && WindowsMatch(ws, s, c, blockSize, hopSize)
    ensures WindowsMatch(ws, s + [x], c, blockSize, hopSize)
  {
    forall j | 0 <= j < |ws|
      ensures (s + [x])[j * hopSize .. j * hopSize + blockSize] == s[j * hopSize .. j * hopSize + blockSize]
    {
    }
  }

  lemma WindowsMatchAppend(ws: seq<Rows>, s: seq<Sample>, w: Rows, c: nat, blockSize: int, hopSize: int)
    requires ValidConfig(blockSize, hopSize) && WindowsMatch(ws, s, c, blockSize, hopSize)
    requires |ws| * hopSize + blockSize == |s| && c < |w| && w[c] == s[|s| - blockSize..]
    ensures WindowsMatch(ws + [w], s, c, blockSize, hopSize)
  {
  }

  /** Writing the next stream sample at position `n` extends the held tail by one. */
  lemma HoldsTailWrite(row: seq<Sample>, n: nat, s: seq<Sample>, x: Sample)
    requires HoldsTail(row, n, s) && n < |row|
    ensures HoldsTail(row[n := x], n + 1, s + [x])
  {
  }

  /** Shifting a full row left by `hop` keeps the last `|row| - hop` samples at the front. */
  lemma HoldsTailShift(row: seq<Sample>, s: seq<Sample>, hop: nat)
    requires HoldsTail(row, |row|, s) && hop <= |row|
    ensures HoldsTail(ShiftRow(row, hop), |row| - hop, s)
  {
    forall i | 0 <= i < |row| - hop ensures ShiftRow(row, hop)[i] == row[i + hop] {
    }
  }

  lemma TakeSampleTracks(st: WindowState, s: seq<Sample>, c: nat, block: Block, k: nat,
                         blockSize: int, hopSize: int)
    requires ValidConfig(blockSize, hopSize) && Tracks(st, s, c, blockSize, hopSize)
    requires |block| <= Channels && c < |block| && forall i | 0 <= i < |block| :: k < |block[i]|
    ensures Tracks(TakeSample(st, block, k, blockSize, hopSize), s + [block[c][k]], c, blockSize, hopSize)
  {
    CounterStep(|s|, blockSize, hopSize);
    var x := block[c][k];
    var s' := s + [x];
    var rows := WriteColumn(st.rows, st.samples, block, k, |block|);
    assert rows[c] == st.rows[c][st.samples := x];
    HoldsTailWrite(st.rows[c], st.samples, s, x);
    WindowsMatchExtend(st.windows, s, x, c, blockSize, hopSize);
    if st.samples + 1 >= blockSize {
      WindowTracks(st, rows, s', c, |block|, blockSize, hopSize);
    }
  }

  /** The window case of `TakeSample`: the full buffer is the last `blockSize` samples. */
  lemma WindowTracks(st: WindowState, rows: Rows, s: seq<Sample>, c: nat, n: nat,
                     blockSize: int, hopSize: int)
    requires ValidConfig(blockSize, hopSize) && Fits(st, blockSize) && c < n <= Channels
    requires |rows| == Channels && |rows[0]| == blockSize && |rows[1]| == blockSize
    requires HoldsTail(rows[c], blockSize, s)
    requires WindowsMatch(st.windows, s, c, blockSize, hopSize)
    requires |st.windows| * hopSize + blockSize == |s|
    requires FillAfter(|s|, blockSize, hopSize) == blockSize - hopSize
    requires WindowsAfter(|s|, blockSize, hopSize) == |st.windows| + 1
    ensures Tracks(WindowState(ShiftRows(rows, n, hopSize), blockSize - hopSize, st.windows + [rows]),
                   s, c, blockSize, hopSize)
  {
    assert rows[c] == s[|s| - blockSize..];
    WindowsMatchAppend(st.windows, s, rows, c, blockSize, hopSize);
    var shifted := ShiftRows(rows, n, hopSize);
    assert shifted[c] == ShiftRow(rows[c], hopSize);
    HoldsTailShift(rows[c], s, hopSize);
  }

  lemma {:induction false} FeedFromTracks(st: WindowState, s: seq<Sample>, c: nat, block: Block,
                                          channels: nat, k: nat, blockSize: int, hopSize: int)
    requires ValidConfig(blockSize, hopSize) && Tracks(st, s, c, blockSize, hopSize)
    requires 1 <= channels <= Channels && WellFormedBlock(block, channels) && c < channels
    requires k <= |block[0]|
    ensures Tracks(FeedFrom(st, block, k, blockSize, hopSize), s + block[c][k..], c, blockSize, hopSize)
    decreases |block[0]| - k
  {
    if k == |block[0]| {
      assert block[c][k..] == [];
      assert s + block[c][k..] == s;
    } else {
      var f := FirstFault(block, k, 0);
      assert f == |block|;
      var next := TakeSample(st, block, k, blockSize, hopSize);
      TakeSampleTracks(st, s, c, block, k, blockSize, hopSize);
      FeedFromTracks(next, s + [block[c][k]], c, block, channels, k + 1, blockSize, hopSize);
      assert s + [block[c][k]] + block[c][k + 1..] == s + block[c][k..];
    }
  }

  lemma {:induction false} RunTracks(st: WindowState, s: seq<Sample>, c: nat, queue: seq<Block>,
                                     channels: nat, blockSize: int, hopSize: int)
    requires ValidConfig(blockSize, hopSize) && Tracks(st, s, c, blockSize, hopSize)
    requires WellFormedStream(queue, channels) && c < channels
    ensures var r := Run(st, queue, blockSize, hopSize);
      !r.crashed && r.rest == [] && Tracks(r.state, s + Stream(queue, c), c, blockSize, hopSize)
    decreases |queue|
  {
    if queue == [] {
      assert s + Stream(queue, c) == s;
    } else {
      assert WellFormedBlock(queue[0], channels);
      var next := FeedFrom(st, queue[0], 0, blockSize, hopSize);
      FeedFromTracks(st, s, c, queue[0], channels, 0, blockSize, hopSize);
      assert queue[0][c][0..] == queue[0][c];
      assert forall j | 0 <= j < |queue[1..]| :: queue[1..][j] == queue[j + 1];
      RunTracks(next, s + queue[0][c], c, queue[1..], channels, blockSize, hopSize);
      assert s + queue[0][c] + Stream(queue[1..], c) == s + Stream(queue, c);
    }
  }

  /** Window `j` of a stream: its `blockSize` samples from `j * hopSize` on; empty past the end. */
  function StreamWindow(s: seq<Sample>, j: nat, blockSize: int, hopSize: int): seq<Sample>
    requires ValidConfig(blockSize, hopSize)
  {
    var from := j * hopSize;
    if from + blockSize <= |s| then s[from .. from + blockSize] else []
  }

  /**
   * Window count and window contents: for a contiguous stream of `N` samples per channel, the
   * loop drains the queue and produces `floor((N - blockSize) / hopSize) + 1` windows (none when
   * `N < blockSize`), and channel `c` of window `j` is the stream's samples
   * `[j * hopSize, j * hopSize + blockSize)`.
   */
  lemma WindowContents(queue: seq<Block>, channels: nat, c: nat, blockSize: int, hopSize: int)
    requires ValidConfig(blockSize, hopSize)
    requires WellFormedStream(queue, channels) && c < channels
    ensures var r := Run(Initial(blockSize), queue, blockSize, hopSize);
      var s := Stream(queue, c);
      !r.crashed && r.rest == []
      && |r.state.windows| == (if |s| < blockSize then 0 else (|s| - blockSize) / hopSize + 1)
      && forall j | 0 <= j < |r.state.windows| ::
           |r.state.windows[j][c]| == blockSize && r.state.windows[j][c] == StreamWindow(s, j, blockSize, hopSize)
  {
    RunTracks(Initial(blockSize), [], c, queue, channels, blockSize, hopSize);
    var s := Stream(queue, c);
    assert [] + s == s;
    TracksWindows(Run(Initial(blockSize), queue, blockSize, hopSize).state, s, c, blockSize, hopSize);
  }

  /** A tracking state holds every window of the stream so far, each `blockSize` samples long. */
  lemma TracksWindows(st: WindowState, s: seq<Sample>, c: nat, blockSize: int, hopSize: int)
    requires ValidConfig(blockSize, hopSize) && Tracks(st, s, c, blockSize, hopSize)
    ensures |st.windows| == (if |s| < blockSize then 0 else (|s| - blockSize) / hopSize + 1)
    ensures forall j | 0 <= j < |st.windows| ::
              c < |st.windows[j]| && |st.windows[j][c]| == blockSize
              && st.windows[j][c] == StreamWindow(s, j, blockSize, hopSize)
  {
    forall j | 0 <= j < |st.windows|
      ensures c < |st.windows[j]| && |st.windows[j][c]| == blockSize
              && st.windows[j][c] == StreamWindow(s, j, blockSize, hopSize)
    {
      var from := j * hopSize;
      assert from + blockSize <= |s| && st.windows[j][c] == s[from .. from + blockSize];
    }
  }

  /** The channel `c` windows depend only on the stream, not on how it is cut into blocks. */
  lemma WindowsIgnoreSplit(q1: seq<Block>, q2: seq<Block>, channels: nat, c: nat, blockSize: int, hopSize: int)
    requires ValidConfig(blockSize, hopSize) && c < channels
    requires WellFormedStream(q1, channels) && WellFormedStream(q2, channels)
    requires Stream(q1, c) == Stream(q2, c)
    ensures var w1 := Run(Initial(blockSize), q1, blockSize, hopSize).state.windows;
      var w2 := Run(Initial(blockSize), q2, blockSize, hopSize).state.windows;
      |w1| == |w2| && forall j | 0 <= j < |w1| :: w1[j][c] == w2[j][c]
  {
    WindowContents(q1, channels, c, blockSize, hopSize);
    WindowContents(q2, channels, c, blockSize, hopSize);
  }

  /** blockSize 4, hopSize 2, one channel carrying 1..6 in two blocks: windows [1,2,3,4], [3,4,5,6]. */
  lemma HalfOverlapExample()
    ensures var r := Run(Initial(4), [[[1.0, 2.0, 3.0]], [[4.0, 5.0, 6.0]]], 4, 2);
      |r.state.windows| == 2
      && r.state.windows[0][0] == [1.0, 2.0, 3.0, 4.0]
      && r.state.windows[1][0] == [3.0, 4.0, 5.0, 6.0]
  {
    var q: seq<Block> := [[[1.0, 2.0, 3.0]], [[4.0, 5.0, 6.0]]];
    assert WellFormedBlock(q[0], 1) && WellFormedBlock(q[1], 1);
    assert Stream(q, 0) == [1.0, 2.0, 3.0, 4.0, 5.0, 6.0] by {
      assert q[1..][1..] == [];
    }
    WindowContents(q, 1, 0, 4, 2);
  }
}
