/**
 * A pipeline stage: its parameters, its inbound queue, the outbound queues that fan out to its
 * consumers, and the `rebuffer` loop that cuts the inbound blocks into overlapping windows.
 * Queues are objects shared by one producer and one consumer, as in the source.
 */
module Stages {
  import opened Common
  import opened Windowing

  /** A FIFO of blocks (`LinkedBlockingQueue<float[][]>`), unbounded and never blocking here. */
  class BlockQueue {
    var items: seq<Block>

    constructor ()
      ensures items == []
    {
      items := [];
    }

    /** `put`: append at the tail. */
    method Put(data: Block)
      modifies this
      ensures items == old(items) + [data]
    {
      items := items + [data];
    }

    /** `poll`: remove and return the head, or nothing when the queue is empty. */
    method Poll() returns (data: Option<Block>)
      modifies this
      ensures old(items) == [] ==> data == None && items == []
      ensures old(items) != [] ==> data == Some(old(items)[0]) && items == old(items)[1..]
    {
      if items == [] {
        data := None;
      } else {
        data := Some(items[0]);
        items := items[1..];
      }
    }
  }

  /** The two rows of a window buffer, as values. */
  function Snapshot(buffer: array2<Sample>): (rows: Rows)
    reads buffer
    requires buffer.Length0 == Channels
  {
    [ seq(buffer.Length1, j requires 0 <= j < buffer.Length1 reads buffer => buffer[0, j]),
      seq(buffer.Length1, j requires 0 <= j < buffer.Length1 reads buffer => buffer[1, j]) ]
  }

  /**
   * The channel loop of `rebuffer` for one column: `buffer[m][s] = block[m][k]` for increasing
   * `m`, stopping where the store or the read would fail. Returns that channel index.
   */
  method CopyColumn(buffer: array2<Sample>, s: nat, block: Block, k: nat) returns (m: nat)
    requires buffer.Length0 == Channels && s < buffer.Length1
    modifies buffer
    ensures m == FirstFault(block, k, 0)
    ensures Snapshot(buffer) == WriteColumn(old(Snapshot(buffer)), s, block, k, m)
  {
    m := 0;
    while m < |block| && m < Channels && k < |block[m]|
      invariant 0 <= m <= |block| && m <= Channels
      invariant FirstFault(block, k, m) == FirstFault(block, k, 0)
      invariant forall i | 0 <= i < m :: k < |block[i]|
      invariant forall i, j | 0 <= i < Channels && 0 <= j < buffer.Length1 ::
        buffer[i, j] == if i < m && j == s then block[i][k] else old(buffer[i, j])
    {
      buffer[m, s] := block[m][k];
      m := m + 1;
    }
    ghost var before := old(Snapshot(buffer));
    ghost var after := WriteColumn(before, s, block, k, m);
    assert Snapshot(buffer)[0] == after[0];
    assert Snapshot(buffer)[1] == after[1];
  }

  /** `System.arraycopy(buffer[row], hop, buffer[row], 0, len)` on one row of the buffer. */
  method CopyWithinRow(buffer: array2<Sample>, row: nat, hop: nat, len: nat)
    requires row < buffer.Length0 && hop + len <= buffer.Length1
    modifies buffer
    ensures forall i, j | 0 <= i < buffer.Length0 && 0 <= j < buffer.Length1 ::
      buffer[i, j] == if i == row && j < len then old(buffer[i, j + hop]) else old(buffer[i, j])
  {
    var j := 0;
    while j < len
      invariant 0 <= j <= len
      invariant forall i, j' | 0 <= i < buffer.Length0 && 0 <= j' < buffer.Length1 ::
        buffer[i, j'] == if i == row && j' < j then old(buffer[i, j' + hop]) else old(buffer[i, j'])
    {
      buffer[row, j] := buffer[row, j + hop];
      j := j + 1;
    }
  }

  /** `System.arraycopy(buffer[row], hop, buffer[row], 0, blockSize - hop)`, as rows. */
  method ShiftRowInPlace(buffer: array2<Sample>, row: nat, hop: nat)
    requires buffer.Length0 == Channels && row < Channels && hop <= buffer.Length1
    modifies buffer
    ensures Snapshot(buffer) == old(Snapshot(buffer))[row := ShiftRow(old(Snapshot(buffer))[row], hop)]
  {
    ghost var before := Snapshot(buffer);
    CopyWithinRow(buffer, row, hop, buffer.Length1 - hop);
    ghost var after := before[row := ShiftRow(before[row], hop)];
    assert Snapshot(buffer)[0] == after[0];
    assert Snapshot(buffer)[1] == after[1];
  }

  /** The shift after a window: the first `n` rows move left by `hop`. */
  method ShiftLeft(buffer: array2<Sample>, n: nat, hop: nat)
    requires buffer.Length0 == Channels && n <= Channels && hop <= buffer.Length1
    modifies buffer
    ensures Snapshot(buffer) == ShiftRows(old(Snapshot(buffer)), n, hop)
  {
    ghost var before := Snapshot(buffer);
    var i := 0;
    while i < n
      invariant 0 <= i <= n
      invariant Snapshot(buffer) == ShiftRows(before, i, hop)
    {
      ShiftRowInPlace(buffer, i, hop);
      assert ShiftRows(before, i + 1, hop) == ShiftRows(before, i, hop)[i := ShiftRow(before[i], hop)];
      i := i + 1;
    }
  }

  class Stage {
    const id: int
    /** Window length in samples. */
    const blockSize: int
    /** Advance between windows in samples. */
    const hopSize: int
    var hasInput: bool
    var inQueue: BlockQueue?
    var outQueue: set<BlockQueue>
    var consumerSet: seq<Stage>
    /** The windows handed to `process`, in order (the processing callback, as a record). */
    var processed: seq<Rows>

    /** Parameters already parsed: an absent block size is 400, an absent hop size the block size. */
    constructor (id: int, blockSizeParam: Option<int>, hopSizeParam: Option<int>)
      ensures this.id == id
      ensures blockSize == if blockSizeParam.None? then 400 else blockSizeParam.value
      ensures hopSize == if hopSizeParam.None? then blockSize else hopSizeParam.value
      ensures hasInput && inQueue == null && outQueue == {} && consumerSet == [] && processed == []
    {
      this.id := id;
      var bs := if blockSizeParam.None? then 400 else blockSizeParam.value;
      blockSize := bs;
      hopSize := if hopSizeParam.None? then bs else hopSizeParam.value;
      hasInput := true;
      inQueue := null;
      outQueue := {};
      consumerSet := [];
      processed := [];
    }

    /** Poll the inbound queue: its head, or nothing when it is empty. */
    method Receive() returns (data: Option<Block>)
      requires inQueue != null
      modifies inQueue
      ensures old(inQueue.items) == [] ==> data == None && inQueue.items == []
      ensures old(inQueue.items) != [] ==>
        data == Some(old(inQueue.items)[0]) && inQueue.items == old(inQueue.items)[1..]
    {
      data := inQueue.Poll();
    }

    /** Put the same block at the tail of every outbound queue; nothing else changes. */
    method Send(data: Block)
      modifies outQueue
      ensures forall q | q in outQueue :: q.items == old(q.items) + [data]
    {
      var pending := outQueue;
      while pending != {}
        invariant pending <= outQueue
        invariant forall q | q in outQueue :: q.items == old(q.items) + (if q in pending then [] else [data])
        decreases pending
      {
        var q :| q in pending;
        q.Put(data);
        pending := pending - {q};
      }
    }

    method SetInQueue(queue: BlockQueue?)
      modifies this
      ensures inQueue == queue
      ensures outQueue == old(outQueue) && consumerSet == old(consumerSet) && processed == old(processed)
      ensures hasInput == old(hasInput)
    {
      inQueue := queue;
    }

    /**
     * Wire `consumer` behind this stage: a fresh empty queue becomes the consumer's inbound queue
     * and one more outbound queue of this stage, and the consumer is appended to `consumerSet`.
     */
    method AddConsumer(consumer: Stage)
      modifies this, consumer
      ensures consumer.inQueue != null && fresh(consumer.inQueue) && consumer.inQueue.items == []
      ensures outQueue == old(outQueue) + {consumer.inQueue}
      ensures consumerSet == old(consumerSet) + [consumer]
      ensures processed == old(processed) && hasInput == old(hasInput)
      ensures consumer != this ==> inQueue == old(inQueue)
      ensures consumer != this ==>
        consumer.outQueue == old(consumer.outQueue) && consumer.consumerSet == old(consumer.consumerSet)
        && consumer.processed == old(consumer.processed) && consumer.hasInput == old(consumer.hasInput)
    {
      var queue := new BlockQueue();
      consumer.SetInQueue(queue);
      outQueue := outQueue + {queue};
      consumerSet := consumerSet + [consumer];
    }

    /**
     * One pass of the column loop of `rebuffer`: copy column `k`; when it is complete, count it,
     * and process and shift a full buffer. Returns the channel where copying stopped.
     */
    method CopySample(buffer: array2<Sample>, samples0: nat, block: Block, k: nat,
                      ghost base: seq<Rows>, ghost emitted0: seq<Rows>)
      returns (m: nat, samples: nat, ghost emitted: seq<Rows>)
      requires ValidConfig(blockSize, hopSize) && buffer.Length0 == Channels && 1 <= |block|
      requires k < |block[0]|
      requires Fits(WindowState(Snapshot(buffer), samples0, emitted0), blockSize)
      requires processed == base + emitted0
      modifies this`processed, buffer
      ensures m == FirstFault(block, k, 0) && processed == base + emitted
      ensures var cur := WindowState(old(Snapshot(buffer)), samples0, emitted0);
        WindowState(Snapshot(buffer), samples, emitted)
        == if m < |block| then cur.(rows := WriteColumn(cur.rows, samples0, block, k, m))
           else TakeSample(cur, block, k, blockSize, hopSize)
    {
      samples, emitted := samples0, emitted0;
      m := CopyColumn(buffer, samples, block, k);
      if m == |block| {
        samples := samples + 1;
        if samples >= blockSize {
          var window := Snapshot(buffer);
          processed := processed + [window];
          emitted := emitted + [window];
          samples := blockSize - hopSize;
          ShiftLeft(buffer, |block|, hopSize);
        }
      }
    }

    /**
     * The column loop of `rebuffer` for one block with at least one channel: each complete column
     * advances `samples`; a full buffer is processed and shifted; a failing column ends the block.
     */
    method CopyBlock(buffer: array2<Sample>, samples0: nat, block: Block,
                     ghost base: seq<Rows>, ghost emitted0: seq<Rows>)
      returns (samples: nat, ghost emitted: seq<Rows>)
      requires ValidConfig(blockSize, hopSize) && buffer.Length0 == Channels && 1 <= |block|
      requires Fits(WindowState(Snapshot(buffer), samples0, emitted0), blockSize)
      requires processed == base + emitted0
      modifies this`processed, buffer
      ensures WindowState(Snapshot(buffer), samples, emitted)
        == FeedFrom(WindowState(old(Snapshot(buffer)), samples0, emitted0), block, 0, blockSize, hopSize)
      ensures processed == base + emitted
    {
      ghost var start := WindowState(Snapshot(buffer), samples0, emitted0);
      samples, emitted := samples0, emitted0;
      var k := 0;
      var faulted := false;
      while k < |block[0]| && !faulted
        invariant 0 <= k <= |block[0]|
        invariant Fits(WindowState(Snapshot(buffer), samples, emitted), blockSize)
        invariant processed == base + emitted
        invariant faulted ==>
          WindowState(Snapshot(buffer), samples, emitted) == FeedFrom(start, block, 0, blockSize, hopSize)
        invariant !faulted ==>
          FeedFrom(WindowState(Snapshot(buffer), samples, emitted), block, k, blockSize, hopSize)
          == FeedFrom(start, block, 0, blockSize, hopSize)
        decreases |block[0]| - k, !faulted
      {
        var m;
        m, samples, emitted := CopySample(buffer, samples, block, k, base, emitted);
        if m < |block| {
          // the exception is caught: the rest of this block is skipped
          faulted := true;
        } else {
          k := k + 1;
        }
      }
    }

    /**
     * The windowing loop: poll blocks until the queue yields nothing, copy them column by column
     * into a fresh two-row buffer, hand every full buffer to `process` and shift it by `hopSize`.
     * Exactly the windows of `Run` are processed, and the blocks `Run` leaves stay queued.
     */
    method Rebuffer() returns (crashed: bool)
      requires inQueue != null && ValidConfig(blockSize, hopSize)
      modifies this, inQueue
      ensures inQueue == old(inQueue) && outQueue == old(outQueue) && consumerSet == old(consumerSet)
      ensures hasInput == old(hasInput)
      ensures var r := Run(Initial(blockSize), old(inQueue.items), blockSize, hopSize);
        processed == old(processed) + r.state.windows && inQueue.items == r.rest && crashed == r.crashed
    {
      var buffer := new Sample[Channels, blockSize]((i, j) => 0.0);
      assert Snapshot(buffer)[0] == Initial(blockSize).rows[0];
      assert Snapshot(buffer)[1] == Initial(blockSize).rows[1];
      var samples: nat := 0;
      ghost var emitted: seq<Rows> := [];
      ghost var goal := Run(Initial(blockSize), inQueue.items, blockSize, hopSize);
      crashed := false;
      var abort := false;
      while !abort
        invariant inQueue == old(inQueue) && outQueue == old(outQueue) && consumerSet == old(consumerSet)
        invariant hasInput == old(hasInput)
        invariant Fits(WindowState(Snapshot(buffer), samples, emitted), blockSize)
        invariant processed == old(processed) + emitted
        invariant !abort ==>
          Run(WindowState(Snapshot(buffer), samples, emitted), inQueue.items, blockSize, hopSize) == goal
        invariant !abort ==> !crashed
        invariant abort ==> goal == RunResult(WindowState(Snapshot(buffer), samples, emitted), inQueue.items, crashed)
        decreases |inQueue.items|, !abort
      {
        ghost var queued := inQueue.items;
        var dataIn := Receive();
        if dataIn.None? {
          abort := true;
        } else if |dataIn.value| == 0 {
          // dataIn[0] fails in the loop condition, and again in the handler's diagnostics
          assert queued[0] == dataIn.value;
          crashed := true;
          abort := true;
        } else {
          assert queued[0] == dataIn.value;
          samples, emitted := CopyBlock(buffer, samples, dataIn.value, old(processed), emitted);
        }
      }
    }
  }
}
