/** Types shared by the stage model and the feature-file model. */
module Common {

  /** An unsigned 8-bit value, one byte of a file. */
  type byte = b: int | 0 <= b < 256

  datatype Option<T> = None | Some(value: T)

  /** One sample value (a Java `float`). The windowing engine never inspects it. */
  type Sample = real

  /** A multichannel block (`float[][]`): one row of samples per channel, rows may be jagged. */
  type Block = seq<seq<Sample>>

  /** All rows of a block, concatenated in channel order. */
  function Flatten(rows: seq<seq<Sample>>): (flat: seq<Sample>)
    ensures |flat| == TotalLength(rows)
  {
    if rows == [] then [] else rows[0] + Flatten(rows[1..])
  }

  /** Sum of the row lengths of a block. */
  function TotalLength(rows: seq<seq<Sample>>): nat
  {
    if rows == [] then 0 else |rows[0]| + TotalLength(rows[1..])
  }

  lemma {:induction false} FlattenSnoc(rows: seq<seq<Sample>>, row: seq<Sample>)
    ensures Flatten(rows + [row]) == Flatten(rows) + row
  {
    if rows == [] {
      assert rows + [row] == [row];
    } else {
      assert (rows + [row])[1..] == rows[1..] + [row];
      FlattenSnoc(rows[1..], row);
    }
  }
}
