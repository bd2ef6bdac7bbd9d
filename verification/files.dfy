/**
 * The parts of `java.io.RandomAccessFile` a feature file is written with: a byte sequence with a
 * file pointer, big-endian `writeInt`, `writeBytes`, `seek` and `close`.
 */
module Files {
  import opened Common

  predicate IsInt32(v: int)
  {
    -0x8000_0000 <= v < 0x8000_0000
  }

  /**
   * `writeInt`: the value modulo 2^32 (two's complement), high byte first. Dividing by 256 three
   * times gives the same bytes as the shifts `v >>> 24`, `v >>> 16` and `v >>> 8`.
   */
  function Int32BE(v: int): (w: seq<byte>)
    ensures |w| == 4
    ensures (w[0] as int) * 0x100_0000 + (w[1] as int) * 0x1_0000 + (w[2] as int) * 256 + (w[3] as int)
            == v % 0x1_0000_0000
  {
    var u := v % 0x1_0000_0000;
    var q1 := u / 256;
    var q2 := q1 / 256;
    var q3 := q2 / 256;
    ByteSplit(u);
    ByteSplit(q1);
    ByteSplit(q2);
    [q3 % 256, q2 % 256, q1 % 256, u % 256]
  }

  /** `readInt`: four bytes, high byte first, as a signed 32-bit value. */
  function ReadInt32BE(w: seq<byte>): (v: int)
    requires |w| == 4
    ensures IsInt32(v)
  {
    var u := (w[0] as int) * 0x100_0000 + (w[1] as int) * 0x1_0000 + (w[2] as int) * 256 + (w[3] as int);
    if u >= 0x8000_0000 then u - 0x1_0000_0000 else u
  }

  lemma Int32RoundTrip(v: int)
    requires IsInt32(v)
    ensures ReadInt32BE(Int32BE(v)) == v
  {
    var u := v % 0x1_0000_0000;
    assert u == (if v < 0 then v + 0x1_0000_0000 else v);
    var q1 := u / 256;
    var q2 := q1 / 256;
    var q3 := q2 / 256;
    ByteSplit(u);
    ByteSplit(q1);
    ByteSplit(q2);
    var w := Int32BE(v);
    assert w == [q3, q2 % 256, q1 % 256, u % 256];
    assert u == (w[0] as int) * 0x100_0000 + (w[1] as int) * 0x1_0000 + (w[2] as int) * 256 + (w[3] as int);
  }

  /** Splitting off the low byte of a non-negative value. */
  lemma ByteSplit(x: int)
    requires 0 <= x
    ensures x == (x / 256) * 256 + x % 256 && 0 <= x % 256 < 256
    ensures x < 0x1_0000_0000 ==> x / 256 < 0x100_0000
    ensures x < 0x100_0000 ==> x / 256 < 0x1_0000
    ensures x < 0x1_0000 ==> x / 256 < 256
  {
  }

  /** `writeBytes`: the low eight bits of every character. */
  function LowBytes(s: string): (b: seq<byte>)
  {
    seq(|s|, i requires 0 <= i < |s| => (s[i] as int) % 256)
  }

  /**
   * Writing `w` at offset `pos` of a file: those bytes are replaced, the file grows if `w`
   * reaches past its end, and every other byte is unchanged.
   */
  function Overwrite(file: seq<byte>, pos: nat, w: seq<byte>): (r: seq<byte>)
    requires pos <= |file|
    ensures |r| == if pos + |w| <= |file| then |file| else pos + |w|
    ensures r[pos..pos + |w|] == w
    ensures forall i | 0 <= i < |r| && !(pos <= i < pos + |w|) :: r[i] == file[i]
  {
    file[..pos] + w + (if pos + |w| < |file| then file[pos + |w|..] else [])
  }

  /** Writing at the end of a file appends. */
  lemma OverwriteAtEnd(file: seq<byte>, w: seq<byte>)
    ensures Overwrite(file, |file|, w) == file + w
  {
    var r := Overwrite(file, |file|, w);
    assert |r| == |file + w|;
    forall i | 0 <= i < |r| ensures r[i] == (file + w)[i] {
      if i >= |file| {
        assert r[|file|..|file| + |w|][i - |file|] == w[i - |file|];
      }
    }
  }

  /**
   * A file opened in mode "rw": its contents, its file pointer, and whether it is still open.
   * Every write to a closed file fails (an `IOException`), and changes nothing.
   */
  class RandomAccessFile {
    const name: string
    var content: seq<byte>
    var pos: nat
    var isOpen: bool

    /** Opening a new file: empty, pointer at 0. */
    constructor (name: string)
      ensures this.name == name && content == [] && pos == 0 && isOpen
    {
      this.name := name;
      content := [];
      pos := 0;
      isOpen := true;
    }

    method Write(w: seq<byte>) returns (ok: bool)
      requires pos <= |content|
      modifies this
      ensures ok == old(isOpen) && isOpen == old(isOpen) && pos <= |content|
      ensures ok ==> content == Overwrite(old(content), old(pos), w) && pos == old(pos) + |w|
      ensures !ok ==> content == old(content) && pos == old(pos)
    {
      ok := isOpen;
      if ok {
        content := Overwrite(content, pos, w);
        pos := pos + |w|;
      }
    }

    method WriteInt(v: int) returns (ok: bool)
      requires pos <= |content|
      modifies this
      ensures ok == old(isOpen) && isOpen == old(isOpen) && pos <= |content|
      ensures ok ==> content == Overwrite(old(content), old(pos), Int32BE(v)) && pos == old(pos) + 4
      ensures !ok ==> content == old(content) && pos == old(pos)
    {
      ok := Write(Int32BE(v));
    }

    method WriteBytes(s: string) returns (ok: bool)
      requires pos <= |content|
      modifies this
      ensures ok == old(isOpen) && isOpen == old(isOpen) && pos <= |content|
      ensures ok ==> content == Overwrite(old(content), old(pos), LowBytes(s)) && pos == old(pos) + |s|
      ensures !ok ==> content == old(content) && pos == old(pos)
    {
      ok := Write(LowBytes(s));
    }

    method Seek(p: nat) returns (ok: bool)
      requires p <= |content|
      modifies this
      ensures ok == old(isOpen) && isOpen == old(isOpen) && content == old(content)
      ensures pos == if ok then p else old(pos)
    {
      ok := isOpen;
      if ok {
        pos := p;
      }
    }

    method Close()
      modifies this
      ensures !isOpen && content == old(content) && pos == old(pos)
    {
      isOpen := false;
    }
  }
}
