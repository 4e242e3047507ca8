/**
 * The backing file's bytes and Java's 32-bit `int`, as the region file
 * reads and writes them: big-endian words (`readInt`/`writeInt`), writes at
 * a seek position, and reads that stop at the end of the file.
 */
module Bytes {

  /** One byte of the backing file, as its unsigned value. */
  type byte = b: int | 0 <= b < 256

  const Int32Min: int := -0x8000_0000
  const Int32Max: int := 0x7FFF_FFFF

  /** The values of Java's `int`. */
  predicate IsInt32(v: int) {
    Int32Min <= v <= Int32Max
  }

  /** Java's narrowing cast `(int)` of a `long`: the low 32 bits, read as two's complement. */
  function WrapInt32(v: int): (r: int)
    ensures IsInt32(r)
    ensures (v - r) % 0x1_0000_0000 == 0
    ensures IsInt32(v) ==> r == v
  {
    (v + 0x8000_0000) % 0x1_0000_0000 - 0x8000_0000
  }

  /** `DataOutput.writeInt`: the four bytes of `v`, most significant first. */
  function EncodeInt32(v: int): (r: seq<byte>)
    requires IsInt32(v)
    ensures |r| == 4
    ensures (r[0] >= 0x80) == (v < 0)
  {
    var u := if v < 0 then v + 0x1_0000_0000 else v;
    var q1 := u / 0x100;
    var q2 := q1 / 0x100;
    [q2 / 0x100, q2 % 0x100, q1 % 0x100, u % 0x100]
  }

  /** `DataInput.readInt`: four bytes, most significant first, as a signed value. */
  function DecodeInt32(b: seq<byte>): (v: int)
    requires |b| == 4
    ensures IsInt32(v)
    ensures (v < 0) == (b[0] >= 0x80)
  {
    var u := (b[0] as int) * 0x100_0000 + (b[1] as int) * 0x1_0000 + (b[2] as int) * 0x100 + (b[3] as int);
    if u < 0x8000_0000 then u else u - 0x1_0000_0000
  }

  /** Reading back a written word gives the value that was written. */
  lemma DecodeEncode(v: int)
    requires IsInt32(v)
    ensures DecodeInt32(EncodeInt32(v)) == v
  {
    var u := if v < 0 then v + 0x1_0000_0000 else v;
    var q1 := u / 0x100;
    var q2 := q1 / 0x100;
    assert u == q1 * 0x100 + u % 0x100;
    assert q1 == q2 * 0x100 + q1 % 0x100;
    assert q2 == (q2 / 0x100) * 0x100 + q2 % 0x100;
    var b := EncodeInt32(v);
    assert u == (b[0] as int) * 0x100_0000 + (b[1] as int) * 0x1_0000 + (b[2] as int) * 0x100 + (b[3] as int);
  }

  /** Every four-byte word is the encoding of the value it decodes to. */
  lemma EncodeDecode(b: seq<byte>)
    requires |b| == 4
    ensures EncodeInt32(DecodeInt32(b)) == b
  {
    var u := (b[0] as int) * 0x100_0000 + (b[1] as int) * 0x1_0000 + (b[2] as int) * 0x100 + (b[3] as int);
    var r := EncodeInt32(DecodeInt32(b));
    assert u / 0x100 == (b[0] as int) * 0x1_0000 + (b[1] as int) * 0x100 + b[2];
    assert u / 0x100 / 0x100 == (b[0] as int) * 0x100 + b[1];
    assert u / 0x100 / 0x100 / 0x100 == b[0];
    assert r == [b[0], b[1], b[2], b[3]];
  }

  /** `seek(at)` then `readInt()`, within the file. */
  function ReadInt32At(f: seq<byte>, at: int): int
    requires 0 <= at && at + 4 <= |f|
  {
    DecodeInt32(f[at..at + 4])
  }

  /** `seek(at)` then `write(bytes)` inside the file: those bytes are replaced, the length is kept. */
  function Patch(f: seq<byte>, at: int, bytes: seq<byte>): (r: seq<byte>)
    requires 0 <= at && at + |bytes| <= |f|
    ensures |r| == |f|
    ensures r[at..at + |bytes|] == bytes
    ensures forall i :: 0 <= i < |f| && !(at <= i < at + |bytes|) ==> r[i] == f[i]
  {
    f[..at] + bytes + f[at + |bytes|..]
  }

  /** `n` zero bytes, such as the source's `EMPTY_SECTOR`. */
  function Zeros(n: nat): (r: seq<byte>)
    ensures |r| == n
  {
    seq(n, _ => 0)
  }

  /**
   * `seek(from)` then `read(buffer)` into a fresh zero-filled buffer of `n`
   * bytes: the bytes before the end of the file are copied, the rest of the
   * buffer stays zero.
   */
  function ReadPadded(f: seq<byte>, from: nat, n: nat): (r: seq<byte>)
    ensures |r| == n
    ensures from + n <= |f| ==> r == f[from..from + n]
    ensures forall k :: 0 <= k < n && from + k < |f| ==> r[k] == f[from + k]
    ensures forall k :: 0 <= k < n && |f| <= from + k ==> r[k] == 0
  {
    seq(n, k requires 0 <= k < n => if from + k < |f| then f[from + k] else 0)
  }

  /** A word read at `at` depends only on the four bytes there. */
  lemma ReadInt32Local(f: seq<byte>, g: seq<byte>, at: int)
    requires 0 <= at && at + 4 <= |f| && at + 4 <= |g|
    requires forall i :: at <= i < at + 4 ==> f[i] == g[i]
    ensures ReadInt32At(f, at) == ReadInt32At(g, at)
  {
    assert f[at..at + 4] == g[at..at + 4];
  }

  /** A read that stays inside both files depends only on the bytes it reads. */
  lemma ReadPaddedLocal(f: seq<byte>, g: seq<byte>, from: nat, n: nat)
    requires from + n <= |f| && from + n <= |g|
    requires forall i :: from <= i < from + n ==> f[i] == g[i]
    ensures ReadPadded(f, from, n) == ReadPadded(g, from, n)
  {
    assert f[from..from + n] == g[from..from + n];
  }

  /** A word written by `Patch` reads back as the value encoded. */
  lemma ReadPatchedInt32(f: seq<byte>, at: int, v: int)
    requires IsInt32(v) && 0 <= at && at + 4 <= |f|
    ensures ReadInt32At(Patch(f, at, EncodeInt32(v)), at) == v
  {
    DecodeEncode(v);
  }
}
