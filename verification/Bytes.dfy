/** Sectors and the little-endian fields stored in them. */
module Bytes {
  const SECTOR_SIZE: nat := 512
  const WORD28: nat := 0x1000_0000

  type Byte = b: int | 0 <= b < 256
  type Sector = s: seq<Byte> | |s| == 512 witness seq(512, _ => 0)

  datatype Option<+T> = None | Some(value: T)

  function Zeros(n: nat): (r: seq<Byte>)
    ensures |r| == n && forall k :: 0 <= k < n ==> r[k] == 0
  {
    seq(n, _ => 0)
  }

  function Le16(s: seq<Byte>, off: nat): (v: nat)
    requires off + 2 <= |s|
    ensures v < 0x1_0000
  {
    var b0: int, b1: int := s[off], s[off + 1];
    b0 + 256 * b1
  }

  function Le32(s: seq<Byte>, off: nat): (v: nat)
    requires off + 4 <= |s|
    ensures v < 0x1_0000_0000
  {
    var b0: int, b1: int, b2: int, b3: int := s[off], s[off + 1], s[off + 2], s[off + 3];
    b0 + 256 * b1 + 65536 * b2 + 16777216 * b3
  }

  function Put16(s: seq<Byte>, off: nat, v: nat): (r: seq<Byte>)
    requires off + 2 <= |s| && v < 0x1_0000
    ensures |r| == |s| && Le16(r, off) == v
    ensures forall k :: 0 <= k < |s| && !(off <= k < off + 2) ==> r[k] == s[k]
  {
    s[off := v % 256][off + 1 := v / 256]
  }

  function Put32(s: seq<Byte>, off: nat, v: nat): (r: seq<Byte>)
    requires off + 4 <= |s| && v < 0x1_0000_0000
    ensures |r| == |s| && Le32(r, off) == v
    ensures forall k :: 0 <= k < |s| && !(off <= k < off + 4) ==> r[k] == s[k]
  {
    var q1 := v / 256;
    var q2 := q1 / 256;
    Put16(Put16(s, off, v % 256 + 256 * (q1 % 256)), off + 2, q2)
  }

  /** Bytes `[off, off + |part|)` of `s` replaced by `part`. */
  function Splice(s: seq<Byte>, off: nat, part: seq<Byte>): (r: seq<Byte>)
    requires off + |part| <= |s|
    ensures |r| == |s|
    ensures forall k {:trigger r[k]} :: 0 <= k < |s| ==> r[k] == if off <= k < off + |part| then part[k - off] else s[k]
  {
    s[..off] + part + s[off + |part|..]
  }

  lemma SliceSlice<T>(s: seq<T>, a: nat, b: nat, c: nat, d: nat)
    requires a <= b <= |s| && c <= d <= b - a
    ensures s[a..b][c..d] == s[a + c..a + d]
  {
    var part := s[a..b];
    assert forall i :: 0 <= i < |part| ==> part[i] == s[a + i];
    var left, right := part[c..d], s[a + c..a + d];
    forall i | 0 <= i < d - c ensures left[i] == right[i] {
      assert left[i] == part[c + i];
    }
  }

  lemma AlignedSum(a: nat, b: nat)
    requires a % 32 == 0
    ensures (a + b) / 32 == a / 32 + b / 32 && (a + b) % 32 == b % 32
  {
  }
}
