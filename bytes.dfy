/** Unsigned byte-array comparison, as ByteUtil.UnsafeComparer performs it:
    the first differing byte decides (compared as values 0..255), and when one
    array is a prefix of the other the shorter one sorts first. */
module Bytes {

  type byte = x: int | 0 <= x < 256

  /** Difference of the first differing bytes, or of the lengths when one
      array is a prefix of the other. */
  function CompareBytes(a: seq<byte>, b: seq<byte>): int
  {
    if |a| == 0 || |b| == 0 then |a| - |b|
    else if a[0] != b[0] then a[0] - b[0]
    else CompareBytes(a[1..], b[1..])
  }

  lemma {:induction false} CompareBytesZeroIff(a: seq<byte>, b: seq<byte>)
    ensures CompareBytes(a, b) == 0 <==> a == b
  {
    if |a| == 0 || |b| == 0 {
    } else if a[0] != b[0] {
    } else {
      CompareBytesZeroIff(a[1..], b[1..]);
      assert a == [a[0]] + a[1..] && b == [b[0]] + b[1..];
    }
  }

  lemma {:induction false} CompareBytesAntisymmetric(a: seq<byte>, b: seq<byte>)
    ensures CompareBytes(b, a) == -CompareBytes(a, b)
  {
    if |a| == 0 || |b| == 0 {
    } else if a[0] != b[0] {
    } else {
      CompareBytesAntisymmetric(a[1..], b[1..]);
    }
  }

  lemma {:induction false} CompareBytesTransitive(a: seq<byte>, b: seq<byte>, c: seq<byte>)
    requires CompareBytes(a, b) < 0 && CompareBytes(b, c) < 0
    ensures CompareBytes(a, c) < 0
  {
    if |a| == 0 || |b| == 0 || |c| == 0 {
    } else if a[0] != b[0] || b[0] != c[0] {
    } else {
      CompareBytesTransitive(a[1..], b[1..], c[1..]);
    }
  }

  /** A proper prefix sorts before the longer array. */
  lemma {:induction false} CompareBytesPrefix(a: seq<byte>, b: seq<byte>)
    requires |a| < |b| && a == b[..|a|]
    ensures CompareBytes(a, b) < 0
  {
    if |a| > 0 {
      assert a[0] == b[0];
      assert a[1..] == b[1..][..|a| - 1];
      CompareBytesPrefix(a[1..], b[1..]);
    }
  }

  /** The first position where the arrays differ decides, by the difference
      of the two bytes as unsigned values 0..255. */
  lemma {:induction false} CompareBytesFirstDifference(a: seq<byte>, b: seq<byte>, k: nat)
    requires k < |a| && k < |b| && a[..k] == b[..k] && a[k] != b[k]
    ensures CompareBytes(a, b) == a[k] as int - b[k] as int
  {
    if k > 0 {
      assert a[0] == a[..k][0] == b[..k][0] == b[0];
      assert a[1..][..k - 1] == a[..k][1..] == b[..k][1..] == b[1..][..k - 1];
      CompareBytesFirstDifference(a[1..], b[1..], k - 1);
    }
  }
}
