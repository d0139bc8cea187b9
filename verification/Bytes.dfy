// Bytes and little-endian numbers, the common ground of every format below.
module Bytes {

  type byte = b: int | 0 <= b < 256

  type u32 = w: int | 0 <= w < 0x1_0000_0000

  const U16_MAX: nat := 0xffff
  const U32_MAX: nat := 0xffff_ffff
  const U64_MAX: nat := 0xffff_ffff_ffff_ffff

  // The number of values that fit in n bytes.
  function Capacity(n: nat): (c: nat)
    ensures c > 0
  {
    if n == 0 then 1 else 256 * Capacity(n - 1)
  }

  function FromLE(s: seq<byte>): (v: nat)
  {
    if s == [] then 0 else s[0] + 256 * FromLE(s[1..])
  }

  // The low n bytes of v, least significant first (to_le_bytes after a truncating cast).
  function ToLE(v: nat, n: nat): (s: seq<byte>)
    ensures |s| == n
  {
    if n == 0 then [] else [v % 256] + ToLE(v / 256, n - 1)
  }

  lemma {:induction false} FromLEBound(s: seq<byte>)
    ensures FromLE(s) < Capacity(|s|)
  {
    if s != [] {
      FromLEBound(s[1..]);
    }
  }

  // Reading back what was written yields the number, truncated to the width.
  lemma {:induction false} FromToLE(v: nat, n: nat)
    ensures v < Capacity(n) ==> FromLE(ToLE(v, n)) == v
  {
    if n > 0 {
      FromToLE(v / 256, n - 1);
      assert ToLE(v, n)[1..] == ToLE(v / 256, n - 1);
    }
  }

  // Writing what was read reproduces the bytes.
  lemma {:induction false} ToFromLE(s: seq<byte>)
    ensures ToLE(FromLE(s), |s|) == s
  {
    if s != [] {
      ToFromLE(s[1..]);
      assert FromLE(s) % 256 == s[0] && FromLE(s) / 256 == FromLE(s[1..]);
    }
  }

  // Equal numbers of equal width are equal bytes, so comparing two u32 words compares four bytes.
  lemma FromLEInjective(a: seq<byte>, b: seq<byte>)
    requires |a| == |b|
    ensures FromLE(a) == FromLE(b) <==> a == b
  {
  }

  lemma Capacities()
    ensures Capacity(1) == 0x100
    ensures Capacity(2) == U16_MAX + 1
    ensures Capacity(4) == U32_MAX + 1
    ensures Capacity(8) == U64_MAX + 1
  {
  }

  // ---------- Concatenation ----------

  lemma Regroup<T>(a: seq<T>, b: seq<T>, c: seq<T>)
    ensures (a + b) + c == a + (b + c)
  {
  }

  lemma Halves<T>(a: seq<T>, b: seq<T>)
    ensures (a + b)[..|a|] == a && (a + b)[|a|..] == b
  {
  }

  lemma SliceOfSlice<T>(s: seq<T>, a: nat, b: nat, c: nat, d: nat)
    requires a <= b <= |s| && c <= d <= b - a
    ensures s[a..b][c..d] == s[a + c..a + d]
  {
    var l, r := s[a..b][c..d], s[a + c..a + d];
    assert forall i :: 0 <= i < d - c ==> l[i] == s[a..b][c + i] == r[i];
  }

  // The bytes of b from `at` on start with `part`.
  predicate PartAt(b: seq<byte>, at: nat, part: seq<byte>) {
    at + |part| <= |b| && b[at..at + |part|] == part
  }

  lemma PartSplit(b: seq<byte>, at: nat, x: seq<byte>, y: seq<byte>)
    requires PartAt(b, at, x + y)
    ensures PartAt(b, at, x) && PartAt(b, at + |x|, y)
  {
    SliceOfSlice(b, at, at + |x + y|, 0, |x|);
    SliceOfSlice(b, at, at + |x + y|, |x|, |x| + |y|);
    assert (x + y)[0..|x|] == x && (x + y)[|x|..|x| + |y|] == y;
  }
}
