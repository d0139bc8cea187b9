// CRC-32 (reflected, polynomial 0xEDB88320): the bitwise loop and the algebra behind it.
// A u32 register is its 32 bits, least significant first, which is also the order in which
// the bits of a message enter it.
module Crc32 {
  import opened Bytes

  // ---------- Words as bits ----------

  function ToBits(v: nat, n: nat): (bits: seq<bool>)
    ensures |bits| == n
  {
    if n == 0 then [] else [v % 2 == 1] + ToBits(v / 2, n - 1)
  }

  function FromBits(bits: seq<bool>): nat {
    if bits == [] then 0 else (if bits[0] then 1 else 0) + 2 * FromBits(bits[1..])
  }

  type Register = x: seq<bool> | |x| == 32 witness ToBits(0, 32)

  function Zeros(n: nat): (bits: seq<bool>)
    ensures |bits| == n && forall i :: 0 <= i < n ==> !bits[i]
  {
    seq(n, _ => false)
  }

  function Xor(a: seq<bool>, b: seq<bool>): (r: seq<bool>)
    requires |a| == |b|
    ensures |r| == |a| && forall i :: 0 <= i < |a| ==> r[i] == (a[i] != b[i])
  {
    seq(|a|, i requires 0 <= i < |a| => a[i] != b[i])
  }

  function Not(a: seq<bool>): (r: seq<bool>)
    ensures |r| == |a| && forall i :: 0 <= i < |a| ==> r[i] == !a[i]
  {
    seq(|a|, i requires 0 <= i < |a| => !a[i])
  }

  function ShiftRight(x: seq<bool>, n: nat): (r: seq<bool>)
    requires n <= |x|
    ensures |r| == |x|
  {
    x[n..] + Zeros(n)
  }

  function Polynomial(): Register {
    ToBits(0xedb8_8320, 32)
  }

  // ---------- The loop ----------

  function BitStep(x: Register): (r: Register) {
    Xor(ShiftRight(x, 1), if x[0] then Polynomial() else Zeros(32))
  }

  function Steps(x: Register, n: nat): (r: Register)
    decreases n
  {
    if n == 0 then x else Steps(BitStep(x), n - 1)
  }

  // The register after a message.
  function Feed(crc: Register, data: seq<byte>): (r: Register)
    decreases data
  {
    if data == [] then crc else Feed(Steps(Xor(crc, ToBits(data[0], 32)), 8), data[1..])
  }

  function Ones(): Register {
    Not(Zeros(32))
  }

  function Checksum(data: seq<byte>): (r: Register) {
    Not(Feed(Ones(), data))
  }

  method Crc32(data: seq<byte>) returns (r: nat)
    ensures r == FromBits(Checksum(data))
  {
    hide Polynomial, BitStep;
    var crc: Register := Ones();
    assert data[0..] == data;
    for i := 0 to |data|
      invariant Feed(crc, data[i..]) == Feed(Ones(), data)
    {
      assert data[i..][1..] == data[i + 1..];
      crc := Xor(crc, ToBits(data[i], 32));
      ghost var target := Steps(crc, 8);
      for k := 0 to 8
        invariant Steps(crc, 8 - k) == target
      {
        ghost var before := crc;
        var mask := if crc[0] then Ones() else Zeros(32);
        crc := Xor(ShiftRight(crc, 1), And(Polynomial(), mask));
        MaskedStep(before, mask);
      }
    }
    return FromBits(Not(crc));
  }

  function And(a: seq<bool>, b: seq<bool>): (r: seq<bool>)
    requires |a| == |b|
    ensures |r| == |a| && forall i :: 0 <= i < |a| ==> r[i] == (a[i] && b[i])
  {
    seq(|a|, i requires 0 <= i < |a| => a[i] && b[i])
  }

  // Selecting the polynomial by an all-ones or all-zeros mask is the conditional of BitStep.
  lemma MaskedStep(x: Register, mask: Register)
    requires mask == if x[0] then Ones() else Zeros(32)
    ensures Xor(ShiftRight(x, 1), And(Polynomial(), mask)) == BitStep(x)
  {
  }

  // ---------- Linearity ----------

  lemma BitStepLinear(x: Register, y: Register)
    ensures BitStep(Xor(x, y)) == Xor(BitStep(x), BitStep(y))
  {
  }

  lemma {:induction false} StepsLinear(x: Register, y: Register, n: nat)
    ensures Steps(Xor(x, y), n) == Xor(Steps(x, n), Steps(y, n))
    decreases n
  {
    hide BitStep, Xor;
    if n > 0 {
      BitStepLinear(x, y);
      StepsLinear(BitStep(x), BitStep(y), n - 1);
    }
  }

  // The checksum is affine: equal-length messages combine by exclusive or, bit by bit.
  lemma {:induction false} FeedBitsLinear(x: Register, y: Register, a: seq<bool>, b: seq<bool>)
    requires |a| == |b|
    ensures FeedBits(Xor(x, y), Xor(a, b)) == Xor(FeedBits(x, a), FeedBits(y, b))
    decreases a
  {
    hide BitStep;
    if a != [] {
      var p, q := [a[0]] + Zeros(31), [b[0]] + Zeros(31);
      assert Xor(Xor(x, y), [Xor(a, b)[0]] + Zeros(31)) == Xor(Xor(x, p), Xor(y, q));
      BitStepLinear(Xor(x, p), Xor(y, q));
      assert Xor(a, b)[1..] == Xor(a[1..], b[1..]);
      FeedBitsLinear(BitStep(Xor(x, p)), BitStep(Xor(y, q)), a[1..], b[1..]);
    }
  }

  lemma ChecksumAffine(a: seq<byte>, b: seq<byte>, c: seq<byte>, d: seq<byte>)
    requires |a| == |b| == |c| == |d|
    requires Bits(d) == Xor(Xor(Bits(a), Bits(b)), Bits(c))
    ensures Checksum(d) == Xor(Xor(Checksum(a), Checksum(b)), Checksum(c))
  {
    hide Feed, FeedBits, Bits, Not, Xor;
    var o, z := Ones(), Xor(Ones(), Ones());
    FeedIsBitSerial(o, a);
    FeedIsBitSerial(o, b);
    FeedIsBitSerial(o, c);
    FeedIsBitSerial(o, d);
    FeedBitsLinear(o, o, Bits(a), Bits(b));
    FeedBitsLinear(z, o, Xor(Bits(a), Bits(b)), Bits(c));
    XorThree(o);
    NotOfThree(Feed(o, a), Feed(o, b), Feed(o, c));
  }

  lemma XorThree(x: Register)
    ensures Xor(Xor(x, x), x) == x
  {
  }

  lemma NotOfThree(p: Register, q: Register, r: Register)
    ensures Xor(Xor(Not(p), Not(q)), Not(r)) == Not(Xor(Xor(p, q), r))
  {
  }

  // ---------- Invertibility ----------

  function BitUnstep(y: Register): (x: Register) {
    var z := if y[31] then Xor(y, Polynomial()) else y;
    [y[31]] + z[..31]
  }

  lemma DropTwoBits(v: nat, n: nat)
    requires n >= 2
    ensures ToBits(v, n)[2..] == ToBits(v / 4, n - 2)
  {
  }

  lemma DropEightBits(v: nat, n: nat)
    requires n >= 8
    ensures ToBits(v, n)[8..] == ToBits(v / 256, n - 8)
  {
    hide ToBits;
    DropTwoBits(v, n);
    DropTwoBits(v / 4, n - 2);
    DropTwoBits(v / 16, n - 4);
    DropTwoBits(v / 64, n - 6);
    var bits := ToBits(v, n);
    assert bits[4..] == bits[2..][2..] && bits[6..] == bits[4..][2..] && bits[8..] == bits[6..][2..];
  }

  lemma FourBits(v: nat)
    ensures ToBits(v, 4) == [v % 2 == 1, v / 2 % 2 == 1, v / 4 % 2 == 1, v / 8 % 2 == 1]
  {
    assert ToBits(v / 4, 2) == [v / 4 % 2 == 1, v / 8 % 2 == 1];
    DropTwoBits(v, 4);
  }

  lemma NibbleFirst(v: nat, n: nat)
    ensures ToBits(v, 4 + n) ==
              [v % 2 == 1, v / 2 % 2 == 1, v / 4 % 2 == 1, v / 8 % 2 == 1] + ToBits(v / 16, n)
  {
    hide ToBits;
    var bits := ToBits(v, 4 + n);
    ToBitsPrefix(v, 4, 4 + n);
    FourBits(v);
    DropTwoBits(v, 4 + n);
    DropTwoBits(v / 4, 2 + n);
    assert bits[4..] == bits[2..][2..];
    assert bits == bits[..4] + bits[4..];
  }

  lemma PolynomialLow()
    ensures ToBits(0xedb8_8320, 32) ==
           [false, false, false, false, false, true, false, false,
            true, true, false, false, false, false, false, true]
           + ToBits(0xedb8, 16)
  {
    hide ToBits;
    NibbleFirst(0xedb8_8320, 28);
    NibbleFirst(0x0edb_8832, 24);
    NibbleFirst(0x00ed_b883, 20);
    NibbleFirst(0x000e_db88, 16);
  }

  lemma PolynomialHigh()
    ensures ToBits(0xedb8, 16) ==
           [false, false, false, true, true, true, false, true,
            true, false, true, true, false, true, true, true]
  {
    hide ToBits;
    NibbleFirst(0xedb8, 12);
    NibbleFirst(0x0edb, 8);
    NibbleFirst(0x00ed, 4);
    FourBits(0xe);
  }

  lemma PolynomialBits()
    ensures Polynomial() ==
           [false, false, false, false, false, true, false, false,
            true, true, false, false, false, false, false, true,
            false, false, false, true, true, true, false, true,
            true, false, true, true, false, true, true, true]
  {
    hide ToBits;
    PolynomialLow();
    PolynomialHigh();
  }

  // A register by the powers of x it holds: bit i stands for x to the 31 - i.
  function Terms(exponents: set<nat>): (r: Register)
    ensures forall i :: 0 <= i < 32 ==> (r[i] <==> 31 - i in exponents)
  {
    seq(32, i requires 0 <= i < 32 => 31 - i in exponents)
  }

  // The polynomial of IEEE 802.3, with its x^32 left out.
  function Exponents(): set<nat> {
    {26, 23, 22, 16, 12, 11, 10, 8, 7, 5, 4, 2, 1, 0}
  }

  lemma PolynomialTerms()
    ensures Polynomial() == Terms({26, 23, 22, 16, 12, 11, 10, 8, 7, 5, 4, 2, 1, 0})
  {
    hide Polynomial;
    PolynomialBits();
  }

  // A step multiplies by x and reduces.
  lemma StepTerms(a: set<nat>, b: set<nat>)
    requires forall e :: 0 <= e < 32 ==> (e in b <==> (e > 0 && e - 1 in a) != (31 in a && e in Exponents()))
    ensures BitStep(Terms(a)) == Terms(b)
  {
    hide Polynomial, Exponents, Terms;
    PolynomialIsExponents();
    var x, l, r := Terms(a), BitStep(Terms(a)), Terms(b);
    forall i | 0 <= i < 32 ensures l[i] == r[i] {
      var e := 31 - i;
      assert x[0] <==> 31 in a;
      assert l[i] == ((i < 31 && x[i + 1]) != (x[0] && Polynomial()[i]));
      assert e in b <==> (e > 0 && e - 1 in a) != (31 in a && e in Exponents());
    }
  }

  lemma PolynomialIsExponents()
    ensures forall i :: 0 <= i < 32 ==> (Polynomial()[i] <==> 31 - i in Exponents())
  {
    PolynomialTerms();
  }

  lemma BitStepBijective(x: Register)
    ensures BitUnstep(BitStep(x)) == x && BitStep(BitUnstep(x)) == x
  {
    hide Polynomial;
    PolynomialBits();
  }

  lemma {:induction false} StepsInjective(x: Register, y: Register, n: nat)
    requires Steps(x, n) == Steps(y, n)
    ensures x == y
    decreases n
  {
    hide BitStep, BitUnstep;
    if n > 0 {
      StepsInjective(BitStep(x), BitStep(y), n - 1);
      BitStepBijective(x);
      BitStepBijective(y);
    }
  }

  // ---------- Bit by bit ----------

  function FeedBits(crc: Register, bits: seq<bool>): (r: Register)
    decreases bits
  {
    if bits == [] then crc else FeedBits(BitStep(Xor(crc, [bits[0]] + Zeros(31))), bits[1..])
  }

  function Bits(data: seq<byte>): (bits: seq<bool>)
    ensures |bits| == 8 * |data|
  {
    if data == [] then [] else ToBits(data[0], 8) + Bits(data[1..])
  }

  lemma OneBit(r: Register, w: Register)
    ensures BitStep(Xor(r, w)) == Xor(BitStep(Xor(r, [w[0]] + Zeros(31))), ShiftRight(w, 1))
  {
  }

  // Combining a whole word at once and stepping n times is feeding its first n bits one at a
  // time, except that the remaining bits are still waiting to enter.
  lemma {:induction false} WordAtOnce(r: Register, w: Register, n: nat)
    requires n <= 32
    ensures Steps(Xor(r, w), n) == Xor(FeedBits(r, w[..n]), ShiftRight(w, n))
    decreases n
  {
    hide BitStep;
    if n == 0 {
      assert ShiftRight(w, 0) == w;
    } else {
      OneBit(r, w);
      var w1 := ShiftRight(w, 1);
      WordAtOnce(BitStep(Xor(r, [w[0]] + Zeros(31))), w1, n - 1);
      assert w[..n][1..] == w1[..n - 1];
      assert ShiftRight(w1, n - 1) == ShiftRight(w, n);
    }
  }

  lemma {:induction false} FeedBitsAppend(crc: Register, a: seq<bool>, b: seq<bool>)
    ensures FeedBits(crc, a + b) == FeedBits(FeedBits(crc, a), b)
    decreases a
  {
    hide BitStep, Xor;
    if a == [] {
      assert a + b == b;
    } else {
      assert (a + b)[1..] == a[1..] + b;
      FeedBitsAppend(BitStep(Xor(crc, [a[0]] + Zeros(31))), a[1..], b);
    }
  }

  lemma ToBitsPrefix(v: nat, m: nat, n: nat)
    requires m <= n
    ensures ToBits(v, n)[..m] == ToBits(v, m)
  {
    if m > 0 {
      ToBitsPrefix(v / 2, m - 1, n - 1);
    }
  }

  lemma {:induction false} ToBitsOfZero(n: nat)
    ensures ToBits(0, n) == Zeros(n)
  {
    if n > 0 {
      ToBitsOfZero(n - 1);
    }
  }

  // A byte fills the low eight bits of a register.
  lemma ByteInWord(b: byte)
    ensures ToBits(b, 32)[..8] == ToBits(b, 8)
    ensures ShiftRight(ToBits(b, 32), 8) == Zeros(32)
  {
    ToBitsPrefix(b, 8, 32);
    DropEightBits(b, 32);
    ToBitsOfZero(24);
  }

  lemma XorZeros(x: Register)
    ensures Xor(x, Zeros(32)) == x
  {
  }

  // The byte loop computes the bit-serial register.
  lemma {:induction false} FeedIsBitSerial(crc: Register, data: seq<byte>)
    ensures Feed(crc, data) == FeedBits(crc, Bits(data))
    decreases data
  {
    hide BitStep, Xor, ToBits, ShiftRight, Steps;
    if data != [] {
      var b := data[0];
      var next := Steps(Xor(crc, ToBits(b, 32)), 8);
      assert next == FeedBits(crc, ToBits(b, 8)) by {
        WordAtOnce(crc, ToBits(b, 32), 8);
        ByteInWord(b);
        XorZeros(FeedBits(crc, ToBits(b, 8)));
      }
      FeedBitsAppend(crc, ToBits(b, 8), Bits(data[1..]));
      FeedIsBitSerial(next, data[1..]);
    }
  }

  // ---------- The table form ----------

  function TableEntry(index: seq<bool>): (r: Register)
    requires |index| == 8
  {
    Steps(index + Zeros(24), 8)
  }

  lemma SplitLowByte(x: Register)
    ensures Xor(x[..8] + Zeros(24), Zeros(8) + x[8..]) == x
    ensures (Zeros(8) + x[8..])[..8] == Zeros(8)
    ensures ShiftRight(Zeros(8) + x[8..], 8) == ShiftRight(x, 8)
  {
  }

  lemma {:induction false} FeedZeroBits(n: nat)
    ensures FeedBits(Zeros(32), Zeros(n)) == Zeros(32)
  {
    if n > 0 {
      FeedZeroBits(n - 1);
      hide Polynomial;
      assert Zeros(n)[1..] == Zeros(n - 1);
      assert [Zeros(n)[0]] + Zeros(31) == Zeros(32);
      assert Xor(Zeros(32), Zeros(32)) == Zeros(32);
      assert BitStep(Zeros(32)) == Zeros(32);
    }
  }

  lemma XorFromZeros(x: Register)
    ensures Xor(Zeros(32), x) == x
  {
  }

  lemma StepsByTable(x: Register)
    ensures Steps(x, 8) == Xor(TableEntry(x[..8]), ShiftRight(x, 8))
  {
    var low, high := x[..8] + Zeros(24), Zeros(8) + x[8..];
    hide BitStep, Xor, FeedBits, ShiftRight, Steps;
    SplitLowByte(x);
    StepsLinear(low, high, 8);
    assert Steps(high, 8) == ShiftRight(x, 8) by {
      XorFromZeros(high);
      WordAtOnce(Zeros(32), high, 8);
      FeedZeroBits(8);
      XorFromZeros(ShiftRight(x, 8));
    }
  }

  lemma ShiftOfXor(x: Register, w: Register)
    requires ShiftRight(w, 8) == Zeros(32)
    ensures ShiftRight(Xor(x, w), 8) == ShiftRight(x, 8)
  {
    var l, r := ShiftRight(Xor(x, w), 8), ShiftRight(x, 8);
    forall i | 0 <= i < 32 ensures l[i] == r[i] {
      if i < 24 {
        assert !ShiftRight(w, 8)[i];
      }
    }
  }

  // One byte of the bitwise loop equals one byte of the table-driven algorithm in RFC 1952,
  // section 8: the table is indexed by the low byte, the rest of the register moves down.
  lemma TableUpdate(crc: Register, b: byte)
    ensures Steps(Xor(crc, ToBits(b, 32)), 8)
         == Xor(TableEntry(Xor(crc[..8], ToBits(b, 8))), ShiftRight(crc, 8))
  {
    hide Steps, ToBits;
    var w := ToBits(b, 32);
    var x := Xor(crc, w);
    StepsByTable(x);
    ByteInWord(b);
    assert x[..8] == Xor(crc[..8], w[..8]);
    ShiftOfXor(crc, w);
  }

  // ---------- What the checksum detects ----------

  lemma {:induction false} FeedBitsInjective(x: Register, y: Register, bits: seq<bool>)
    requires FeedBits(x, bits) == FeedBits(y, bits)
    ensures x == y
    decreases bits
  {
    hide BitStep, BitUnstep;
    if bits != [] {
      var b := [bits[0]] + Zeros(31);
      FeedBitsInjective(BitStep(Xor(x, b)), BitStep(Xor(y, b)), bits[1..]);
      BitStepBijective(Xor(x, b));
      BitStepBijective(Xor(y, b));
      XorCancels(x, y, b);
    }
  }

  lemma XorCancels(x: Register, y: Register, b: Register)
    requires Xor(x, b) == Xor(y, b)
    ensures x == y
  {
  }

  lemma XorCommutes(x: Register, y: Register)
    ensures Xor(x, y) == Xor(y, x)
  {
  }

  // Up to 32 bits entering the register can be told apart afterwards.
  lemma WindowInjective(r: Register, v: seq<bool>, w: seq<bool>)
    requires |v| == |w| <= 32
    requires FeedBits(r, v) == FeedBits(r, w)
    ensures v == w
  {
    var n := |v|;
    var x, y := v + Zeros(32 - n), w + Zeros(32 - n);
    WholeWindow(r, v);
    WholeWindow(r, w);
    StepsInjective(Xor(r, x), Xor(r, y), n);
    XorCommutes(r, x);
    XorCommutes(r, y);
    XorCancels(x, y, r);
    assert v == x[..n] && w == y[..n];
  }

  lemma WholeWindow(r: Register, v: seq<bool>)
    requires |v| <= 32
    ensures Steps(Xor(r, v + Zeros(32 - |v|)), |v|) == FeedBits(r, v)
  {
    var x := v + Zeros(32 - |v|);
    WordAtOnce(r, x, |v|);
    assert x[..|v|] == v;
    assert ShiftRight(x, |v|) == Zeros(32);
    XorZeros(FeedBits(r, v));
  }

  lemma {:induction false} BitsInjective(a: seq<byte>, b: seq<byte>)
    requires Bits(a) == Bits(b)
    ensures a == b
  {
    if a != [] {
      assert Bits(a)[..8] == ToBits(a[0], 8) && Bits(a)[8..] == Bits(a[1..]);
      assert Bits(b)[..8] == ToBits(b[0], 8) && Bits(b)[8..] == Bits(b[1..]);
      ByteFromBits(a[0]);
      ByteFromBits(b[0]);
      BitsInjective(a[1..], b[1..]);
    }
  }

  lemma ByteFromBits(b: byte)
    ensures FromBits(ToBits(b, 8)) == b
  {
    FromToBits(b, 8, 256);
  }

  lemma {:induction false} FromToBits(v: nat, n: nat, bound: nat)
    requires v < bound && bound == Power(n)
    ensures FromBits(ToBits(v, n)) == v
  {
    if n > 0 {
      FromToBits(v / 2, n - 1, Power(n - 1));
      assert ToBits(v, n)[1..] == ToBits(v / 2, n - 1);
    }
  }

  function Power(n: nat): (p: nat)
    ensures p > 0
  {
    if n == 0 then 1 else 2 * Power(n - 1)
  }

  lemma BurstInBits(r: Register, u: seq<bool>, v: seq<bool>, s: nat, e: nat)
    requires s <= e <= |u| == |v| && e <= s + 32
    requires u[..s] == v[..s] && u[e..] == v[e..]
    requires FeedBits(r, u) == FeedBits(r, v)
    ensures u == v
  {
    hide FeedBits;
    ThreeParts(r, u, s, e);
    ThreeParts(r, v, s, e);
    var r1 := FeedBits(r, u[..s]);
    FeedBitsInjective(FeedBits(r1, u[s..e]), FeedBits(r1, v[s..e]), u[e..]);
    WindowInjective(r1, u[s..e], v[s..e]);
    assert u == u[..s] + u[s..e] + u[e..];
    assert v == v[..s] + v[s..e] + v[e..];
  }

  // Every burst of at most 32 bits is detected: two different messages of equal length whose
  // bits agree outside a window of n <= 32 have different checksums.
  lemma BurstDetection(a: seq<byte>, b: seq<byte>, s: nat, n: nat)
    requires |a| == |b| && a != b
    requires n <= 32 && s + n <= 8 * |a|
    requires Bits(a)[..s] == Bits(b)[..s] && Bits(a)[s + n..] == Bits(b)[s + n..]
    ensures Checksum(a) != Checksum(b)
  {
    hide Feed, FeedBits, Bits, Not;
    FeedIsBitSerial(Ones(), a);
    FeedIsBitSerial(Ones(), b);
    if Feed(Ones(), a) == Feed(Ones(), b) {
      BurstInBits(Ones(), Bits(a), Bits(b), s, s + n);
      BitsInjective(a, b);
    }
    NotInjective(Feed(Ones(), a), Feed(Ones(), b));
  }

  lemma NotInjective(x: Register, y: Register)
    ensures Not(x) == Not(y) <==> x == y
  {
  }

  lemma ThreeParts(r: Register, u: seq<bool>, s: nat, e: nat)
    requires s <= e <= |u|
    ensures FeedBits(r, u) == FeedBits(FeedBits(FeedBits(r, u[..s]), u[s..e]), u[e..])
  {
    assert u == u[..s] + (u[s..e] + u[e..]);
    FeedBitsAppend(r, u[..s], u[s..e] + u[e..]);
    FeedBitsAppend(FeedBits(r, u[..s]), u[s..e], u[e..]);
  }

  // ---------- Checking by appending ----------

  lemma {:induction false} FeedAppend(crc: Register, a: seq<byte>, b: seq<byte>)
    ensures Feed(crc, a + b) == Feed(Feed(crc, a), b)
    decreases a
  {
    hide Steps, Xor, ToBits;
    if a == [] {
      assert a + b == b;
    } else {
      assert (a + b)[1..] == a[1..] + b;
      FeedAppend(Steps(Xor(crc, ToBits(a[0], 32)), 8), a[1..], b);
    }
  }

  // Four bytes appended to a message leave the fixed residue exactly if they spell its checksum.
  lemma ResidueIffChecksum(m: seq<byte>, t: seq<byte>)
    requires |t| == 4
    ensures Checksum(m + t) == Checksum([0, 0, 0, 0]) <==> Bits(t) == Checksum(m)
  {
    hide Feed, Bits, Not, Steps, Xor;
    var zero: seq<byte> := [0, 0, 0, 0];
    var r := Feed(Ones(), m);
    FeedAppend(Ones(), m, t);
    FourBytes(r, t);
    FourBytes(Ones(), zero);
    BitsOfZeros();
    XorZeros(Ones());
    NotInjective(Feed(r, t), Feed(Ones(), zero));
    if Steps(Xor(r, Bits(t)), 32) == Steps(Ones(), 32) {
      StepsInjective(Xor(r, Bits(t)), Ones(), 32);
    }
    Complement(r, Bits(t));
  }

  lemma Complement(r: Register, w: Register)
    ensures Xor(r, w) == Ones() <==> w == Not(r)
  {
  }

  lemma BitsOfZeros()
    ensures Bits([0, 0, 0, 0]) == Zeros(32)
  {
  }

  lemma FourBytes(r: Register, t: seq<byte>)
    requires |t| == 4
    ensures Feed(r, t) == Steps(Xor(r, Bits(t)), 32)
  {
    FeedIsBitSerial(r, t);
    WholeWindow(r, Bits(t));
    assert Bits(t) + Zeros(0) == Bits(t);
  }
}
