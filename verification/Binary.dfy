// Checked little-endian fields and page alignment, the arithmetic base of the containers.
module Binary {
  import opened Wrappers
  import opened Bytes

  datatype BinaryError = OutOfBounds(offset: nat, width: nat, len: nat) | Overflow | InvalidAlignment

  // ---------- Fields ----------

  // The little-endian number in the n bytes at offset o.
  function Num(b: seq<byte>, o: nat, n: nat): (v: nat)
    requires o + n <= |b|
    ensures v < Capacity(n)
  {
    FromLEBound(b[o..o + n]);
    FromLE(b[o..o + n])
  }

  // b with the n bytes at offset o replaced by the number v.
  function Put(b: seq<byte>, o: nat, n: nat, v: nat): (r: seq<byte>)
    requires o + n <= |b|
    ensures |r| == |b|
  {
    b[..o] + ToLE(v, n) + b[o + n..]
  }

  // A field written is the field read, and every field beside it is unchanged.
  lemma PutNum(b: seq<byte>, o: nat, n: nat, v: nat)
    requires o + n <= |b|
    ensures v < Capacity(n) ==> Num(Put(b, o, n, v), o, n) == v
    ensures forall p: nat, m: nat :: p + m <= |b| && (p + m <= o || o + n <= p) ==>
              Num(Put(b, o, n, v), p, m) == Num(b, p, m)
  {
    var r := Put(b, o, n, v);
    assert r[o..o + n] == ToLE(v, n);
    FromToLE(v, n);
    forall p: nat, m: nat | p + m <= |b| && (p + m <= o || o + n <= p)
      ensures Num(r, p, m) == Num(b, p, m)
    {
      assert r[p..p + m] == b[p..p + m];
    }
  }

  // The same for every field and every buffer, for headers written field by field.
  lemma PutNums()
    ensures forall b: seq<byte>, o: nat, n: nat, v: nat {:trigger Num(Put(b, o, n, v), o, n)} ::
              o + n <= |b| && v < Capacity(n) ==> Num(Put(b, o, n, v), o, n) == v
    ensures forall b: seq<byte>, o: nat, n: nat, v: nat, p: nat, m: nat {:trigger Num(Put(b, o, n, v), p, m)} ::
              o + n <= |b| && p + m <= |b| && (p + m <= o || o + n <= p) ==> Num(Put(b, o, n, v), p, m) == Num(b, p, m)
    ensures forall b: seq<byte>, o: nat, n: nat, v: nat {:trigger Put(b, o, n, v)} ::
              8 <= o && o + n <= |b| ==> Put(b, o, n, v)[..8] == b[..8]
  {
    forall b: seq<byte>, o: nat, n: nat, v: nat | o + n <= |b| && v < Capacity(n)
      ensures Num(Put(b, o, n, v), o, n) == v
    {
      PutNum(b, o, n, v);
    }
    forall b: seq<byte>, o: nat, n: nat, v: nat, p: nat,
        m: nat | o + n <= |b| && p + m <= |b| && (p + m <= o || o + n <= p)
      ensures Num(Put(b, o, n, v), p, m) == Num(b, p, m)
    {
      PutNum(b, o, n, v);
    }
  }

  // Fields written before position e leave everything from e on.
  lemma PutsBefore(e: nat)
    ensures forall b: seq<byte>, o: nat, n: nat, v: nat {:trigger Put(b, o, n, v)} ::
              o + n <= e <= |b| ==> Put(b, o, n, v)[e..] == b[e..]
  {
  }

  // Writing what is there changes nothing.
  lemma PutsSame()
    ensures forall b: seq<byte>, o: nat, n: nat, v: nat {:trigger Put(b, o, n, v)} ::
              o + n <= |b| && v == Num(b, o, n) ==> Put(b, o, n, v) == b
  {
    forall b: seq<byte>, o: nat, n: nat, v: nat | o + n <= |b| && v == Num(b, o, n)
      ensures Put(b, o, n, v) == b
    {
      ToFromLE(b[o..o + n]);
    }
  }

  // n zero bytes.
  function Blank(n: nat): (b: seq<byte>)
    ensures |b| == n
  {
    ToLE(0, n)
  }

  // A field of a part, read through the whole.
  lemma NumInside(b: seq<byte>, start: nat, part: seq<byte>, k: nat, n: nat)
    requires start + |part| <= |b| && b[start..start + |part|] == part
    requires k + n <= |part|
    ensures Num(b, start + k, n) == Num(part, k, n)
  {
    var whole, field := b[start..start + |part|], b[start + k..start + k + n];
    assert forall i :: 0 <= i < n ==> field[i] == whole[k + i];
    assert field == part[k..k + n];
  }

  // ---------- Bytes of a field ----------

  function Short(b: seq<byte>, o: nat): nat
    requires o + 2 <= |b|
  {
    256 * (b[o + 1] as nat) + b[o]
  }

  function Long(b: seq<byte>, o: nat): nat
    requires o + 4 <= |b|
  {
    0x100_0000 * (b[o + 3] as nat) + 0x1_0000 * (b[o + 2] as nat) + 256 * (b[o + 1] as nat) + b[o]
  }

  lemma NumIsShort(b: seq<byte>, o: nat)
    requires o + 2 <= |b|
    ensures Num(b, o, 2) == Short(b, o)
  {
    var s := b[o..o + 2];
    assert FromLE(s) == s[0] + 256 * FromLE(s[1..]) && FromLE(s[1..]) == s[1] + 256 * FromLE(s[2..]);
  }

  lemma NumIsLong(b: seq<byte>, o: nat)
    requires o + 4 <= |b|
    ensures Num(b, o, 4) == Long(b, o)
  {
    var s := b[o..o + 4];
    assert FromLE(s) == s[0] + 256 * FromLE(s[1..]) && FromLE(s[1..]) == s[1] + 256 * FromLE(s[2..]);
    assert FromLE(s[2..]) == s[2] + 256 * FromLE(s[3..]) && FromLE(s[3..]) == s[3] + 256 * FromLE(s[4..]);
  }

  lemma FourThenRest(s: seq<byte>)
    requires |s| >= 4
    ensures FromLE(s) == FromLE(s[..4]) + 0x1_0000_0000 * FromLE(s[4..])
  {
    var t, u, w := s[1..], s[2..], s[3..];
    assert t[1..] == u && u[1..] == w && w[1..] == s[4..];
    assert FromLE(s) == s[0] + 256 * FromLE(t) && FromLE(t) == s[1] + 256 * FromLE(u);
    assert FromLE(u) == s[2] + 256 * FromLE(w) && FromLE(w) == s[3] + 256 * FromLE(s[4..]);
    NumIsLong(s, 0);
    assert s[0..4] == s[..4];
  }

  lemma EightBytes(b: seq<byte>)
    requires |b| >= 8
    ensures Num(b, 0, 8) == Long(b, 0) + 0x1_0000_0000 * Long(b, 4)
  {
    hide Long;
    NumIsLong(b, 0);
    NumIsLong(b, 4);
    FourThenRest(b[0..8]);
    assert b[0..8][..4] == b[0..4] && b[0..8][4..] == b[4..8];
  }

  // ---------- Checked access ----------

  function CheckedRange(len: nat, offset: nat, width: nat): Result<(nat, nat), BinaryError> {
    var end := offset + width;
    if end > U64_MAX then Err(Overflow)
    else if end > len then Err(OutOfBounds(offset, width, len))
    else Ok((offset, end))
  }

  // The error says which check failed: the end does not fit in 64 bits, or lies behind the data.
  lemma RangeErrors(len: nat, offset: nat, width: nat)
    ensures var r := CheckedRange(len, offset, width);
            if offset + width > 0xffff_ffff_ffff_ffff then r == Err(Overflow)
            else if offset + width > len then r == Err(OutOfBounds(offset, width, len))
            else r == Ok((offset, offset + width))
  {
  }

  method WriteLE(out: array<byte>, offset: nat, value: nat, width: nat) returns (r: Result<(), BinaryError>)
    modifies out
    ensures r.Ok? <==> CheckedRange(out.Length, offset, width).Ok?
    ensures if r.Ok? then offset + width <= out.Length && out[..] == Put(old(out[..]), offset, width, value)
            else r.error == CheckedRange(out.Length, offset, width).error && out[..] == old(out[..])
  {
    var range := CheckedRange(out.Length, offset, width);
    if range.Err? {
      return Err(range.error);
    }
    var bytes := ToLE(value, width);
    forall k | 0 <= k < width {
      out[offset + k] := bytes[k];
    }
    return Ok(());
  }

  // ---------- Alignment ----------

  function AlignUp(value: nat, alignment: nat): (r: Result<nat, BinaryError>) {
    if alignment == 0 then Err(InvalidAlignment)
    else
      var rem := value % alignment;
      if rem == 0 then Ok(value)
      else if value + (alignment - rem) > U64_MAX then Err(Overflow)
      else Ok(value + (alignment - rem))
  }

  // How many pages hold n bytes.
  function Pages(n: nat, page: nat): (k: nat)
    requires page > 0
  {
    if n == 0 then 0 else (n - 1) / page + 1
  }

  lemma Distribute(a: int, b: int, d: int)
    ensures (a + b) * d == a * d + b * d
  {
  }

  lemma AtLeastOnce(k: nat, d: nat)
    requires k >= 1
    ensures k * d >= d
  {
  }

  lemma QuotientUnique(d: nat, q: nat, r: nat, q1: nat, r1: nat)
    requires r < d && r1 < d && q * d + r == q1 * d + r1
    ensures q == q1 && r == r1
  {
    if q < q1 {
      Distribute(q, q1 - q, d);
      AtLeastOnce(q1 - q, d);
    } else if q1 < q {
      Distribute(q1, q - q1, d);
      AtLeastOnce(q - q1, d);
    }
  }

  lemma DivisionUnique(n: nat, d: nat, q: nat, r: nat)
    requires d > 0 && r < d && n == q * d + r
    ensures n / d == q && n % d == r
  {
    QuotientUnique(d, q, r, n / d, n % d);
  }

  // The page count is the least that covers n bytes.
  lemma PagesAre(n: nat, page: nat, k: nat)
    requires page > 0 && n <= k * page < n + page
    ensures Pages(n, page) == k
  {
    if n > 0 {
      assert k != 0;
      Distribute(k - 1, 1, page);
      DivisionUnique(n - 1, page, k - 1, n - 1 - (k - 1) * page);
    } else if k > 0 {
      AtLeastOnce(k, page);
    }
  }

  lemma PagesCover(n: nat, page: nat)
    requires page > 0
    ensures n <= Pages(n, page) * page < n + page
  {
  }

  // Rounding up gives the whole number of pages, unless that does not fit in 64 bits.
  lemma AlignUpIsPages(value: nat, page: nat)
    requires value <= U64_MAX
    ensures AlignUp(value, page) ==
      if page == 0 then Err(InvalidAlignment)
      else if Pages(value, page) * page > 0xffff_ffff_ffff_ffff then Err(Overflow)
      else Ok(Pages(value, page) * page)
  {
    if page == 0 {
      return;
    }
    var q, rem := value / page, value % page;
    assert value == q * page + rem;
    if rem == 0 {
      PagesAre(value, page, q);
    } else {
      Distribute(q, 1, page);
      PagesAre(value, page, q + 1);
    }
  }

  // Starting from a page boundary, the pages of what follows simply add up.
  lemma PagesAdd(k: nat, n: nat, page: nat)
    requires page > 0
    ensures Pages(k * page + n, page) == k + Pages(n, page)
  {
    var m := Pages(n, page);
    PagesCover(n, page);
    Distribute(k, m, page);
    PagesAre(k * page + n, page, k + m);
  }
}
