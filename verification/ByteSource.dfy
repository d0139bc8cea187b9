// Range reads: a memory source, a bounded view of another source, and a file descriptor whose
// reads may be short or interrupted.
module ByteSource {
  import opened Wrappers
  import opened Bytes

  datatype SourceError = OutOfRange | Io

  // A source as its callers see it: a declared size and what each read returns.
  datatype Source = Source(size: nat, read: (nat, nat) -> Result<seq<byte>, SourceError>)

  function Min(a: nat, b: nat): (m: nat)
    ensures m == a || m == b
    ensures m <= a && m <= b
  {
    if a <= b then a else b
  }

  // Sizes fit in 64 bits, so saturating before clamping to the size changes nothing: the clamped
  // exact sum is used throughout.
  function MemoryRead(bytes: seq<byte>, offset: nat, length: nat): seq<byte> {
    if offset > |bytes| then [] else bytes[offset..Min(offset + length, |bytes|)]
  }

  function MemorySource(bytes: seq<byte>): Source {
    Source(|bytes|, (offset, length) => Ok(MemoryRead(bytes, offset, length)))
  }

  // The window's own offset is added without a check: release arithmetic modulo 2^64.
  function SubRead(parent: Source, window: nat, size: nat, offset: nat, length: nat): Result<seq<byte>, SourceError> {
    var start := Min(offset, size);
    var end := Min(start + length, size);
    if end == start then Ok([])
    else parent.read((window + start) % (U64_MAX + 1), end - start)
  }

  function SubSource(parent: Source, window: nat, size: nat): Source {
    Source(size, (offset, length) => SubRead(parent, window, size, offset, length))
  }

  // The bytes a file of 64-bit size holds from offset on, at most `length` of them.
  function Slice(file: seq<byte>, offset: nat, length: nat): seq<byte> {
    file[Min(offset, |file|)..Min(offset + length, |file|)]
  }

  ghost predicate SameReads(a: Source, b: Source) {
    forall offset: nat, length: nat :: a.read(offset, length) == b.read(offset, length)
  }

  ghost predicate SameSource(a: Source, b: Source) {
    a.size == b.size && SameReads(a, b)
  }

  // A window that lies inside the bytes cannot be told from a source holding just those bytes.
  lemma WindowIsExtract(bytes: seq<byte>, o: nat, s: nat)
    requires o + s <= |bytes| <= U64_MAX
    ensures SameSource(SubSource(MemorySource(bytes), o, s), MemorySource(bytes[o..o + s]))
  {
    var sub, extract := SubSource(MemorySource(bytes), o, s), MemorySource(bytes[o..o + s]);
    forall offset: nat, length: nat ensures sub.read(offset, length) == extract.read(offset, length) {
      WindowReadsExtract(bytes, o, s, offset, length);
    }
  }

  lemma WindowReadsExtract(bytes: seq<byte>, o: nat, s: nat, offset: nat, length: nat)
    requires o + s <= |bytes| <= U64_MAX
    ensures SubRead(MemorySource(bytes), o, s, offset, length) == Ok(MemoryRead(bytes[o..o + s], offset, length))
  {
    var start := Min(offset, s);
    var end := Min(start + length, s);
    var part := bytes[o..o + s];
    if start < end {
      NoWrap(o + start);
      SliceOfSlice(bytes, o, o + s, start, end);
      assert MemoryRead(bytes, o + start, end - start) == bytes[o + start..o + end];
    } else {
      assert MemoryRead(part, offset, length) == [];
    }
  }

  // A window of a window reads as their intersection, for any parent.
  lemma NestedWindows(p: Source, o1: nat, s1: nat, o2: nat, s2: nat)
    requires o1 + s1 <= U64_MAX && o2 + s2 <= U64_MAX
    ensures var inner := Min(o2, s1);
            SameReads(SubSource(SubSource(p, o1, s1), o2, s2), SubSource(p, o1 + inner, Min(s2, s1 - inner)))
    ensures o2 + s2 <= s1 ==> SameSource(SubSource(SubSource(p, o1, s1), o2, s2), SubSource(p, o1 + o2, s2))
  {
    hide SubRead;
    var inner := Min(o2, s1);
    var nested, single := SubSource(SubSource(p, o1, s1), o2, s2), SubSource(p, o1 + inner, Min(s2, s1 - inner));
    forall offset: nat, length: nat ensures nested.read(offset, length) == single.read(offset, length) {
      NestedRead(p, o1, s1, o2, s2, offset, length);
    }
  }

  lemma NestedRead(p: Source, o1: nat, s1: nat, o2: nat, s2: nat, offset: nat, length: nat)
    requires o1 + s1 <= U64_MAX && o2 + s2 <= U64_MAX
    ensures SubRead(SubSource(p, o1, s1), o2, s2, offset, length)
         == SubRead(p, o1 + Min(o2, s1), Min(s2, s1 - Min(o2, s1)), offset, length)
  {
    var start := Min(offset, s2);
    var end := Min(start + length, s2);
    if start < end {
      NoWrap(o2 + start);
      assert SubRead(SubSource(p, o1, s1), o2, s2, offset, length) == SubRead(p, o1, s1, o2 + start, end - start);
      hide *;
      Clip(p, o1, s1, o2, s2, offset, length, start, end);
    }
  }

  lemma NoWrap(x: nat)
    requires x <= U64_MAX
    ensures x % (U64_MAX + 1) == x
  {
  }

  lemma Clip(p: Source, o1: nat, s1: nat, o2: nat, s2: nat, offset: nat, length: nat, start: nat, end: nat)
    requires start == Min(offset, s2) && end == Min(start + length, s2) && start < end
    ensures SubRead(p, o1, s1, o2 + start, end - start)
         == SubRead(p, o1 + Min(o2, s1), Min(s2, s1 - Min(o2, s1)), offset, length)
  {
  }

  // ---------- Reading a file descriptor ----------

  // What the kernel does with one pread: it may be interrupted, fail, or move some bytes.
  datatype Outcome = Interrupted | Failed | Transfer(limit: nat)

  datatype PreadResult = Data(bytes: seq<byte>) | Interrupt | Failure

  // The largest file offset pread accepts (a signed 64-bit off_t).
  const OFF_MAX: nat := 0x7fff_ffff_ffff_ffff

  // What is left of a schedule, and the part in front of it.
  ghost predicate Behind(all: seq<Outcome>, left: seq<Outcome>) {
    |left| <= |all| && all[|all| - |left|..] == left
  }

  ghost function Consumed(all: seq<Outcome>, left: seq<Outcome>): seq<Outcome>
    requires Behind(all, left)
  {
    all[..|all| - |left|]
  }

  lemma ConsumeOne(all: seq<Outcome>, left: seq<Outcome>, next: seq<Outcome>)
    requires Behind(all, left) && next == if left == [] then [] else left[1..]
    ensures Behind(all, next)
    ensures Consumed(all, next) == Consumed(all, left) + if left == [] then [] else [left[0]]
  {
  }

  class FdSource {
    const file: seq<byte>
    const size: nat
    // Outcomes still to come; when they run out every pread transfers all it can.
    var schedule: seq<Outcome>

    constructor (file: seq<byte>, size: nat, schedule: seq<Outcome>)
      ensures this.file == file && this.size == size && this.schedule == schedule
    {
      this.file := file;
      this.size := size;
      this.schedule := schedule;
    }

    // The kernel: at least one byte unless at end of file, at most what was asked for.
    method Pread(count: nat, position: nat) returns (r: PreadResult)
      requires count > 0
      modifies this
      ensures old(schedule) == [] ==> schedule == [] && r.Data?
      ensures old(schedule) != [] ==> schedule == old(schedule)[1..]
      ensures old(schedule) != [] ==> (r.Interrupt? <==> old(schedule)[0].Interrupted?)
      ensures old(schedule) != [] ==> (r.Failure? <==> old(schedule)[0].Failed?)
      ensures r.Data? ==> |r.bytes| <= count && r.bytes == Slice(file, position, |r.bytes|)
      ensures r.Data? ==> (r.bytes == [] <==> position >= |file|)
    {
      var start := Min(position, |file|);
      var available := Min(count, |file| - start);
      var outcome := if schedule == [] then Transfer(count) else schedule[0];
      if schedule != [] {
        schedule := schedule[1..];
      }
      match outcome {
        case Interrupted => r := Interrupt;
        case Failed => r := Failure;
        case Transfer(limit) =>
          var n := if limit == 0 then Min(1, available) else Min(limit, available);
          r := Data(file[start..start + n]);
      }
    }

    // Reads until `length` bytes, the declared size or the end of the file.
    method Read(offset: nat, length: nat) returns (r: Result<seq<byte>, SourceError>)
      modifies this
      ensures r.Ok? ==> r.value == Slice(file, offset, if offset < size then Min(size - offset, length) else 0)
      ensures r.Ok? && size == |file| ==> r.value == MemoryRead(file, offset, length)
      ensures Behind(old(schedule), schedule)
      ensures r == Err(Io) <==> Failed in Consumed(old(schedule), schedule)
      ensures r == Err(OutOfRange) ==>
                offset < size && offset + Min(size - offset, length) > 0x8000_0000_0000_0000
      ensures offset < size && length > 0 && offset >= 0x8000_0000_0000_0000 ==> r == Err(OutOfRange)
    {
      hide Slice, MemoryRead;
      ghost var before := schedule;
      SliceEnds(file, offset, 0, 0);
      WholeFile(file, offset, length);
      if offset >= size || length == 0 {
        return Ok([]);
      }
      var actual := Min(size - offset, length);
      var output: array<byte> := new byte[actual](_ => 0);
      var done := 0;
      while done < actual
        invariant 0 <= done <= actual && (done > 0 ==> offset + done <= |file| && offset <= OFF_MAX)
        invariant output[..done] == Slice(file, offset, done)
        invariant Behind(before, schedule) && Failed !in Consumed(before, schedule)
        decreases actual - done, |schedule|
      {
        var absolute := offset + done;
        if absolute > OFF_MAX {
          return Err(OutOfRange);
        }
        ghost var left := schedule;
        var result := Pread(actual - done, absolute);
        ConsumeOne(before, left, schedule);
        match result {
          case Interrupt =>
          case Failure => return Err(Io);
          case Data(bytes) =>
            if |bytes| == 0 {
              SliceEnds(file, offset, done, actual);
              return Ok(output[..done]);
            }
            SliceAppend(file, offset, done, |bytes|);
            Store(output, done, bytes);
            done := done + |bytes|;
        }
      }
      assert output[..] == output[..done];
      return Ok(output[..]);
    }
  }

  lemma WholeFile(file: seq<byte>, offset: nat, length: nat)
    ensures MemoryRead(file, offset, length) == Slice(file, offset, if offset < |file| then Min(|file| - offset,
        length) else 0)
  {
  }

  method Store(output: array<byte>, at: nat, bytes: seq<byte>)
    requires at + |bytes| <= output.Length
    modifies output
    ensures output[..at + |bytes|] == old(output[..at]) + bytes
  {
    forall k | 0 <= k < |bytes| {
      output[at + k] := bytes[k];
    }
  }

  lemma SliceAppend(file: seq<byte>, offset: nat, a: nat, b: nat)
    requires b == |Slice(file, offset + a, b)|
    requires a > 0 ==> offset + a <= |file|
    ensures Slice(file, offset, a) + Slice(file, offset + a, b) == Slice(file, offset, a + b)
    ensures b > 0 ==> offset + a + b <= |file|
  {
  }

  lemma SliceEnds(file: seq<byte>, offset: nat, a: nat, b: nat)
    ensures Slice(file, offset, 0) == []
    ensures offset + a >= |file| && a <= b ==> Slice(file, offset, b) == Slice(file, offset, a)
  {
  }
}
