// The ZIP/ZIP64 directory reader over a range source.
module Zip {
  import opened Wrappers
  import opened Bytes
  import opened Binary
  import opened ByteSource

  const LOCAL_HEADER: nat := 0x0403_4b50
  const CENTRAL_HEADER: nat := 0x0201_4b50
  const EOCD: nat := 0x0605_4b50
  const ZIP64_EOCD: nat := 0x0606_4b50
  const ZIP64_LOCATOR: nat := 0x0706_4b50
  const ZIP64_EXTRA: nat := 0x0001
  const SENTINEL_32: nat := 0xffff_ffff
  const SENTINEL_16: nat := 0xffff
  const END_RECORD_WINDOW: nat := 0xffff + 22 + 76 + 0xffff

  datatype ZipError =
    | TooShort
    | MissingEocd
    | InvalidEocd
    | InvalidZip64
    | Truncated
    | Damaged
    | SourceFailed(error: SourceError)

  datatype ZipEntry = ZipEntry(name: seq<byte>, compression: nat, crc32: nat, compressedSize: nat,
                               uncompressedSize: nat, dataOffset: nat)

  datatype EndRecord = EndRecord(entryCount: nat, centralSize: nat, centralOffset: nat)

  // ---------- Checked fields ----------

  function U32(b: seq<byte>, o: nat): Result<nat, ZipError> {
    if o + 4 > |b| then Err(InvalidEocd) else Ok(Num(b, o, 4))
  }

  function Add(a: nat, b: nat): Result<nat, ZipError> {
    if a + b > U64_MAX then Err(Damaged) else Ok(a + b)
  }

  function ReadFrom(s: Source, offset: nat, length: nat): Result<seq<byte>, ZipError> {
    match s.read(offset, length)
    case Err(e) => Err(SourceFailed(e))
    case Ok(bytes) => Ok(bytes)
  }

  // ---------- End of central directory ----------

  predicate EocdAt(b: seq<byte>, i: nat) {
    U32(b, i) == Ok(EOCD)
  }

  // No end record starts at or after position `from` of b.
  predicate NoEocdFrom(b: seq<byte>, from: nat) {
    forall i: nat :: from <= i && i + 22 <= |b| ==> !EocdAt(b, i)
  }

  // The last position before `from` with an end record signature and room for the record.
  function LastEocd(b: seq<byte>, from: nat): (at: Option<nat>)
    ensures at.Some? ==> at.value < from && at.value + 22 <= |b| && EocdAt(b, at.value)
    ensures forall i: nat :: i < from && i + 22 <= |b| && (at.Some? ==> at.value < i) ==> !EocdAt(b, i)
    decreases from
  {
    if from == 0 then None
    else if from - 1 + 22 <= |b| && EocdAt(b, from - 1) then Some(from - 1)
    else LastEocd(b, from - 1)
  }

  // The backward scan over the tail.
  method FindEocd(tail: seq<byte>) returns (at: Option<nat>)
    ensures at == LastEocd(tail, |tail|)
  {
    if |tail| >= 22 {
      var i: nat := |tail| - 22 + 1;
      SkipShort(tail, i);
      while i > 0
        invariant i + 22 <= |tail| + 1
        invariant LastEocd(tail, |tail|) == LastEocd(tail, i)
      {
        i := i - 1;
        if U32(tail, i) == Ok(EOCD) {
          return Some(i);
        }
      }
    } else {
      SkipShort(tail, 0);
    }
    return None;
  }

  lemma SkipShort(b: seq<byte>, i: nat)
    requires i <= |b| && |b| < i + 22
    ensures LastEocd(b, |b|) == LastEocd(b, i)
  {
  }

  // What the end record found at `eocd` says, after any ZIP64 record behind it had its say.
  function EndRecordAt(s: Source, tail: seq<byte>, eocd: nat): Result<EndRecord, ZipError>
    requires eocd + 22 <= |tail|
  {
    var record := EndRecord(Num(tail, eocd + 10, 2), Num(tail, eocd + 12, 4), Num(tail, eocd + 16, 4));
    if eocd < 20 then Ok(record)
    else if Num(tail, eocd - 20, 4) == ZIP64_LOCATOR then Zip64Record(s, Num(tail, eocd - 12, 8))
    else if record.entryCount == SENTINEL_16 || record.centralOffset == SENTINEL_32 then Err(InvalidZip64)
    else Ok(record)
  }

  function Zip64Record(s: Source, offset: nat): Result<EndRecord, ZipError> {
    var record64 :- ReadFrom(s, offset, 56);
    if |record64| < 56 || Num(record64, 0, 4) != ZIP64_EOCD then Err(InvalidZip64)
    else Ok(EndRecord(Num(record64, 32, 8), Num(record64, 40, 8), Num(record64, 48, 8)))
  }

  function EndRecordOf(s: Source): Result<EndRecord, ZipError> {
    if s.size < 22 then Err(TooShort)
    else
      var window := Min(END_RECORD_WINDOW, s.size);
      var tail :- ReadFrom(s, s.size - window, window);
      match LastEocd(tail, |tail|)
      case None => Err(MissingEocd)
      case Some(eocd) => EndRecordAt(s, tail, eocd)
  }

  method ReadEnd(s: Source) returns (r: Result<EndRecord, ZipError>)
    ensures r == EndRecordOf(s)
  {
    hide LastEocd, ReadFrom, Num;
    if s.size < 22 {
      return Err(TooShort);
    }
    var window := Min(END_RECORD_WINDOW, s.size);
    var read := ReadFrom(s, s.size - window, window);
    if read.Err? {
      return Err(read.error);
    }
    var tail := read.value;
    var at := FindEocd(tail);
    if at.None? {
      return Err(MissingEocd);
    }
    var eocd := at.value;
    var record := EndRecord(Num(tail, eocd + 10, 2), Num(tail, eocd + 12, 4), Num(tail, eocd + 16, 4));
    if eocd >= 20 {
      var locator := eocd - 20;
      if Num(tail, locator, 4) == ZIP64_LOCATOR {
        var recordOffset := Num(tail, locator + 8, 8);
        var read64 := ReadFrom(s, recordOffset, 56);
        if read64.Err? {
          return Err(read64.error);
        }
        var record64 := read64.value;
        if |record64| < 56 || Num(record64, 0, 4) != ZIP64_EOCD {
          return Err(InvalidZip64);
        }
        record := EndRecord(Num(record64, 32, 8), Num(record64, 40, 8), Num(record64, 48, 8));
      } else if record.entryCount == SENTINEL_16 || record.centralOffset == SENTINEL_32 {
        return Err(InvalidZip64);
      }
    }
    return Ok(record);
  }

  // ---------- ZIP64 extra field ----------

  datatype Sizes = Sizes(uncompressed: nat, compressed: nat, localOffset: nat)

  // Takes one 64-bit value from the front of b if v is the sentinel.
  function TakeIfSentinel(b: seq<byte>, v: nat): Result<(nat, seq<byte>), ZipError> {
    if v != SENTINEL_32 then Ok((v, b))
    else if |b| < 8 then Err(InvalidZip64)
    else Ok((Num(b, 0, 8), b[8..]))
  }

  // Replaces the sentinels in order by the values at the front of b, which is everything that
  // follows the field's header, not only the field.
  function ReplaceSentinels(b: seq<byte>, v: Sizes): Result<Sizes, ZipError> {
    var (u, b1) :- TakeIfSentinel(b, v.uncompressed);
    var (c, b2) :- TakeIfSentinel(b1, v.compressed);
    var (l, _) :- TakeIfSentinel(b2, v.localOffset);
    Ok(Sizes(u, c, l))
  }

  // The walk over the extra fields: id, length, payload.
  function Zip64Values(extra: seq<byte>, v: Sizes): Result<Sizes, ZipError>
    decreases |extra|
  {
    if |extra| < 4 then Ok(v)
    else
      var id, len := Num(extra, 0, 2), Num(extra, 2, 2);
      if 4 + len > |extra| then Err(InvalidZip64)
      else
        var v1 :- if id == ZIP64_EXTRA then ReplaceSentinels(extra[4..], v) else Ok(v);
        Zip64Values(extra[4 + len..], v1)
  }

  method ReadZip64Values(extra: seq<byte>, v: Sizes) returns (r: Result<Sizes, ZipError>)
    ensures r == Zip64Values(extra, v)
  {
    hide TakeIfSentinel, Num;
    var Sizes(uncompressed, compressed, localOffset) := v;
    var p := 0;
    assert extra[0..] == extra;
    while p + 4 <= |extra|
      invariant 0 <= p <= |extra|
      invariant Zip64Values(extra, v) == Zip64Values(extra[p..], Sizes(uncompressed, compressed, localOffset))
      decreases |extra| - p
    {
      NumInSuffix(extra, p, 0, 2);
      NumInSuffix(extra, p, 2, 2);
      var id := Num(extra, p, 2);
      var len := Num(extra, p + 2, 2);
      var end := p + 4 + len;
      if end > |extra| {
        return Err(InvalidZip64);
      }
      assert extra[p..][4..] == extra[p + 4..] && extra[p..][4 + len..] == extra[end..];
      if id == ZIP64_EXTRA {
        var replaced := ReadReplacements(extra, p + 4, Sizes(uncompressed, compressed, localOffset));
        if replaced.Err? {
          return Err(replaced.error);
        }
        uncompressed, compressed, localOffset :=
          replaced.value.uncompressed, replaced.value.compressed, replaced.value.localOffset;
      }
      p := end;
    }
    return Ok(Sizes(uncompressed, compressed, localOffset));
  }

  lemma NumInSuffix(b: seq<byte>, p: nat, k: nat, n: nat)
    requires p + k + n <= |b|
    ensures Num(b[p..], k, n) == Num(b, p + k, n)
  {
    assert b[p..][k..k + n] == b[p + k..p + k + n];
  }

  method ReadReplacements(extra: seq<byte>, from: nat, v: Sizes) returns (r: Result<Sizes, ZipError>)
    requires from <= |extra|
    ensures r == ReplaceSentinels(extra[from..], v)
  {
    hide Num;
    var Sizes(uncompressed, compressed, localOffset) := v;
    var f := from;
    if uncompressed == SENTINEL_32 {
      if f + 8 > |extra| {
        return Err(InvalidZip64);
      }
      NumInSuffix(extra, f, 0, 8);
      assert extra[f..][8..] == extra[f + 8..];
      uncompressed := Num(extra, f, 8);
      f := f + 8;
    }
    if compressed == SENTINEL_32 {
      if f + 8 > |extra| {
        return Err(InvalidZip64);
      }
      NumInSuffix(extra, f, 0, 8);
      assert extra[f..][8..] == extra[f + 8..];
      compressed := Num(extra, f, 8);
      f := f + 8;
    }
    if localOffset == SENTINEL_32 {
      if f + 8 > |extra| {
        return Err(InvalidZip64);
      }
      NumInSuffix(extra, f, 0, 8);
      localOffset := Num(extra, f, 8);
    }
    return Ok(Sizes(uncompressed, compressed, localOffset));
  }

  // ---------- Central directory ----------

  // The entry whose central header starts at `cursor`, and where the next one starts.
  function EntryAt(s: Source, central: seq<byte>, cursor: nat): Result<(ZipEntry, nat), ZipError> {
    if cursor + 46 > |central| || Num(central, cursor, 4) != CENTRAL_HEADER then Err(Damaged)
    else
      var nameEnd := cursor + 46 + Num(central, cursor + 28, 2);
      var extraEnd := nameEnd + Num(central, cursor + 30, 2);
      var next := extraEnd + Num(central, cursor + 32, 2);
      if next > |central| then Err(Truncated)
      else
        var recorded := Sizes(Num(central, cursor + 24, 4), Num(central, cursor + 20, 4), Num(central, cursor + 42, 4));
        var sizes :- Zip64Values(central[nameEnd..extraEnd], recorded);
        var dataOffset :- DataOffset(s, sizes.localOffset);
        Ok((ZipEntry(central[cursor + 46..nameEnd], Num(central, cursor + 10, 2), Num(central, cursor + 16, 4),
                     sizes.compressed, sizes.uncompressed, dataOffset), next))
  }

  // Where the data starts behind the local header at `localOffset`.
  function DataOffset(s: Source, localOffset: nat): Result<nat, ZipError> {
    var local :- ReadFrom(s, localOffset, 30);
    if |local| < 30 || Num(local, 0, 4) != LOCAL_HEADER then Err(Damaged)
    else
      var afterHeader :- Add(localOffset, 30);
      var variable :- Add(Num(local, 26, 2), Num(local, 28, 2));
      Add(afterHeader, variable)
  }

  function Walk(s: Source, central: seq<byte>, cursor: nat, count: nat): (r: Result<seq<ZipEntry>, ZipError>)
    ensures r.Ok? ==> |r.value| == count
    decreases count
  {
    if count == 0 then Ok([])
    else
      var (entry, next) :- EntryAt(s, central, cursor);
      var rest :- Walk(s, central, next, count - 1);
      Ok([entry] + rest)
  }

  function Listing(s: Source): Result<seq<ZipEntry>, ZipError> {
    var end :- EndRecordOf(s);
    var central :- ReadFrom(s, end.centralOffset, end.centralSize);
    if |central| != end.centralSize then Err(Truncated)
    else Walk(s, central, 0, end.entryCount)
  }

  method ReadEntry(s: Source, central: seq<byte>, cursor: nat) returns (r: Result<(ZipEntry, nat), ZipError>)
    ensures r == EntryAt(s, central, cursor)
  {
    hide Num, DataOffset, Zip64Values;
    if cursor + 46 > |central| || Num(central, cursor, 4) != CENTRAL_HEADER {
      return Err(Damaged);
    }
    var compression := Num(central, cursor + 10, 2);
    var crc32 := Num(central, cursor + 16, 4);
    var compressed := Num(central, cursor + 20, 4);
    var uncompressed := Num(central, cursor + 24, 4);
    var nameLen := Num(central, cursor + 28, 2);
    var extraLen := Num(central, cursor + 30, 2);
    var commentLen := Num(central, cursor + 32, 2);
    var localOffset := Num(central, cursor + 42, 4);
    var nameStart := cursor + 46;
    var nameEnd := nameStart + nameLen;
    var extraEnd := nameEnd + extraLen;
    var next := extraEnd + commentLen;
    if next > |central| {
      return Err(Truncated);
    }
    var name := central[nameStart..nameEnd];
    var values := ReadZip64Values(central[nameEnd..extraEnd], Sizes(uncompressed, compressed, localOffset));
    if values.Err? {
      return Err(values.error);
    }
    var dataOffset := DataOffset(s, values.value.localOffset);
    if dataOffset.Err? {
      return Err(dataOffset.error);
    }
    return Ok((ZipEntry(name, compression, crc32, values.value.compressed, values.value.uncompressed,
        dataOffset.value), next));
  }

  method List(s: Source) returns (r: Result<seq<ZipEntry>, ZipError>)
    ensures r == Listing(s)
  {
    hide EndRecordOf, ReadFrom, EntryAt;
    var end := ReadEnd(s);
    if end.Err? {
      return Err(end.error);
    }
    var read := ReadFrom(s, end.value.centralOffset, end.value.centralSize);
    if read.Err? {
      return Err(read.error);
    }
    var central := read.value;
    if |central| != end.value.centralSize {
      return Err(Truncated);
    }
    var entries: seq<ZipEntry> := [];
    var cursor: nat := 0;
    var count := end.value.entryCount;
    PrependNothing(Walk(s, central, 0, count));
    for index := 0 to count
      invariant |entries| == index
      invariant Walk(s, central, 0, count) == Prepend(entries, Walk(s, central, cursor, count - index))
    {
      var entry := ReadEntry(s, central, cursor);
      if entry.Err? {
        return Err(entry.error);
      }
      PrependOne(entries, entry.value.0, Walk(s, central, entry.value.1, count - index - 1));
      entries := entries + [entry.value.0];
      cursor := entry.value.1;
    }
    assert entries + [] == entries;
    return Ok(entries);
  }

  lemma PrependNothing(r: Result<seq<ZipEntry>, ZipError>)
    ensures Prepend([], r) == r
  {
    if r.Ok? {
      assert [] + r.value == r.value;
    }
  }

  lemma PrependOne(entries: seq<ZipEntry>, e: ZipEntry, r: Result<seq<ZipEntry>, ZipError>)
    ensures Prepend(entries + [e], r) == Prepend(entries, Prepend([e], r))
  {
    if r.Ok? {
      Regroup(entries, [e], r.value);
    }
  }

  function Prepend(entries: seq<ZipEntry>, r: Result<seq<ZipEntry>, ZipError>): Result<seq<ZipEntry>, ZipError> {
    match r
    case Err(e) => Err(e)
    case Ok(rest) => Ok(entries + rest)
  }
}
