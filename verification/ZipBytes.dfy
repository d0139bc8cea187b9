// Which bytes the reader accepts, byte by byte, and the error for everything else.
module ZipBytes {
  import opened Wrappers
  import opened Bytes
  import opened Binary
  import opened ByteSource
  import opened Zip
  import opened ZipTheory

  // ---------- Signatures ----------

  // The signature "PK" followed by x and y stands at o.
  predicate Signature(b: seq<byte>, o: nat, x: byte, y: byte) {
    o + 4 <= |b| && b[o] == 0x50 && b[o + 1] == 0x4b && b[o + 2] == x && b[o + 3] == y
  }

  // The five signatures of section 4.3 of the ZIP file format specification (APPNOTE.TXT).
  lemma Signatures(b: seq<byte>, o: nat)
    requires o + 4 <= |b|
    ensures Num(b, o, 4) == LOCAL_HEADER <==> Signature(b, o, 3, 4)
    ensures Num(b, o, 4) == CENTRAL_HEADER <==> Signature(b, o, 1, 2)
    ensures Num(b, o, 4) == EOCD <==> Signature(b, o, 5, 6)
    ensures Num(b, o, 4) == ZIP64_EOCD <==> Signature(b, o, 6, 6)
    ensures Num(b, o, 4) == ZIP64_LOCATOR <==> Signature(b, o, 6, 7)
  {
    hide Num;
    NumIsLong(b, o);
  }

  // ---------- The end record ----------

  lemma EocdInBytes(b: seq<byte>, i: nat)
    ensures EocdAt(b, i) <==> Signature(b, i, 5, 6)
  {
    if i + 4 <= |b| {
      Signatures(b, i);
    }
  }

  // A 64-bit record counts only behind a locator and with its own signature; without a locator
  // the sentinels are an error.
  lemma EndRecordInBytes(s: Source, tail: seq<byte>, e: nat)
    requires e + 22 <= |tail|
    ensures var r := EndRecordAt(s, tail, e);
            if e >= 20 && Signature(tail, e - 20, 6, 7)
            then match s.read(Num(tail, e - 12, 8), 56)
              case Err(error) => r == Err(SourceFailed(error))
              case Ok(b) =>
                if |b| >= 56 && Signature(b, 0, 6, 6)
                then r == Ok(EndRecord(Num(b, 32, 8), Num(b, 40, 8), Num(b, 48, 8)))
                else r == Err(InvalidZip64)
            else if e >= 20 && (Short(tail, e + 10) == 0xffff || Long(tail, e + 16) == 0xffff_ffff)
            then r == Err(InvalidZip64)
            else r == Ok(EndRecord(Short(tail, e + 10), Long(tail, e + 12), Long(tail, e + 16)))
  {
    hide Num, Short, Long;
    NumIsShort(tail, e + 10);
    NumIsLong(tail, e + 12);
    NumIsLong(tail, e + 16);
    if e >= 20 {
      Signatures(tail, e - 20);
      var read := s.read(Num(tail, e - 12, 8), 56);
      if read.Ok? && |read.value| >= 56 {
        Signatures(read.value, 0);
      }
    }
  }

  // ---------- Extra data ----------

  lemma {:induction false} OnlyInvalidZip64(extra: seq<byte>, v: Sizes)
    ensures Zip64Values(extra, v).Err? ==> Zip64Values(extra, v).error == InvalidZip64
    decreases |extra|
  {
    hide Num;
    if |extra| >= 4 {
      var id, len := Num(extra, 0, 2), Num(extra, 2, 2);
      if 4 + len <= |extra| {
        if id != ZIP64_EXTRA {
          OnlyInvalidZip64(extra[4 + len..], v);
        } else if ReplaceSentinels(extra[4..], v).Ok? {
          OnlyInvalidZip64(extra[4 + len..], ReplaceSentinels(extra[4..], v).value);
        }
      }
    }
  }

  // A field that runs past the end of the extra data is an error, wherever it stands.
  lemma {:induction false} TruncatedField(fs: seq<Field>, rest: seq<byte>, v: Sizes)
    requires ValidFields(fs) && |rest| >= 4 && 4 + Short(rest, 2) > |rest|
    ensures Zip64Values(EncodeFields(fs) + rest, v) == Err(InvalidZip64)
    decreases |fs|
  {
    hide Zip64Values, ReplaceSentinels, EncodeField;
    if fs == [] {
      assert [] + rest == rest;
      TruncatedFirst(rest, v);
    } else {
      var more := EncodeFields(fs[1..]) + rest;
      Regroup(EncodeField(fs[0]), EncodeFields(fs[1..]), rest);
      OneField(fs[0], more, v);
      TruncatedField(fs[1..], rest, v);
      var replaced := ReplaceSentinels(fs[0].payload + more, v);
      ReplaceSucceedsIffLongEnough(fs[0].payload + more, v);
      if replaced.Ok? {
        TruncatedField(fs[1..], rest, replaced.value);
      }
    }
  }

  lemma TruncatedFirst(rest: seq<byte>, v: Sizes)
    requires |rest| >= 4 && 4 + Short(rest, 2) > |rest|
    ensures Zip64Values(rest, v) == Err(InvalidZip64)
  {
    NumIsShort(rest, 2);
  }

  // One field with id 1: a value for the one size that is all ones, or three values in the order
  // uncompressed size, compressed size, offset.
  lemma ExtraExample()
    ensures Zip64Values([1, 0, 8, 0, 5, 0, 0, 0, 1, 0, 0, 0], Sizes(0xffff_ffff, 7, 9))
         == Ok(Sizes(0x1_0000_0005, 7, 9))
    ensures Zip64Values([1, 0, 24, 0] + LowEight(1) + LowEight(2) + LowEight(3), Sizes(0xffff_ffff, 0xffff_ffff, 0xffff_ffff))
         == Ok(Sizes(1, 2, 3))
  {
    hide Num;
    var extra: seq<byte> := [1, 0, 8, 0, 5, 0, 0, 0, 1, 0, 0, 0];
    NumIsShort(extra, 0);
    NumIsShort(extra, 2);
    assert extra[12..] == [];
    assert extra[4..] == [5, 0, 0, 0, 1, 0, 0, 0];
    EightBytes(extra[4..]);
    ThreeValues();
  }

  // A small value in eight bytes.
  function LowEight(v: byte): (b: seq<byte>)
    ensures |b| == 8
  {
    [v, 0, 0, 0, 0, 0, 0, 0]
  }

  lemma ThreeValues()
    ensures Zip64Values([1, 0, 24, 0] + LowEight(1) + LowEight(2) + LowEight(3), Sizes(0xffff_ffff, 0xffff_ffff, 0xffff_ffff))
         == Ok(Sizes(1, 2, 3))
  {
    hide Num, LowEight;
    var extra := [1, 0, 24, 0] + LowEight(1) + LowEight(2) + LowEight(3);
    NumIsShort(extra, 0);
    NumIsShort(extra, 2);
    assert extra[28..] == [];
    assert extra[4..] == LowEight(1) + (LowEight(2) + LowEight(3));
    TakeWide(1, LowEight(2) + LowEight(3));
    TakeWide(2, LowEight(3));
    assert LowEight(3) + [] == LowEight(3);
    TakeWide(3, []);
  }

  lemma TakeWide(v: byte, rest: seq<byte>)
    ensures TakeIfSentinel(LowEight(v) + rest, 0xffff_ffff) == Ok((v as nat, rest))
  {
    hide Num;
    EightBytes(LowEight(v) + rest);
    assert (LowEight(v) + rest)[8..] == rest;
  }

  // ---------- One directory record ----------

  // Forty-six bytes are left at `cursor` and begin with the signature of a directory record.
  predicate RecordBegins(central: seq<byte>, cursor: nat) {
    cursor + 46 <= |central| && Signature(central, cursor, 1, 2)
  }

  // Where its name, extra data and comment end.
  function RecordEnd(central: seq<byte>, cursor: nat): nat
    requires cursor + 46 <= |central|
  {
    cursor + 46 + Short(central, cursor + 28) + Short(central, cursor + 30) + Short(central, cursor + 32)
  }

  // Its sizes and offset, as recorded or from its extra data.
  function RecordSizes(central: seq<byte>, cursor: nat): Result<Sizes, ZipError>
    requires cursor + 46 <= |central| && RecordEnd(central, cursor) <= |central|
  {
    var nameEnd := cursor + 46 + Short(central, cursor + 28);
    Zip64Values(central[nameEnd..nameEnd + Short(central, cursor + 30)],
                Sizes(Long(central, cursor + 24), Long(central, cursor + 20), Long(central, cursor + 42)))
  }

  // What the local header at `offset` says of the data's place.
  function LocalData(s: Source, offset: nat): Result<nat, ZipError> {
    match s.read(offset, 30)
    case Err(e) => Err(SourceFailed(e))
    case Ok(b) =>
      if |b| < 30 || !Signature(b, 0, 3, 4) then Err(Damaged)
      else
        var at := offset + 30 + Short(b, 26) + Short(b, 28);
        if at > 0xffff_ffff_ffff_ffff then Err(Damaged) else Ok(at)
  }

  // The record read byte by byte, with the error of the first thing wrong with it.
  function RecordInBytes(s: Source, central: seq<byte>, cursor: nat): Result<(ZipEntry, nat), ZipError> {
    if !RecordBegins(central, cursor) then Err(Damaged)
    else if RecordEnd(central, cursor) > |central| then Err(Truncated)
    else
      match RecordSizes(central, cursor)
      case Err(_) => Err(InvalidZip64)
      case Ok(sizes) =>
        match LocalData(s, sizes.localOffset)
        case Err(e) => Err(e)
        case Ok(at) =>
          var nameEnd := cursor + 46 + Short(central, cursor + 28);
          Ok((ZipEntry(central[cursor + 46..nameEnd], Short(central, cursor + 10), Long(central, cursor + 16),
                       sizes.compressed, sizes.uncompressed, at), RecordEnd(central, cursor)))
  }

  lemma DataOffsetInBytes(s: Source, offset: nat)
    ensures DataOffset(s, offset) == LocalData(s, offset)
  {
    hide Num, Short;
    var read := s.read(offset, 30);
    if read.Ok? && |read.value| >= 30 {
      Signatures(read.value, 0);
      NumIsShort(read.value, 26);
      NumIsShort(read.value, 28);
      ShortBound(read.value, 26);
      ShortBound(read.value, 28);
    }
  }

  lemma ShortBound(b: seq<byte>, o: nat)
    requires o + 2 <= |b|
    ensures Short(b, o) <= 0xffff
  {
  }

  lemma EntryInBytes(s: Source, central: seq<byte>, cursor: nat)
    ensures EntryAt(s, central, cursor) == RecordInBytes(s, central, cursor)
  {
    hide Num, Short, Long, Zip64Values, DataOffset, LocalData, Signature;
    if cursor + 46 <= |central| {
      Signatures(central, cursor);
      NumIsShort(central, cursor + 10);
      NumIsLong(central, cursor + 16);
      NumIsLong(central, cursor + 20);
      NumIsLong(central, cursor + 24);
      NumIsShort(central, cursor + 28);
      NumIsShort(central, cursor + 30);
      NumIsShort(central, cursor + 32);
      NumIsLong(central, cursor + 42);
      if RecordEnd(central, cursor) <= |central| {
        var nameEnd := cursor + 46 + Short(central, cursor + 28);
        var extra := central[nameEnd..nameEnd + Short(central, cursor + 30)];
        OnlyInvalidZip64(extra, Sizes(Long(central, cursor + 24), Long(central, cursor + 20),
            Long(central, cursor + 42)));
        if RecordSizes(central, cursor).Ok? {
          DataOffsetInBytes(s, RecordSizes(central, cursor).value.localOffset);
        }
      }
    }
  }

  // A record is listed exactly if it begins with its signature, ends inside the directory, its
  // extra data resolves, and a local header with its signature stands where it points.
  lemma EntryAcceptedIff(s: Source, central: seq<byte>, cursor: nat)
    ensures EntryAt(s, central, cursor).Ok? <==>
              && cursor + 46 <= |central| && central[cursor..cursor + 4] == [0x50, 0x4b, 0x01, 0x02]
              && RecordEnd(central, cursor) <= |central|
              && RecordSizes(central, cursor).Ok?
              && var offset := RecordSizes(central, cursor).value.localOffset;
                 var read := s.read(offset, 30);
                 && read.Ok? && |read.value| >= 30 && read.value[..4] == [0x50, 0x4b, 0x03, 0x04]
                 && offset + 30 + Short(read.value, 26) + Short(read.value, 28) <= 0xffff_ffff_ffff_ffff
  {
    hide EntryAt, RecordSizes, Short, RecordEnd;
    EntryInBytes(s, central, cursor);
    if cursor + 46 <= |central| {
      FourBytes(central, cursor, 1, 2);
      if RecordEnd(central, cursor) <= |central| && RecordSizes(central, cursor).Ok? {
        var read := s.read(RecordSizes(central, cursor).value.localOffset, 30);
        if read.Ok? && |read.value| >= 30 {
          FourBytes(read.value, 0, 3, 4);
        }
      }
    }
  }

  lemma FourBytes(b: seq<byte>, o: nat, x: byte, y: byte)
    requires o + 4 <= |b|
    ensures b[o..o + 4] == [0x50, 0x4b, x, y] <==> Signature(b, o, x, y)
  {
    var four := b[o..o + 4];
    assert four[0] == b[o] && four[1] == b[o + 1] && four[2] == b[o + 2] && four[3] == b[o + 3];
  }

  // ---------- The directory ----------

  // The first k records are listed and the next one would start at `at`.
  predicate Reaches(s: Source, central: seq<byte>, cursor: nat, k: nat, at: nat)
    decreases k
  {
    if k == 0 then at == cursor
    else EntryAt(s, central, cursor).Ok? && Reaches(s, central, EntryAt(s, central, cursor).value.1, k - 1, at)
  }

  // A record that fails behind k good ones makes the whole directory fail with its error ...
  lemma {:induction false} WalkFails(s: Source, central: seq<byte>, cursor: nat, count: nat, k: nat, at: nat)
    requires k < count && Reaches(s, central, cursor, k, at) && EntryAt(s, central, at).Err?
    ensures Walk(s, central, cursor, count) == Err(EntryAt(s, central, at).error)
    decreases k
  {
    hide EntryAt;
    if k > 0 {
      WalkFails(s, central, EntryAt(s, central, cursor).value.1, count - 1, k - 1, at);
    }
  }

  // ... there is such a record whenever it fails ...
  lemma {:induction false} WalkFailsBecause(s: Source, central: seq<byte>, cursor: nat, count: nat)
    returns (k: nat, at: nat)
    requires Walk(s, central, cursor, count).Err?
    ensures k < count && Reaches(s, central, cursor, k, at) && EntryAt(s, central, at).Err?
    ensures Walk(s, central, cursor, count) == Err(EntryAt(s, central, at).error)
    decreases count
  {
    hide EntryAt;
    if EntryAt(s, central, cursor).Err? {
      k, at := 0, cursor;
    } else {
      k, at := WalkFailsBecause(s, central, EntryAt(s, central, cursor).value.1, count - 1);
      k := k + 1;
    }
  }

  // ... and otherwise the k-th entry listed is that of the k-th record.
  lemma {:induction false} WalkLists(s: Source, central: seq<byte>, cursor: nat, count: nat, k: nat) returns (at: nat)
    requires Walk(s, central, cursor, count).Ok? && k < count
    ensures Reaches(s, central, cursor, k, at) && EntryAt(s, central, at).Ok?
    ensures Walk(s, central, cursor, count).value[k] == EntryAt(s, central, at).value.0
    decreases k
  {
    hide EntryAt;
    if k == 0 {
      at := cursor;
    } else {
      at := WalkLists(s, central, EntryAt(s, central, cursor).value.1, count - 1, k - 1);
    }
  }

  // The listing of an archive whose directory was read: it fails exactly if some record before
  // the counted ones are through fails, and with that record's error.
  lemma ListingFails(s: Source, central: seq<byte>, k: nat, at: nat)
    requires EndRecordOf(s).Ok?
    requires var end := EndRecordOf(s).value;
             && s.read(end.centralOffset, end.centralSize) == Ok(central) && |central| == end.centralSize
             && k < end.entryCount
    requires Reaches(s, central, 0, k, at) && EntryAt(s, central, at).Err?
    ensures Listing(s) == Err(EntryAt(s, central, at).error)
  {
    hide EndRecordOf, EntryAt, Walk;
    WalkFails(s, central, 0, EndRecordOf(s).value.entryCount, k, at);
  }

  // What the listing returns before it looks at any record.
  lemma ListingErrors(s: Source)
    ensures EndRecordOf(s).Err? ==> Listing(s) == Err(EndRecordOf(s).error)
    ensures EndRecordOf(s).Ok? ==>
              var end := EndRecordOf(s).value;
              match s.read(end.centralOffset, end.centralSize)
              case Err(e) => Listing(s) == Err(SourceFailed(e))
              case Ok(central) => |central| != end.centralSize ==> Listing(s) == Err(Truncated)
  {
    hide EndRecordOf, Walk;
  }
}
