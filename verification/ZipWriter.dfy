// A writer of ZIP and ZIP64 archives, and the round trip with the reader.
module ZipWriter {
  import opened Wrappers
  import opened Bytes
  import opened Binary
  import opened ByteSource
  import opened Zip
  import opened ZipTheory

  type Header30 = h: seq<byte> | |h| == 30 witness Blank(30)

  type Header46 = h: seq<byte> | |h| == 46 witness Blank(46)

  // What a member is made of. The bases hold the header bytes the reader does not look at
  // (versions, flags, times, attributes, the local copies of checksum and sizes), the trailer
  // whatever stands between the data and the next member, such as a data descriptor.
  datatype Member = Member(name: seq<byte>, compression: nat, crc32: nat, data: seq<byte>, uncompressed: nat,
                           localExtra: seq<byte>, fields: seq<Field>, comment: seq<byte>, trailer: seq<byte>,
                           localBase: Header30, centralBase: Header46)

  // ---------- Writing ----------

  // A 32-bit field holding v, or the sentinel that sends the reader to the ZIP64 field.
  function Cap(v: nat): (c: nat)
    ensures c <= SENTINEL_32
  {
    if v >= SENTINEL_32 then SENTINEL_32 else v
  }

  function Capped(v: Sizes): Sizes {
    Sizes(Cap(v.uncompressed), Cap(v.compressed), Cap(v.localOffset))
  }

  function Wide(v: nat): seq<byte> {
    if v >= SENTINEL_32 then ToLE(v, 8) else []
  }

  function Zip64Payload(v: Sizes): (p: seq<byte>)
    ensures |p| <= 24
  {
    Wide(v.uncompressed) + (Wide(v.compressed) + Wide(v.localOffset))
  }

  function CentralExtra(v: Sizes, fields: seq<Field>): seq<byte> {
    if Zip64Payload(v) == [] then EncodeFields(fields)
    else EncodeField(Field(ZIP64_EXTRA, Zip64Payload(v))) + EncodeFields(fields)
  }

  function MemberSizes(m: Member, offset: nat): Sizes {
    Sizes(m.uncompressed, |m.data|, offset)
  }

  predicate ValidMember(m: Member, offset: nat) {
    && |m.name| <= U16_MAX && m.compression <= U16_MAX && m.crc32 <= U32_MAX && m.uncompressed <= U64_MAX
    && |m.localExtra| <= U16_MAX && |m.comment| <= U16_MAX
    && ValidFields(m.fields) && NoZip64(m.fields)
    && |CentralExtra(MemberSizes(m, offset), m.fields)| <= U16_MAX
  }

  function LocalHeader(m: Member): (h: seq<byte>)
    ensures |h| == 30
  {
    Put(Put(Put(m.localBase, 0, 4, LOCAL_HEADER), 26, 2, |m.name|), 28, 2, |m.localExtra|)
  }

  function LocalRecord(m: Member): (b: seq<byte>)
    ensures |b| == 30 + |m.name| + |m.localExtra| + |m.data| + |m.trailer|
  {
    LocalHeader(m) + (m.name + m.localExtra) + (m.data + m.trailer)
  }

  function CentralHeader(m: Member, offset: nat): (h: seq<byte>)
    ensures |h| == 46
  {
    var h := Put(Put(Put(m.centralBase, 0, 4, CENTRAL_HEADER), 10, 2, m.compression), 16, 4, m.crc32);
    var sizes := Put(Put(h, 20, 4, Cap(|m.data|)), 24, 4, Cap(m.uncompressed));
    var lengths := Put(Put(Put(sizes, 28, 2, |m.name|), 30, 2, |CentralExtra(MemberSizes(m, offset), m.fields)|), 32,
        2, |m.comment|);
    Put(lengths, 42, 4, Cap(offset))
  }

  function CentralRecord(m: Member, offset: nat): seq<byte> {
    CentralHeader(m, offset) + (m.name + (CentralExtra(MemberSizes(m, offset), m.fields) + m.comment))
  }

  function Locals(ms: seq<Member>): seq<byte> {
    if ms == [] then [] else LocalRecord(ms[0]) + Locals(ms[1..])
  }

  function Central(ms: seq<Member>, offset: nat): seq<byte> {
    if ms == [] then [] else CentralRecord(ms[0], offset) + Central(ms[1..], offset + |LocalRecord(ms[0])|)
  }

  predicate ValidMembers(ms: seq<Member>, offset: nat) {
    ms != [] ==> ValidMember(ms[0], offset) && ValidMembers(ms[1..], offset + |LocalRecord(ms[0])|)
  }

  // What the listing has to be.
  function Entry(m: Member, offset: nat): ZipEntry {
    ZipEntry(m.name, m.compression, m.crc32, |m.data|, m.uncompressed, offset + 30 + (|m.name| + |m.localExtra|))
  }

  function Entries(ms: seq<Member>, offset: nat): (es: seq<ZipEntry>)
    ensures |es| == |ms|
  {
    if ms == [] then [] else [Entry(ms[0], offset)] + Entries(ms[1..], offset + |LocalRecord(ms[0])|)
  }

  // ---------- Headers read back ----------

  lemma LocalHeaderFields(m: Member)
    requires |m.name| <= U16_MAX && |m.localExtra| <= U16_MAX
    ensures var h := LocalHeader(m);
            Num(h, 0, 4) == LOCAL_HEADER && Num(h, 26, 2) == |m.name| && Num(h, 28, 2) == |m.localExtra|
  {
    hide Num, Put;
    Capacities();
    PutNums();
  }

  lemma CentralHeaderFields(m: Member, offset: nat)
    requires ValidMember(m, offset)
    ensures var h := CentralHeader(m, offset);
            && Num(h, 0, 4) == CENTRAL_HEADER && Num(h, 10, 2) == m.compression && Num(h, 16, 4) == m.crc32
            && Num(h, 20, 4) == Cap(|m.data|) && Num(h, 24, 4) == Cap(m.uncompressed)
            && Num(h, 28, 2) == |m.name| && Num(h, 30, 2) == |CentralExtra(MemberSizes(m, offset), m.fields)|
            && Num(h, 32, 2) == |m.comment| && Num(h, 42, 4) == Cap(offset)
  {
    hide Num, Put, CentralExtra, ValidFields, NoZip64;
    Capacities();
    PutNums();
  }

  // ---------- One entry read back ----------

  lemma WideTaken(v: nat, b: seq<byte>)
    requires v <= U64_MAX
    ensures TakeIfSentinel(Wide(v) + b, Cap(v)) == Ok((v, b))
  {
    if v >= SENTINEL_32 {
      Capacities();
      FromToLE(v, 8);
      var w := ToLE(v, 8) + b;
      assert w[0..8] == ToLE(v, 8) && w[8..] == b;
    } else {
      assert [] + b == b;
    }
  }

  predicate Fits(v: Sizes) {
    v.uncompressed <= U64_MAX && v.compressed <= U64_MAX && v.localOffset <= U64_MAX
  }

  lemma PayloadTaken(v: Sizes, rest: seq<byte>)
    requires Fits(v)
    ensures ReplaceSentinels(Zip64Payload(v) + rest, Capped(v)) == Ok(v)
  {
    hide TakeIfSentinel, Wide, Cap;
    var wu, wc, wl := Wide(v.uncompressed), Wide(v.compressed), Wide(v.localOffset);
    Regroup(wu, wc + wl, rest);
    Regroup(wc, wl, rest);
    WideTaken(v.uncompressed, wc + (wl + rest));
    WideTaken(v.compressed, wl + rest);
    WideTaken(v.localOffset, rest);
  }

  // The extra field restores every value its header could not hold.
  lemma ExtraRoundTrip(v: Sizes, fields: seq<Field>)
    requires Fits(v) && ValidFields(fields) && NoZip64(fields)
    ensures Zip64Values(CentralExtra(v, fields), Capped(v)) == Ok(v)
  {
    hide ReplaceSentinels, EncodeField, ValidFields, NoZip64;
    var payload, rest := Zip64Payload(v), EncodeFields(fields);
    assert rest + [] == rest;
    if payload == [] {
      assert Capped(v) == v;
      OtherFieldsIgnored(fields, [], v);
    } else {
      hide Zip64Values, Zip64Payload;
      NoFields();
      var f := EncodeField(Field(ZIP64_EXTRA, payload));
      assert EncodeFields([]) + (f + (rest + [])) == f + rest;
      SingleZip64Field([], payload, fields, [], Capped(v));
      PayloadTaken(v, rest);
    }
  }

  lemma NoFields()
    ensures EncodeFields([]) == [] && ValidFields([]) && NoZip64([])
  {
  }

  lemma RecordField(central: seq<byte>, cursor: nat, m: Member, offset: nat, k: nat, n: nat)
    requires var rec := CentralRecord(m, offset);
             cursor + |rec| <= |central| && central[cursor..cursor + |rec|] == rec
    requires k + n <= 46
    ensures Num(central, cursor + k, n) == Num(CentralHeader(m, offset), k, n)
  {
    hide Num, CentralHeader, CentralExtra;
    var rec, h := CentralRecord(m, offset), CentralHeader(m, offset);
    NumInside(central, cursor, rec, k, n);
    Halves(h, m.name + (CentralExtra(MemberSizes(m, offset), m.fields) + m.comment));
    assert rec[0..0 + |h|] == h;
    NumInside(rec, 0, h, k, n);
  }

  // The variable part of a record: name, extra, comment.
  lemma RecordParts(central: seq<byte>, cursor: nat, m: Member, offset: nat)
    requires var rec := CentralRecord(m, offset);
             cursor + |rec| <= |central| && central[cursor..cursor + |rec|] == rec
    ensures var extra := CentralExtra(MemberSizes(m, offset), m.fields);
            var nameEnd := cursor + 46 + |m.name|;
            && |CentralRecord(m, offset)| == 46 + |m.name| + |extra| + |m.comment|
            && nameEnd + |extra| <= |central|
            && central[cursor + 46..nameEnd] == m.name && central[nameEnd..nameEnd + |extra|] == extra
  {
    hide CentralHeader, CentralExtra;
    var extra := CentralExtra(MemberSizes(m, offset), m.fields);
    var rec, n := CentralRecord(m, offset), |m.name|;
    SliceOfSlice(central, cursor, cursor + |rec|, 46, 46 + n);
    SliceOfSlice(central, cursor, cursor + |rec|, 46 + n, 46 + n + |extra|);
    assert rec[46..46 + n] == m.name;
    assert rec[46 + n..46 + n + |extra|] == extra;
  }

  lemma DataOffsetRoundTrip(s: Source, m: Member, offset: nat)
    requires |m.name| <= U16_MAX && |m.localExtra| <= U16_MAX
    requires ReadFrom(s, offset, 30) == Ok(LocalHeader(m))
    requires offset + |LocalRecord(m)| <= U64_MAX
    ensures DataOffset(s, offset) == Ok(offset + 30 + (|m.name| + |m.localExtra|))
  {
    hide LocalHeader, Num, ReadFrom;
    LocalHeaderFields(m);
  }

  lemma EntryRoundTrip(s: Source, central: seq<byte>, cursor: nat, m: Member, offset: nat)
    requires ValidMember(m, offset) && offset + |LocalRecord(m)| <= U64_MAX
    requires var rec := CentralRecord(m, offset);
             cursor + |rec| <= |central| && central[cursor..cursor + |rec|] == rec
    requires ReadFrom(s, offset, 30) == Ok(LocalHeader(m))
    ensures EntryAt(s, central, cursor) == Ok((Entry(m, offset), cursor + |CentralRecord(m, offset)|))
  {
    hide Num, CentralHeader, CentralExtra, CentralRecord, LocalRecord, LocalHeader, DataOffset, Zip64Values,
        ReadFrom, ValidFields, NoZip64, Cap;
    CentralHeaderFields(m, offset);
    ExtraRoundTrip(MemberSizes(m, offset), m.fields);
    DataOffsetRoundTrip(s, m, offset);
    RecordParts(central, cursor, m, offset);
    RecordField(central, cursor, m, offset, 0, 4);
    RecordField(central, cursor, m, offset, 10, 2);
    RecordField(central, cursor, m, offset, 16, 4);
    RecordField(central, cursor, m, offset, 20, 4);
    RecordField(central, cursor, m, offset, 24, 4);
    RecordField(central, cursor, m, offset, 28, 2);
    RecordField(central, cursor, m, offset, 30, 2);
    RecordField(central, cursor, m, offset, 32, 2);
    RecordField(central, cursor, m, offset, 42, 4);
  }

  // ---------- The directory walk ----------

  lemma ReadPart(b: seq<byte>, at: nat, part: seq<byte>)
    requires PartAt(b, at, part)
    ensures MemoryRead(b, at, |part|) == part
    ensures ReadFrom(MemorySource(b), at, |part|) == Ok(part)
  {
  }

  lemma LocalParts(b: seq<byte>, at: nat, m: Member)
    requires PartAt(b, at, LocalRecord(m))
    ensures PartAt(b, at, LocalHeader(m)) && PartAt(b, at + 30 + (|m.name| + |m.localExtra|), m.data)
  {
    hide LocalHeader, PartAt;
    PartSplit(b, at, LocalHeader(m) + (m.name + m.localExtra), m.data + m.trailer);
    PartSplit(b, at, LocalHeader(m), m.name + m.localExtra);
    PartSplit(b, at + 30 + (|m.name| + |m.localExtra|), m.data, m.trailer);
  }

  lemma {:induction false} WalkRoundTrip(b: seq<byte>, central: seq<byte>, cursor: nat, ms: seq<Member>, offset: nat)
    requires |b| <= U64_MAX && ValidMembers(ms, offset)
    requires PartAt(b, offset, Locals(ms)) && PartAt(central, cursor, Central(ms, offset))
    ensures Walk(MemorySource(b), central, cursor, |ms|) == Ok(Entries(ms, offset))
    decreases |ms|
  {
    hide LocalRecord, CentralRecord, ValidMember, EntryAt, PartAt, Entry;
    if ms != [] {
      var m, next := ms[0], offset + |LocalRecord(ms[0])|;
      PartSplit(b, offset, LocalRecord(m), Locals(ms[1..]));
      PartSplit(central, cursor, CentralRecord(m, offset), Central(ms[1..], next));
      OneEntry(b, central, cursor, m, offset);
      WalkRoundTrip(b, central, cursor + |CentralRecord(m, offset)|, ms[1..], next);
    }
  }

  lemma OneEntry(b: seq<byte>, central: seq<byte>, cursor: nat, m: Member, offset: nat)
    requires |b| <= U64_MAX && ValidMember(m, offset)
    requires PartAt(b, offset, LocalRecord(m)) && PartAt(central, cursor, CentralRecord(m, offset))
    ensures EntryAt(MemorySource(b), central, cursor) == Ok((Entry(m, offset), cursor + |CentralRecord(m, offset)|))
  {
    hide LocalHeader, CentralRecord, EntryAt, ValidMember, Entry, LocalRecord;
    LocalParts(b, offset, m);
    ReadPart(b, offset, LocalHeader(m));
    EntryRoundTrip(MemorySource(b), central, cursor, m, offset);
  }

  // Reading at each listed data offset yields that member's data.
  lemma {:induction false} DataRoundTrip(b: seq<byte>, ms: seq<Member>, offset: nat, k: nat)
    requires PartAt(b, offset, Locals(ms)) && k < |ms|
    ensures MemoryRead(b, Entries(ms, offset)[k].dataOffset, |ms[k].data|) == ms[k].data
    decreases |ms|
  {
    hide LocalRecord, PartAt, MemoryRead, LocalHeader;
    var m, next := ms[0], offset + |LocalRecord(ms[0])|;
    PartSplit(b, offset, LocalRecord(m), Locals(ms[1..]));
    if k == 0 {
      LocalParts(b, offset, m);
      ReadPart(b, offset + 30 + (|m.name| + |m.localExtra|), m.data);
    } else {
      DataRoundTrip(b, ms[1..], next, k - 1);
    }
  }
}
