// One archive in bytes: what it lists, and that it is refused when its directory is damaged.
module ZipExamples {
  import opened Wrappers
  import opened Bytes
  import opened Binary
  import opened ByteSource
  import opened Zip
  import opened ZipTheory
  import opened ZipWriter
  import opened ZipArchive
  import opened ZipBytes

  // A stored member "a" of three bytes: its local header, ...
  function Local(): (b: seq<byte>)
    ensures |b| == 30
  {
    [0x50, 0x4b, 0x03, 0x04, 0x14, 0x00, 0x00, 0x00, 0x00, 0x00, 0x00, 0x60, 0x21, 0x59, 0x1d, 0x80,
     0xbc, 0x55, 0x03, 0x00, 0x00, 0x00, 0x03, 0x00, 0x00, 0x00, 0x01, 0x00, 0x00, 0x00]
  }

  // ... its directory record, of which `first` should be 0x50, ...
  function Directory(first: byte): (b: seq<byte>)
    ensures |b| == 47
  {
    Sizes24(first) + Names23()
  }

  function Sizes24(first: byte): (b: seq<byte>)
    ensures |b| == 24
  {
    [first, 0x4b, 0x01, 0x02, 0x14, 0x00, 0x14, 0x00, 0x00, 0x00, 0x00, 0x00, 0x00, 0x60, 0x21, 0x59, 0x1d,
     0x80, 0xbc, 0x55, 0x03, 0x00, 0x00, 0x00]
  }

  function Names23(): (b: seq<byte>)
    ensures |b| == 23
  {
    [0x03, 0x00, 0x00, 0x00, 0x01, 0x00, 0x00, 0x00, 0x00, 0x00, 0x00, 0x00, 0x00, 0x00, 0x00, 0x00,
     0x00, 0x00, 0x00, 0x00, 0x00, 0x00, 0x61]
  }

  // ... and the end record.
  function End(): (b: seq<byte>)
    ensures |b| == 22
  {
    [0x50, 0x4b, 0x05, 0x06, 0x00, 0x00, 0x00, 0x00, 0x01, 0x00, 0x01, 0x00, 0x2f, 0x00, 0x00, 0x00,
     0x22, 0x00, 0x00, 0x00, 0x00, 0x00]
  }

  function Literal(first: byte): (b: seq<byte>)
    ensures |b| == 103
  {
    Local() + ([97, 1, 2, 3] + (Directory(first) + End()))
  }

  lemma LiteralParts(first: byte)
    ensures var b := Literal(first);
            && PartAt(b, 0, Local()) && PartAt(b, 30, [97, 1, 2, 3])
            && PartAt(b, 34, Directory(first)) && PartAt(b, 81, End())
  {
    hide Local, Directory, End;
  }

  lemma LiteralEnd(first: byte)
    ensures EndRecordOf(MemorySource(Literal(first))) == Ok(EndRecord(1, 47, 34))
  {
    hide EndRecordOf, MemorySource, Literal, EndRecordAt, EocdAt, Local, Directory;
    var b := Literal(first);
    LiteralParts(first);
    assert b[81..103] == End();
    assert b[81] == End()[0] && b[82] == End()[1] && b[83] == End()[2] && b[84] == End()[3];
    EocdInBytes(b, 81);
    LastEndRecordIsRead(b, 81);
    LiteralFields(b, End());
    NoLocator(first);
    EndRecordInBytes(MemorySource(b), b, 81);
  }

  lemma LiteralFields(b: seq<byte>, e: seq<byte>)
    requires |b| == 103 && e == End() && b[81..103] == e
    ensures Short(b, 91) == 1 && Long(b, 93) == 47 && Long(b, 97) == 34
  {
    assert forall k :: 0 <= k < 22 ==> b[81..103][k] == e[k];
    assert b[91] == e[10] && b[92] == e[11] && b[93] == e[12] && b[94] == e[13] && b[95] == e[14];
    assert b[96] == e[15] && b[97] == e[16] && b[98] == e[17] && b[99] == e[18] && b[100] == e[19];
  }

  lemma NoLocator(first: byte)
    ensures !Signature(Literal(first), 61, 6, 7)
  {
    LiteralParts(first);
    assert Literal(first)[34..81][27] == Directory(first)[27];
  }

  // Undamaged it lists the member, whose data is where the entry says.
  lemma LiteralListing()
    ensures Listing(MemorySource(Literal(0x50))) == Ok([ZipEntry([97], 0, 0x55bc_801d, 3, 3, 31)])
    ensures MemoryRead(Literal(0x50), 31, 3) == [1, 2, 3]
  {
    hide EndRecordOf, EntryAt, Literal, Directory, Local, Walk;
    var b, s, d := Literal(0x50), MemorySource(Literal(0x50)), Directory(0x50);
    LiteralParts(0x50);
    LiteralEnd(0x50);
    ReadPart(b, 34, d);
    LiteralEntry(s);
    OneEntryWalk(s, d, ZipEntry([97], 0, 0x55bc_801d, 3, 3, 31));
    assert b[31..34] == b[30..34][1..];
  }

  lemma OneEntryWalk(s: Source, d: seq<byte>, e: ZipEntry)
    requires EntryAt(s, d, 0) == Ok((e, |d|))
    ensures Walk(s, d, 0, 1) == Ok([e])
  {
    hide EntryAt;
    assert Walk(s, d, |d|, 0) == Ok([]) && [e] + [] == [e];
  }

  lemma LiteralRecord()
    ensures var d := Directory(0x50);
            && Signature(d, 0, 1, 2) && d[46..47] == [97]
            && Short(d, 10) == 0 && Long(d, 16) == 0x55bc_801d && Long(d, 20) == 3 && Long(d, 24) == 3
            && Short(d, 28) == 1 && Short(d, 30) == 0 && Short(d, 32) == 0 && Long(d, 42) == 0
  {
  }

  lemma LiteralLocal()
    ensures Signature(Local(), 0, 3, 4) && Short(Local(), 26) == 1 && Short(Local(), 28) == 0
  {
  }

  lemma LiteralEntry(s: Source)
    requires s == MemorySource(Literal(0x50))
    ensures EntryAt(s, Directory(0x50), 0) == Ok((ZipEntry([97], 0, 0x55bc_801d, 3, 3, 31), 47))
  {
    hide EntryAt, Local, Literal, Directory, Signature, Short, Long;
    LiteralParts(0x50);
    ReadPart(Literal(0x50), 0, Local());
    EntryInBytes(s, Directory(0x50), 0);
    LiteralRecord();
    LiteralLocal();
    assert Directory(0x50)[47..47] == [];
  }

  lemma FirstByte(first: byte)
    ensures Directory(first)[0] == first
  {
  }

  // With any other first byte in the directory record it lists nothing.
  lemma DamagedListing(first: byte)
    requires first != 0x50
    ensures Listing(MemorySource(Literal(first))) == Err(Damaged)
  {
    hide EndRecordOf, EntryAt, Literal, Local, Directory, Listing;
    FirstByte(first);
    var s, d := MemorySource(Literal(first)), Directory(first);
    LiteralParts(first);
    LiteralEnd(first);
    ReadPart(Literal(first), 34, d);
    EntryInBytes(s, d, 0);
    assert RecordInBytes(s, d, 0) == Err(Damaged);
    ListingFails(s, d, 0, 0);
  }
}
