// Whole archives: the end records, and the round trip of writer and reader.
module ZipArchive {
  import opened Wrappers
  import opened Bytes
  import opened Binary
  import opened ByteSource
  import opened Zip
  import opened ZipTheory
  import opened ZipWriter

  // ---------- End records ----------

  type Record22 = b: seq<byte> | |b| == 22 witness Blank(22)

  type Record56 = b: seq<byte> | |b| == 56 witness Blank(56)

  type Record20 = b: seq<byte> | |b| == 20 witness Blank(20)

  // In each record the fields the reader looks at; the others are those of the base.
  function Eocd(base: Record22, count: nat, size: nat, offset: nat): (b: seq<byte>)
    ensures |b| == 22
  {
    Put(Put(Put(Put(base, 0, 4, EOCD), 10, 2, count), 12, 4, size), 16, 4, offset)
  }

  function Zip64Eocd(base: Record56, count: nat, size: nat, offset: nat): (b: seq<byte>)
    ensures |b| == 56
  {
    Put(Put(Put(Put(base, 0, 4, ZIP64_EOCD), 32, 8, count), 40, 8, size), 48, 8, offset)
  }

  function Zip64Locator(base: Record20, recordOffset: nat): (b: seq<byte>)
    ensures |b| == 20
  {
    Put(Put(base, 0, 4, ZIP64_LOCATOR), 8, 8, recordOffset)
  }

  lemma EocdFields(base: Record22, count: nat, size: nat, offset: nat)
    requires count <= U16_MAX && size <= U32_MAX && offset <= U32_MAX
    ensures var b := Eocd(base, count, size, offset);
            Num(b, 0, 4) == EOCD && Num(b, 10, 2) == count && Num(b, 12, 4) == size && Num(b, 16, 4) == offset
  {
    hide Num, Put;
    Capacities();
    PutNums();
  }

  lemma Zip64EocdFields(base: Record56, count: nat, size: nat, offset: nat)
    requires count <= U64_MAX && size <= U64_MAX && offset <= U64_MAX
    ensures var b := Zip64Eocd(base, count, size, offset);
            Num(b, 0, 4) == ZIP64_EOCD && Num(b, 32, 8) == count && Num(b, 40, 8) == size && Num(b, 48, 8) == offset
  {
    hide Num, Put;
    Capacities();
    PutNums();
  }

  lemma Zip64LocatorFields(base: Record20, recordOffset: nat)
    requires recordOffset <= U64_MAX
    ensures var b := Zip64Locator(base, recordOffset);
            Num(b, 0, 4) == ZIP64_LOCATOR && Num(b, 8, 8) == recordOffset
  {
    hide Num, Put;
    Capacities();
    PutNums();
  }

  // ---------- Archives ----------

  // Any bytes before the first member, the members, the directory, the ZIP64 records if asked
  // for, the end record and its comment.
  datatype Archive = Archive(preamble: seq<byte>, members: seq<Member>, zip64: bool, comment: seq<byte>,
                             endBase: Record22, recordBase: Record56, locatorBase: Record20) {
    function Start(): nat {
      |preamble|
    }

    function Directory(): seq<byte> {
      Central(members, Start())
    }

    function Offset(): nat {
      |preamble| + |Locals(members)|
    }

    function Zip64Part(): (b: seq<byte>)
      ensures |b| == if zip64 then 76 else 0
    {
      if zip64
      then Zip64Eocd(recordBase, |members|, |Directory()|, Offset())
           + Zip64Locator(locatorBase, Offset() + |Directory()|)
      else []
    }

    function EndPart(): (b: seq<byte>)
      ensures |b| == 22
    {
      Eocd(endBase, Min(|members|, SENTINEL_16), Cap(|Directory()|), Cap(Offset()))
    }

    function Bytes(): seq<byte> {
      preamble + (Locals(members) + (Directory() + (Zip64Part() + (EndPart() + comment))))
    }

    function EocdOffset(): nat {
      Offset() + |Directory()| + |Zip64Part()|
    }

    // Without the ZIP64 records the plain end record must be able to say everything, and the
    // directory must not happen to end in something that looks like a ZIP64 locator.
    predicate PlainEnough() {
      && |members| < SENTINEL_16 && Offset() < SENTINEL_32 && |Directory()| <= SENTINEL_32
      && (EocdOffset() >= 20 ==> U32(Bytes(), EocdOffset() - 20) != Ok(ZIP64_LOCATOR))
    }

    predicate Valid() {
      && ValidMembers(members, Start()) && |comment| <= U16_MAX && |Bytes()| <= U64_MAX
      && (!zip64 ==> PlainEnough())
      && NoEocdFrom(Bytes(), EocdOffset() + 1)
    }
  }

  lemma FiveParts(p: seq<byte>, l: seq<byte>, d: seq<byte>, z: seq<byte>, e: seq<byte>, c: seq<byte>)
    ensures var b := p + (l + (d + (z + (e + c))));
            && PartAt(b, |p|, l) && PartAt(b, |p| + |l|, d) && PartAt(b, |p| + |l| + |d|, z)
            && PartAt(b, |p| + |l| + |d| + |z|, e) && PartAt(b, |p| + |l| + |d| + |z| + |e|, c)
  {
  }

  lemma ArchiveParts(a: Archive)
    ensures var b := a.Bytes();
            && |b| == a.EocdOffset() + 22 + |a.comment|
            && PartAt(b, a.Start(), Locals(a.members)) && PartAt(b, a.Offset(), a.Directory())
            && PartAt(b, a.Offset() + |a.Directory()|, a.Zip64Part()) && PartAt(b, a.EocdOffset(), a.EndPart())
            && PartAt(b, a.EocdOffset() + 22, a.comment)
  {
    hide PartAt, Locals, Archive.Directory, Archive.Zip64Part, Archive.EndPart;
    FiveParts(a.preamble, Locals(a.members), a.Directory(), a.Zip64Part(), a.EndPart(), a.comment);
  }

  lemma PartNum(b: seq<byte>, at: nat, part: seq<byte>, k: nat, n: nat)
    requires PartAt(b, at, part) && k + n <= |part|
    ensures at + k + n <= |b| && Num(b, at + k, n) == Num(part, k, n)
  {
    NumInside(b, at, part, k, n);
  }

  // A ZIP64 locator right before the end record leads to the ZIP64 record.
  lemma LocatorFollowed(b: seq<byte>, at: nat, r: Record56, l: Record20, count: nat, size: nat, offset: nat)
    requires count <= U64_MAX && size <= U64_MAX && offset <= U64_MAX && at <= U64_MAX && at + 76 + 22 <= |b|
    requires PartAt(b, at, Zip64Eocd(r, count, size, offset)) && PartAt(b, at + 56, Zip64Locator(l, at))
    ensures EndRecordAt(MemorySource(b), b, at + 76) == Ok(EndRecord(count, size, offset))
  {
    hide PartAt, Num, Zip64Eocd, Zip64Locator, MemorySource, ReadFrom;
    Zip64EocdFields(r, count, size, offset);
    Zip64LocatorFields(l, at);
    PartNum(b, at + 56, Zip64Locator(l, at), 0, 4);
    PartNum(b, at + 56, Zip64Locator(l, at), 8, 8);
    ReadPart(b, at, Zip64Eocd(r, count, size, offset));
  }

  lemma Zip64EndFound(a: Archive)
    requires a.zip64 && |a.Bytes()| <= U64_MAX
    ensures a.EocdOffset() + 22 <= |a.Bytes()|
    ensures EndRecordAt(MemorySource(a.Bytes()), a.Bytes(), a.EocdOffset())
         == Ok(EndRecord(|a.members|, |a.Directory()|, a.Offset()))
  {
    hide PartAt, Zip64Eocd, Zip64Locator, MemorySource, EndRecordAt, Archive.Bytes, Archive.Directory,
        Archive.Offset, Archive.EndPart;
    ArchiveParts(a);
    MemberCountBound(a);
    var at := a.Offset() + |a.Directory()|;
    PartSplit(a.Bytes(), at, Zip64Eocd(a.recordBase, |a.members|, |a.Directory()|, a.Offset()),
        Zip64Locator(a.locatorBase, at));
    LocatorFollowed(a.Bytes(), at, a.recordBase, a.locatorBase, |a.members|, |a.Directory()|, a.Offset());
  }

  lemma {:induction false} LocalsLength(ms: seq<Member>)
    ensures |ms| <= |Locals(ms)|
  {
    if ms != [] {
      LocalsLength(ms[1..]);
    }
  }

  lemma MemberCountBound(a: Archive)
    ensures |a.members| <= |a.Bytes()| && |a.Directory()| <= |a.Bytes()| && a.Offset() + |a.Directory()| <= |a.Bytes()|
  {
    ArchiveParts(a);
    LocalsLength(a.members);
  }

  lemma PlainEndFound(a: Archive)
    requires !a.zip64 && a.PlainEnough()
    ensures a.EocdOffset() + 22 <= |a.Bytes()|
    ensures EndRecordAt(MemorySource(a.Bytes()), a.Bytes(), a.EocdOffset())
         == Ok(EndRecord(|a.members|, |a.Directory()|, a.Offset()))
  {
    hide PartAt, Num, Eocd, Archive.Bytes, Archive.Directory, Archive.Offset;
    ArchiveParts(a);
    var b, at, part := a.Bytes(), a.EocdOffset(), a.EndPart();
    EocdFields(a.endBase, |a.members|, |a.Directory()|, a.Offset());
    PartNum(b, at, part, 10, 2);
    PartNum(b, at, part, 12, 4);
    PartNum(b, at, part, 16, 4);
  }

  lemma EocdInPlace(a: Archive)
    ensures EocdAt(a.Bytes(), a.EocdOffset())
  {
    hide PartAt, Num, Eocd, Archive.Bytes, Archive.Directory, Archive.Offset, Archive.Zip64Part, Archive.EocdOffset;
    ArchiveParts(a);
    EocdFields(a.endBase, Min(|a.members|, SENTINEL_16), Cap(|a.Directory()|), Cap(a.Offset()));
    PartNum(a.Bytes(), a.EocdOffset(), a.EndPart(), 0, 4);
  }

  lemma LastEndRecordIsRead(b: seq<byte>, e: nat)
    requires e + 22 <= |b| <= e + 22 + 0xffff && EocdAt(b, e) && NoEocdFrom(b, e + 1)
    ensures EndRecordOf(MemorySource(b)) == EndRecordAt(MemorySource(b), b, e)
  {
    hide EndRecordOf, EndRecordAt, EocdAt, NoEocdFrom, MemorySource, LastEocd;
    LastEocdUnique(b, e);
    WindowedScanIsWholeScan(b);
  }

  lemma EndFound(a: Archive)
    requires a.Valid()
    ensures EndRecordOf(MemorySource(a.Bytes())) == Ok(EndRecord(|a.members|, |a.Directory()|, a.Offset()))
  {
    hide EndRecordOf, EndRecordAt, EocdAt, NoEocdFrom, PartAt, MemorySource, ValidMembers;
    hide Archive.Bytes, Archive.EocdOffset, Archive.PlainEnough, Archive.Offset, Archive.Directory;
    ArchiveParts(a);
    EocdInPlace(a);
    LastEndRecordIsRead(a.Bytes(), a.EocdOffset());
    if a.zip64 {
      Zip64EndFound(a);
    } else {
      PlainEndFound(a);
    }
  }

  // Listing a written archive, with or without ZIP64 records, returns exactly its members in
  // order, and reading at each listed data offset returns that member's data.
  lemma ArchiveRoundTrip(a: Archive)
    requires a.Valid()
    ensures Listing(MemorySource(a.Bytes())) == Ok(Entries(a.members, a.Start()))
    ensures forall k :: 0 <= k < |a.members| ==>
              MemoryRead(a.Bytes(), Entries(a.members, a.Start())[k].dataOffset,
                  |a.members[k].data|) == a.members[k].data
  {
    hide EndRecordOf, Walk, MemoryRead, PartAt, ValidMembers, NoEocdFrom, Archive.Bytes, Archive.EocdOffset,
        Archive.PlainEnough;
    var b, d := a.Bytes(), a.Directory();
    ArchiveParts(a);
    EndFound(a);
    ReadPart(b, a.Offset(), d);
    DirectoryInPlace(d);
    WalkRoundTrip(b, d, 0, a.members, a.Start());
    forall k | 0 <= k < |a.members|
      ensures MemoryRead(b, Entries(a.members, a.Start())[k].dataOffset, |a.members[k].data|) == a.members[k].data
    {
      DataRoundTrip(b, a.members, a.Start(), k);
    }
  }

  lemma DirectoryInPlace(d: seq<byte>)
    ensures PartAt(d, 0, d)
  {
  }

  // With an empty comment no later end record is possible, so every ZIP64 archive of valid
  // members round-trips unconditionally.
  lemma Zip64WithoutCommentIsValid(a: Archive)
    requires a.comment == [] && a.zip64
    requires ValidMembers(a.members, a.Start()) && |a.Bytes()| <= U64_MAX
    ensures a.Valid()
  {
  }

  // An archive stored anywhere inside a larger file is listed through a window on it, and the
  // window returns each member's data.
  lemma NestedArchiveRoundTrip(a: Archive, before: seq<byte>, after: seq<byte>)
    requires a.Valid() && |before + (a.Bytes() + after)| <= U64_MAX
    ensures var window := SubSource(MemorySource(before + (a.Bytes() + after)), |before|, |a.Bytes()|);
            && Listing(window) == Ok(Entries(a.members, a.Start()))
            && forall k :: 0 <= k < |a.members| ==>
                 window.read(Entries(a.members, a.Start())[k].dataOffset, |a.members[k].data|) == Ok(a.members[k].data)
  {
    hide Listing, SubRead, MemoryRead, Archive.Valid, Archive.Bytes;
    var file := before + (a.Bytes() + after);
    WindowedListing(file, |before|, |a.Bytes()|);
    assert file[|before|..|before| + |a.Bytes()|] == a.Bytes();
    ArchiveRoundTrip(a);
    forall k | 0 <= k < |a.members|
      ensures SubSource(MemorySource(file), |before|, |a.Bytes()|).read(
                  Entries(a.members, a.Start())[k].dataOffset, |a.members[k].data|) == Ok(a.members[k].data)
    {
      WindowReadsExtract(file, |before|, |a.Bytes()|, Entries(a.members, a.Start())[k].dataOffset,
          |a.members[k].data|);
    }
  }

  // ---------- End records in comments ----------

  // The reader takes the archive's own end record exactly if no signature behind it has room for
  // a record; one in the last 21 bytes of the comment is harmless.
  lemma OwnRecordIff(a: Archive)
    ensures var b := a.Bytes();
            LastEocd(b, |b|) == Some(a.EocdOffset()) <==> NoEocdFrom(b, a.EocdOffset() + 1)
  {
    hide EocdAt, PartAt, Archive.Bytes, Archive.EocdOffset, LastEocd;
    ArchiveParts(a);
    EocdInPlace(a);
    if NoEocdFrom(a.Bytes(), a.EocdOffset() + 1) {
      LastEocdUnique(a.Bytes(), a.EocdOffset());
    } else {
      var b := a.Bytes();
      var i :| a.EocdOffset() + 1 <= i && i + 22 <= |b| && EocdAt(b, i);
      LastEocdBound(b);
    }
  }

  // A comment that is itself an end record is read in place of the archive's own.
  lemma CommentRecordIsRead(a: Archive, base: Record22, count: nat, size: nat, offset: nat)
    requires a.comment == Eocd(base, count, size, offset)
    requires count <= U16_MAX && size <= U32_MAX && offset <= U32_MAX
    ensures EndRecordOf(MemorySource(a.Bytes())) ==
              if count == 0xffff || offset == 0xffff_ffff then Err(InvalidZip64)
              else Ok(EndRecord(count, size, offset))
  {
    hide PartAt, Num, Eocd, LastEocd, EndRecordOf, MemorySource, Archive.Bytes, Archive.EocdOffset, Archive.EndPart;
    var b, e := a.Bytes(), a.EocdOffset() + 22;
    ArchiveParts(a);
    EocdInPlace(a);
    EocdFields(base, count, size, offset);
    PartNum(b, e, a.comment, 0, 4);
    PartNum(b, e, a.comment, 10, 2);
    PartNum(b, e, a.comment, 12, 4);
    PartNum(b, e, a.comment, 16, 4);
    LastEndRecordIsRead(b, e);
    NoLocatorInEocd(b, a.EocdOffset());
  }

  // Two bytes into an end record's signature no locator's begins.
  lemma NoLocatorInEocd(b: seq<byte>, i: nat)
    requires EocdAt(b, i) && i + 6 <= |b|
    ensures Num(b, i + 2, 4) != ZIP64_LOCATOR
  {
    ThirdByte(b[i..i + 4]);
    var next := b[i + 2..i + 6];
    assert b[i..i + 4][2] == next[0];
    assert FromLE(next) == next[0] + 256 * FromLE(next[1..]);
  }

  lemma ThirdByte(s: seq<byte>)
    requires |s| == 4 && FromLE(s) == EOCD
    ensures s[2] == 0x05
  {
    assert FromLE(s) == s[0] + 256 * FromLE(s[1..]);
    assert FromLE(s[1..]) == s[1] + 256 * FromLE(s[2..]);
    assert FromLE(s[2..]) == s[2] + 256 * FromLE(s[3..]);
  }

  // So an archive, whatever its members, whose comment is an end record for no entries lists as
  // empty.
  lemma CommentHidesMembers(a: Archive, base: Record22)
    requires a.comment == Eocd(base, 0, 0, 0)
    ensures Listing(MemorySource(a.Bytes())) == Ok([])
  {
    hide EndRecordOf, Archive.Bytes, Eocd;
    CommentRecordIsRead(a, base, 0, 0, 0);
  }

  function OneMember(): Member {
    Member([97], 0, 0, [1, 2, 3], 3, [], [], [], [], Blank(30), Blank(46))
  }

  // For instance, one member: listed when there is no comment, gone with such a comment.
  lemma CommentExample()
    ensures var a := Archive([], [OneMember()], true, [], Blank(22), Blank(56), Blank(20));
            && Listing(MemorySource(a.Bytes())) == Ok([Entry(OneMember(), 0)])
            && Listing(MemorySource(a.(comment := Eocd(Blank(22), 0, 0, 0)).Bytes())) == Ok([])
  {
    hide Listing, Eocd, CentralHeader, LocalHeader, Zip64Eocd, Zip64Locator, Archive.Valid, Blank;
    var a := Archive([], [OneMember()], true, [], Blank(22), Blank(56), Blank(20));
    OneMemberIsValid();
    ArchiveParts(a);
    Zip64WithoutCommentIsValid(a);
    ArchiveRoundTrip(a);
    CommentHidesMembers(a.(comment := Eocd(Blank(22), 0, 0, 0)), Blank(22));
  }

  lemma OneMemberIsValid()
    ensures ValidMembers([OneMember()], 0) && Entries([OneMember()], 0) == [Entry(OneMember(), 0)]
    ensures |Locals([OneMember()])| == 34 && |Central([OneMember()], 0)| == 47
  {
    hide CentralHeader, LocalHeader;
  }
}
