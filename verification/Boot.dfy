// Android boot image headers, versions 0 to 4: parsing, encoding and the round trip.
module Boot {
  import opened Wrappers
  import opened Bytes
  import opened Binary

  const HEADER_V0_SIZE: nat := 1632
  const HEADER_V1_SIZE: nat := 1648
  const HEADER_V2_SIZE: nat := 1660
  const HEADER_V3_SIZE: nat := 1580
  const HEADER_V4_SIZE: nat := 1584
  const VENDOR_HEADER_V3_SIZE: nat := 2112
  const VENDOR_HEADER_V4_SIZE: nat := 2128
  const MAX_HEADER_VERSION: nat := 4

  // "ANDROID!" and "VNDRBOOT"
  function BootMagic(): (m: seq<byte>)
    ensures |m| == 8
  {
    [0x41, 0x4e, 0x44, 0x52, 0x4f, 0x49, 0x44, 0x21]
  }

  function VendorBootMagic(): (m: seq<byte>)
    ensures |m| == 8
  {
    [0x56, 0x4e, 0x44, 0x52, 0x42, 0x4f, 0x4f, 0x54]
  }

  datatype BootParseError =
    | TooSmall(size: nat, minimum: nat)
    | BadMagic(magic: seq<byte>)
    | UnsupportedVersion(version: nat)
    | Truncated(required: nat, actual: nat)

  datatype BootHeader = BootHeader(
    version: nat, headerSize: nat, pageSize: nat,
    kernelSize: nat, kernelAddr: nat, ramdiskSize: nat, ramdiskAddr: nat, secondSize: nat, secondAddr: nat,
    tagsAddr: nat, osVersion: nat,
    dtboSize: nat, dtboOffset: nat, dtbSize: nat, dtbAddr: nat, signatureSize: nat)

  function BootHeaderSize(version: nat): nat {
    match version
    case 0 => HEADER_V0_SIZE
    case 1 => HEADER_V1_SIZE
    case 2 => HEADER_V2_SIZE
    case 3 => HEADER_V3_SIZE
    case _ => HEADER_V4_SIZE
  }

  function ParseBootHeader(b: seq<byte>): Result<BootHeader, BootParseError> {
    if |b| < HEADER_V3_SIZE then Err(TooSmall(|b|, HEADER_V3_SIZE))
    else if b[..8] != BootMagic() then Err(BadMagic(b[..8]))
    else
      var version := Num(b, 40, 4);
      if version > MAX_HEADER_VERSION then Err(UnsupportedVersion(version))
      else
        var required := BootHeaderSize(version);
        if |b| < required then Err(Truncated(required, |b|))
        else if version >= 3 then
          var recorded := Num(b, 20, 4);
          Ok(BootHeader(version, if recorded >= required then recorded else required, 4096,
                        Num(b, 8, 4), 0, Num(b, 12, 4), 0, 0, 0, 0, Num(b, 16, 4), 0, 0, 0, 0,
                        if version >= 4 then Num(b, 1580, 4) else 0))
        else
          Ok(BootHeader(version, required, Num(b, 36, 4),
                        Num(b, 8, 4), Num(b, 12, 4), Num(b, 16, 4), Num(b, 20, 4), Num(b, 24, 4), Num(b, 28, 4),
                        Num(b, 32, 4), Num(b, 44, 4),
                        if version >= 1 then Num(b, 1632, 4) else 0, if version >= 1 then Num(b, 1636, 8) else 0,
                        if version >= 2 then Num(b, 1648, 4) else 0, if version >= 2 then Num(b, 1652, 8) else 0, 0))
  }

  // ---------- Which bytes are accepted ----------

  function SmallestImage(version: nat): nat {
    if version == 0 then 1632
    else if version == 1 then 1648
    else if version == 2 then 1660
    else if version == 3 then 1580
    else 1584
  }

  // Exactly the images that are long enough for their version, at most 4, behind "ANDROID!"; and
  // the error of the first check that fails.
  lemma HeaderAcceptedIff(b: seq<byte>)
    ensures var r := ParseBootHeader(b);
            if |b| < 1580 then r == Err(TooSmall(|b|, 1580))
            else if b[..8] != [0x41, 0x4e, 0x44, 0x52, 0x4f, 0x49, 0x44, 0x21] then r == Err(BadMagic(b[..8]))
            else if Num(b, 40, 4) > 4 then r == Err(UnsupportedVersion(Num(b, 40, 4)))
            else if |b| < SmallestImage(Num(b, 40, 4))
            then r == Err(Truncated(SmallestImage(Num(b, 40, 4)), |b|))
            else r.Ok? && r.value.version == Num(b, 40, 4)
  {
    hide Num;
  }

  // The header size of versions 3 and 4 is the recorded one, unless that is too small to hold
  // the header; older versions record none.
  lemma HeaderSizeExact(b: seq<byte>)
    requires ParseBootHeader(b).Ok?
    ensures var h := ParseBootHeader(b).value;
            && |b| >= 1580
            && var recorded, smallest := Num(b, 20, 4), SmallestImage(h.version);
               && (h.version >= 3 ==>
                    && h.headerSize >= recorded && h.headerSize >= smallest
                    && (h.headerSize == recorded || h.headerSize == smallest))
               && (h.version < 3 ==> h.headerSize == smallest)
  {
    hide Num;
  }

  // ---------- Which headers exist ----------

  predicate Word(v: nat) {
    v <= U32_MAX
  }

  // The headers a boot image can carry: fields in range, absent fields zero.
  predicate ValidHeader(h: BootHeader) {
    && h.version <= MAX_HEADER_VERSION && Word(h.headerSize) && Word(h.pageSize)
    && Word(h.kernelSize) && Word(h.ramdiskSize) && Word(h.osVersion) && Word(h.signatureSize)
    && (h.version >= 3 ==>
         && h.headerSize >= BootHeaderSize(h.version) && h.pageSize == 4096
         && h.kernelAddr == h.ramdiskAddr == h.secondSize == h.secondAddr == h.tagsAddr == 0
         && h.dtboSize == h.dtboOffset == h.dtbSize == h.dtbAddr == 0)
    && (h.version < 4 ==> h.signatureSize == 0)
    && (h.version < 3 ==>
         && h.headerSize == BootHeaderSize(h.version)
         && Word(h.kernelAddr) && Word(h.ramdiskAddr) && Word(h.secondSize) && Word(h.secondAddr) && Word(h.tagsAddr)
         && Word(h.dtboSize) && h.dtboOffset <= U64_MAX && Word(h.dtbSize) && h.dtbAddr <= U64_MAX)
    && (h.version < 1 ==> h.dtboSize == h.dtboOffset == 0)
    && (h.version < 2 ==> h.dtbSize == h.dtbAddr == 0)
  }

  // Parsing yields nothing but valid headers.
  lemma ParsedHeaderIsValid(b: seq<byte>)
    requires ParseBootHeader(b).Ok?
    ensures ValidHeader(ParseBootHeader(b).value)
  {
  }

  // ---------- Encoding ----------

  // Writes the header's fields into b. Everything else there, name, command line, id and what
  // follows the header, stays as it is.
  function EncodeLegacy(h: BootHeader, b: seq<byte>): (r: seq<byte>)
    requires h.version < 3 && |b| >= BootHeaderSize(h.version)
    ensures |r| == |b|
  {
    var b1 := Put(Put(Put(Put(BootMagic() + b[8..],
      8, 4, h.kernelSize), 12, 4, h.kernelAddr), 16, 4, h.ramdiskSize), 20, 4, h.ramdiskAddr);
    var b2 := Put(Put(Put(Put(b1, 24, 4, h.secondSize), 28, 4, h.secondAddr), 32, 4, h.tagsAddr), 36, 4, h.pageSize);
    var b3 := Put(Put(b2, 40, 4, h.version), 44, 4, h.osVersion);
    var b4 := if h.version >= 1 then Put(Put(b3, 1632, 4, h.dtboSize), 1636, 8, h.dtboOffset) else b3;
    if h.version >= 2 then Put(Put(b4, 1648, 4, h.dtbSize), 1652, 8, h.dtbAddr) else b4
  }

  function EncodeModern(h: BootHeader, b: seq<byte>): (r: seq<byte>)
    requires h.version >= 3 && |b| >= BootHeaderSize(h.version)
    ensures |r| == |b|
  {
    var b1 := Put(Put(Put(BootMagic() + b[8..], 8, 4, h.kernelSize), 12, 4, h.ramdiskSize), 16, 4, h.osVersion);
    var b2 := Put(Put(b1, 20, 4, h.headerSize), 40, 4, h.version);
    if h.version >= 4 then Put(b2, 1580, 4, h.signatureSize) else b2
  }

  function EncodeHeader(h: BootHeader, b: seq<byte>): (r: seq<byte>)
    requires |b| >= BootHeaderSize(h.version)
    ensures |r| == |b|
  {
    if h.version >= 3 then EncodeModern(h, b) else EncodeLegacy(h, b)
  }

  lemma LegacyFields(h: BootHeader, base: seq<byte>)
    requires ValidHeader(h) && h.version < 3 && |base| >= BootHeaderSize(h.version)
    ensures var b := EncodeLegacy(h, base);
            && b[..8] == BootMagic() && Num(b, 40, 4) == h.version && Num(b, 36, 4) == h.pageSize
            && Num(b, 8, 4) == h.kernelSize && Num(b, 12, 4) == h.kernelAddr
            && Num(b, 16, 4) == h.ramdiskSize && Num(b, 20, 4) == h.ramdiskAddr
            && Num(b, 24, 4) == h.secondSize && Num(b, 28, 4) == h.secondAddr
            && Num(b, 32, 4) == h.tagsAddr && Num(b, 44, 4) == h.osVersion
            && (h.version >= 1 ==> Num(b, 1632, 4) == h.dtboSize && Num(b, 1636, 8) == h.dtboOffset)
            && (h.version >= 2 ==> Num(b, 1648, 4) == h.dtbSize && Num(b, 1652, 8) == h.dtbAddr)
  {
    hide Num, Put, BootMagic;
    Capacities();
    PutNums();
    assert (BootMagic() + base[8..])[..8] == BootMagic();
  }

  lemma ModernFields(h: BootHeader, base: seq<byte>)
    requires ValidHeader(h) && h.version >= 3 && |base| >= BootHeaderSize(h.version)
    ensures var b := EncodeModern(h, base);
            && b[..8] == BootMagic() && Num(b, 40, 4) == h.version && Num(b, 20, 4) == h.headerSize
            && Num(b, 8, 4) == h.kernelSize && Num(b, 12, 4) == h.ramdiskSize && Num(b, 16, 4) == h.osVersion
            && (h.version >= 4 ==> Num(b, 1580, 4) == h.signatureSize)
  {
    hide Num, Put, BootMagic;
    Capacities();
    PutNums();
    assert (BootMagic() + base[8..])[..8] == BootMagic();
  }

  // Nothing behind the header is touched.
  lemma EncodeHeaderKeeps(h: BootHeader, b: seq<byte>, e: nat)
    requires BootHeaderSize(h.version) <= e <= |b|
    ensures EncodeHeader(h, b)[e..] == b[e..]
  {
    hide Put, BootMagic;
    PutsBefore(e);
    assert (BootMagic() + b[8..])[e..] == b[e..];
  }

  // Every valid header, written over the start of any bytes, parses back to itself.
  lemma HeaderRoundTrip(h: BootHeader, b: seq<byte>)
    requires ValidHeader(h) && |b| >= BootHeaderSize(h.version)
    ensures ParseBootHeader(EncodeHeader(h, b)) == Ok(h)
  {
    hide Num, BootMagic, EncodeLegacy, EncodeModern;
    if h.version >= 3 {
      ModernFields(h, b);
    } else {
      LegacyFields(h, b);
    }
  }

  // Writing back a parsed header reproduces the bytes, unless it recorded too small a size.
  lemma ParsedRoundTrip(b: seq<byte>)
    requires ParseBootHeader(b).Ok?
    ensures var h := ParseBootHeader(b).value;
            && |b| >= BootHeaderSize(h.version)
            && (EncodeHeader(h, b) == b <==> h.version < 3 || Num(b, 20, 4) >= BootHeaderSize(h.version))
  {
    hide Num, Put, BootMagic, ValidHeader;
    var h := ParseBootHeader(b).value;
    ParsedHeaderIsValid(b);
    assert BootMagic() + b[8..] == b;
    PutsSame();
    if h.version >= 3 {
      ModernFields(h, b);
    }
  }

  // ---------- Vendor boot ----------

  datatype VendorBootHeader = VendorBootHeader(
    version: nat, headerSize: nat, pageSize: nat, kernelAddr: nat, ramdiskAddr: nat, vendorRamdiskSize: nat,
    tagsAddr: nat, dtbSize: nat, dtbAddr: nat,
    tableSize: nat, tableEntries: nat, tableEntrySize: nat, bootconfigSize: nat)

  function VendorHeaderSize(version: nat): nat {
    if version >= 4 then VENDOR_HEADER_V4_SIZE else VENDOR_HEADER_V3_SIZE
  }

  function ParseVendorBootHeader(b: seq<byte>): Result<VendorBootHeader, BootParseError> {
    if |b| < VENDOR_HEADER_V3_SIZE then Err(TooSmall(|b|, VENDOR_HEADER_V3_SIZE))
    else if b[..8] != VendorBootMagic() then Err(BadMagic(b[..8]))
    else
      var version := Num(b, 8, 4);
      if version < 3 || version > MAX_HEADER_VERSION then Err(UnsupportedVersion(version))
      else
        var required := VendorHeaderSize(version);
        if |b| < required then Err(Truncated(required, |b|))
        else
          var recorded := Num(b, 2096, 4);
          Ok(VendorBootHeader(version, if recorded == 0 then required else recorded,
                              Num(b, 12, 4), Num(b, 16, 4), Num(b, 20, 4), Num(b, 24, 4),
                              Num(b, 2076, 4), Num(b, 2100, 4), Num(b, 2104, 8),
                              if version >= 4 then Num(b, 2112, 4) else 0, if version >= 4 then Num(b, 2116, 4) else 0,
                              if version >= 4 then Num(b, 2120, 4) else 0, if version >= 4 then Num(b, 2124, 4) else 0))
  }

  lemma VendorHeaderAcceptedIff(b: seq<byte>)
    ensures var r := ParseVendorBootHeader(b);
            if |b| < 2112 then r == Err(TooSmall(|b|, 2112))
            else if b[..8] != [0x56, 0x4e, 0x44, 0x52, 0x42, 0x4f, 0x4f, 0x54] then r == Err(BadMagic(b[..8]))
            else if Num(b, 8, 4) != 3 && Num(b, 8, 4) != 4 then r == Err(UnsupportedVersion(Num(b, 8, 4)))
            else if Num(b, 8, 4) == 4 && |b| < 2128 then r == Err(Truncated(2128, |b|))
            else r.Ok? && r.value.version == Num(b, 8, 4)
  {
    hide Num;
  }

  // The recorded header size, or the size of the header if none is recorded.
  lemma VendorHeaderSizeExact(b: seq<byte>)
    requires ParseVendorBootHeader(b).Ok?
    ensures var h := ParseVendorBootHeader(b).value;
            && |b| >= 2112
            && (Num(b, 2096, 4) > 0 ==> h.headerSize == Num(b, 2096, 4))
            && (Num(b, 2096, 4) == 0 ==> h.headerSize == if h.version == 3 then 2112 else 2128)
  {
    hide Num;
  }

  predicate ValidVendorHeader(h: VendorBootHeader) {
    && 3 <= h.version <= MAX_HEADER_VERSION && 0 < h.headerSize <= U32_MAX && Word(h.pageSize)
    && Word(h.kernelAddr) && Word(h.ramdiskAddr) && Word(h.vendorRamdiskSize) && Word(h.tagsAddr)
    && Word(h.dtbSize) && h.dtbAddr <= U64_MAX
    && Word(h.tableSize) && Word(h.tableEntries) && Word(h.tableEntrySize) && Word(h.bootconfigSize)
    && (h.version < 4 ==> h.tableSize == h.tableEntries == h.tableEntrySize == h.bootconfigSize == 0)
  }

  lemma ParsedVendorHeaderIsValid(b: seq<byte>)
    requires ParseVendorBootHeader(b).Ok?
    ensures ValidVendorHeader(ParseVendorBootHeader(b).value)
  {
  }

  function EncodeVendorHeader(h: VendorBootHeader, b: seq<byte>): (r: seq<byte>)
    requires |b| >= VendorHeaderSize(h.version)
    ensures |r| == |b|
  {
    var b1 := Put(Put(Put(Put(Put(VendorBootMagic() + b[8..],
      8, 4, h.version), 12, 4, h.pageSize), 16, 4, h.kernelAddr), 20, 4, h.ramdiskAddr), 24, 4, h.vendorRamdiskSize);
    var b2 := Put(Put(Put(Put(b1, 2076, 4, h.tagsAddr), 2096, 4, h.headerSize), 2100, 4, h.dtbSize), 2104, 8,
        h.dtbAddr);
    if h.version >= 4
    then Put(Put(Put(Put(b2, 2112, 4, h.tableSize), 2116, 4, h.tableEntries), 2120, 4, h.tableEntrySize), 2124, 4,
        h.bootconfigSize)
    else b2
  }

  lemma VendorFields(h: VendorBootHeader, base: seq<byte>)
    requires ValidVendorHeader(h) && |base| >= VendorHeaderSize(h.version)
    ensures var b := EncodeVendorHeader(h, base);
            && b[..8] == VendorBootMagic() && Num(b, 8, 4) == h.version && Num(b, 12, 4) == h.pageSize
            && Num(b, 16, 4) == h.kernelAddr && Num(b, 20, 4) == h.ramdiskAddr && Num(b, 24, 4) == h.vendorRamdiskSize
            && Num(b, 2076, 4) == h.tagsAddr && Num(b, 2096, 4) == h.headerSize
            && Num(b, 2100, 4) == h.dtbSize && Num(b, 2104, 8) == h.dtbAddr
            && (h.version >= 4 ==>
                 && Num(b, 2112, 4) == h.tableSize && Num(b, 2116, 4) == h.tableEntries
                 && Num(b, 2120, 4) == h.tableEntrySize && Num(b, 2124, 4) == h.bootconfigSize)
  {
    hide Num, Put, VendorBootMagic;
    Capacities();
    PutNums();
    assert (VendorBootMagic() + base[8..])[..8] == VendorBootMagic();
  }

  lemma EncodeVendorHeaderKeeps(h: VendorBootHeader, b: seq<byte>, e: nat)
    requires VendorHeaderSize(h.version) <= e <= |b|
    ensures EncodeVendorHeader(h, b)[e..] == b[e..]
  {
    hide Put, VendorBootMagic;
    PutsBefore(e);
    assert (VendorBootMagic() + b[8..])[e..] == b[e..];
  }

  // The same for vendor headers.
  lemma VendorHeaderRoundTrip(h: VendorBootHeader, b: seq<byte>)
    requires ValidVendorHeader(h) && |b| >= VendorHeaderSize(h.version)
    ensures ParseVendorBootHeader(EncodeVendorHeader(h, b)) == Ok(h)
  {
    hide Num, VendorBootMagic, EncodeVendorHeader;
    VendorFields(h, b);
  }

  lemma ParsedVendorRoundTrip(b: seq<byte>)
    requires ParseVendorBootHeader(b).Ok?
    ensures var h := ParseVendorBootHeader(b).value;
            && |b| >= VendorHeaderSize(h.version)
            && (EncodeVendorHeader(h, b) == b <==> Num(b, 2096, 4) > 0)
  {
    hide Num, Put, VendorBootMagic, ValidVendorHeader;
    var h := ParseVendorBootHeader(b).value;
    ParsedVendorHeaderIsValid(b);
    assert VendorBootMagic() + b[8..] == b;
    PutsSame();
    VendorFields(h, b);
  }

  // ---------- Headers in bytes ----------

  // The field at o holds just its low byte.
  predicate Small(b: seq<byte>, o: nat, v: byte) {
    o + 4 <= |b| && b[o] == v && b[o + 1] == 0 && b[o + 2] == 0 && b[o + 3] == 0
  }

  predicate SmallWide(b: seq<byte>, o: nat, v: byte) {
    o + 8 <= |b| && Small(b, o, v) && Small(b, o + 4, 0)
  }

  lemma SmallNum(b: seq<byte>, o: nat, v: byte)
    requires Small(b, o, v)
    ensures Num(b, o, 4) == v
  {
    NumIsLong(b, o);
  }

  lemma SmallWideNum(b: seq<byte>, o: nat, v: byte)
    requires SmallWide(b, o, v)
    ensures Num(b, o, 8) == v
  {
    var field := b[o..o + 8];
    EightBytes(field);
    assert field == field[0..8];
    assert Small(field, 0, v) && Small(field, 4, 0);
  }

  // A version 2 image with a number of its own in every field.
  lemma LegacyHeaderExample(b: seq<byte>)
    requires |b| >= 1660 && b[..8] == [0x41, 0x4e, 0x44, 0x52, 0x4f, 0x49, 0x44, 0x21]
    requires Small(b, 8, 1) && Small(b, 12, 2) && Small(b, 16, 3) && Small(b, 20, 4) && Small(b, 24, 5)
    requires Small(b, 28, 6) && Small(b, 32, 7) && Small(b, 36, 8) && Small(b, 40, 2) && Small(b, 44, 9)
    requires Small(b, 1632, 10) && SmallWide(b, 1636, 11) && Small(b, 1648, 12) && SmallWide(b, 1652, 13)
    ensures ParseBootHeader(b) == Ok(BootHeader(
                                       version := 2, headerSize := 1660, pageSize := 8,
                                       kernelSize := 1, kernelAddr := 2, ramdiskSize := 3, ramdiskAddr := 4,
                                       secondSize := 5, secondAddr := 6, tagsAddr := 7, osVersion := 9,
                                       dtboSize := 10, dtboOffset := 11, dtbSize := 12, dtbAddr := 13,
                                       signatureSize := 0))
  {
    hide Num, Small, SmallWide;
    SmallNum(b, 8, 1);
    SmallNum(b, 12, 2);
    SmallNum(b, 16, 3);
    SmallNum(b, 20, 4);
    SmallNum(b, 24, 5);
    SmallNum(b, 28, 6);
    SmallNum(b, 32, 7);
    SmallNum(b, 36, 8);
    SmallNum(b, 40, 2);
    SmallNum(b, 44, 9);
    SmallNum(b, 1632, 10);
    SmallWideNum(b, 1636, 11);
    SmallNum(b, 1648, 12);
    SmallWideNum(b, 1652, 13);
  }

  // A version 4 image that records no header size.
  lemma ModernHeaderExample(b: seq<byte>)
    requires |b| >= 1584 && b[..8] == [0x41, 0x4e, 0x44, 0x52, 0x4f, 0x49, 0x44, 0x21]
    requires Small(b, 8, 1) && Small(b, 12, 2) && Small(b, 16, 3) && Small(b, 20, 0) && Small(b, 40, 4)
    requires Small(b, 1580, 5)
    ensures ParseBootHeader(b) == Ok(BootHeader(
                                       version := 4, headerSize := 1584, pageSize := 4096,
                                       kernelSize := 1, kernelAddr := 0, ramdiskSize := 2, ramdiskAddr := 0,
                                       secondSize := 0, secondAddr := 0, tagsAddr := 0, osVersion := 3,
                                       dtboSize := 0, dtboOffset := 0, dtbSize := 0, dtbAddr := 0,
                                       signatureSize := 5))
  {
    hide Num, Small;
    SmallNum(b, 8, 1);
    SmallNum(b, 12, 2);
    SmallNum(b, 16, 3);
    SmallNum(b, 20, 0);
    SmallNum(b, 40, 4);
    SmallNum(b, 1580, 5);
  }

  // A version 4 vendor image.
  lemma VendorHeaderExample(b: seq<byte>)
    requires |b| >= 2128 && b[..8] == [0x56, 0x4e, 0x44, 0x52, 0x42, 0x4f, 0x4f, 0x54]
    requires Small(b, 8, 4) && Small(b, 12, 1) && Small(b, 16, 2) && Small(b, 20, 3) && Small(b, 24, 5)
    requires Small(b, 2076, 6) && Small(b, 2096, 7) && Small(b, 2100, 8) && SmallWide(b, 2104, 9)
    requires Small(b, 2112, 10) && Small(b, 2116, 11) && Small(b, 2120, 12) && Small(b, 2124, 13)
    ensures ParseVendorBootHeader(b) == Ok(VendorBootHeader(
                                             version := 4, headerSize := 7, pageSize := 1,
                                             kernelAddr := 2, ramdiskAddr := 3, vendorRamdiskSize := 5,
                                             tagsAddr := 6, dtbSize := 8, dtbAddr := 9,
                                             tableSize := 10, tableEntries := 11, tableEntrySize := 12,
                                             bootconfigSize := 13))
  {
    hide Num, Small, SmallWide;
    SmallNum(b, 8, 4);
    SmallNum(b, 12, 1);
    SmallNum(b, 16, 2);
    SmallNum(b, 20, 3);
    SmallNum(b, 24, 5);
    SmallNum(b, 2076, 6);
    SmallNum(b, 2096, 7);
    SmallNum(b, 2100, 8);
    SmallWideNum(b, 2104, 9);
    SmallNum(b, 2112, 10);
    SmallNum(b, 2116, 11);
    SmallNum(b, 2120, 12);
    SmallNum(b, 2124, 13);
  }
}
