// Where the sections of a boot image lie.
module BootLayout {
  import opened Wrappers
  import opened Bytes
  import opened Binary
  import opened Boot

  datatype Kind =
    | Kernel | Ramdisk | Second | RecoveryDtbo | Dtb
    | VendorRamdisk | VendorDtb | VendorRamdiskTable | Bootconfig | Signature

  datatype Section = Section(kind: Kind, offset: nat, size: nat) {
    function End(): nat {
      offset + size
    }
  }

  datatype LayoutError =
    | InvalidPageSize(value: nat)
    | Arithmetic(error: BinaryError)
    | SectionOutOfBounds(kind: Kind, offset: nat, size: nat, sourceSize: nat)

  function Validate(s: Section, sourceSize: nat): Result<Section, LayoutError> {
    if s.End() > U64_MAX then Err(Arithmetic(Overflow))
    else if s.End() > sourceSize then Err(SectionOutOfBounds(s.kind, s.offset, s.size, sourceSize))
    else Ok(s)
  }

  function Align(value: nat, alignment: nat): Result<nat, LayoutError> {
    match AlignUp(value, alignment)
    case Err(e) => Err(Arithmetic(e))
    case Ok(v) => Ok(v)
  }

  predicate IsPowerOfTwo(p: nat) {
    p == 1 || (p > 1 && p % 2 == 0 && IsPowerOfTwo(p / 2))
  }

  function PageSize(value: nat): (r: Result<nat, LayoutError>)
    ensures r.Ok? ==> r.value == value >= 512
  {
    if value < 512 || !IsPowerOfTwo(value) then Err(InvalidPageSize(value)) else Ok(value)
  }

  // Two to the k, by doubling.
  function TwoTo(k: nat): (p: nat)
    ensures p > k
  {
    if k == 0 then 1 else 2 * TwoTo(k - 1)
  }

  // 512, 1024, 2048 and so on.
  predicate DoubledFrom512(v: nat) {
    exists k :: 9 <= k < v && v == TwoTo(k)
  }

  lemma {:induction false} PowerIsTwoTo(p: nat) returns (k: nat)
    requires IsPowerOfTwo(p)
    ensures p == TwoTo(k)
  {
    if p == 1 {
      k := 0;
    } else {
      k := PowerIsTwoTo(p / 2);
      k := k + 1;
    }
  }

  lemma {:induction false} TwoToIsPower(k: nat)
    ensures IsPowerOfTwo(TwoTo(k))
  {
    if k > 0 {
      TwoToIsPower(k - 1);
    }
  }

  lemma {:induction false} TwoToGrows(j: nat, k: nat)
    requires j <= k
    ensures TwoTo(j) <= TwoTo(k)
  {
    if j < k {
      TwoToGrows(j, k - 1);
    }
  }

  lemma FiveTwelve()
    ensures TwoTo(8) == 256 && TwoTo(9) == 512
  {
    assert TwoTo(4) == 16 && TwoTo(6) == 64 && TwoTo(8) == 256;
  }

  lemma TwoToInFours(k: nat)
    requires k >= 2
    ensures TwoTo(k) % 4 == 0
  {
    assert TwoTo(k) == 4 * TwoTo(k - 2);
  }

  lemma PageIsMultipleOfFour(page: nat)
    requires DoubledFrom512(page)
    ensures page % 4 == 0 && page >= 512
  {
    hide TwoTo;
    var k :| 9 <= k < page && page == TwoTo(k);
    FiveTwelve();
    TwoToGrows(9, k);
    TwoToInFours(k);
  }

  // The page sizes accepted are the powers of two from 512 on, and all of them.
  lemma PageSizeIff(value: nat)
    ensures PageSize(value) == if DoubledFrom512(value) then Ok(value) else Err(InvalidPageSize(value))
  {
    hide IsPowerOfTwo, TwoTo;
    FiveTwelve();
    if DoubledFrom512(value) {
      var k :| 9 <= k < value && value == TwoTo(k);
      TwoToIsPower(k);
      TwoToGrows(9, k);
    } else if IsPowerOfTwo(value) {
      var k := PowerIsTwoTo(value);
      if k <= 8 {
        TwoToGrows(k, 8);
      }
    }
  }

  // The sections placed so far and where the next one would go.
  datatype Layout = Layout(sections: seq<Section>, cursor: nat)

  function PlaceAt(l: Layout, kind: Kind, offset: nat, size: nat, alignment: nat, sourceSize: nat): Result<Layout,
      LayoutError> {
    if size == 0 then Ok(l)
    else
      var s :- Validate(Section(kind, offset, size), sourceSize);
      var cursor :- Align(s.End(), alignment);
      Ok(Layout(l.sections + [s], cursor))
  }

  function Place(l: Layout, kind: Kind, size: nat, alignment: nat, sourceSize: nat): Result<Layout, LayoutError> {
    PlaceAt(l, kind, l.cursor, size, alignment, sourceSize)
  }

  // ---------- Boot images ----------

  function PageOf(h: BootHeader): Result<nat, LayoutError> {
    if h.version >= 3 then Ok(4096) else PageSize(h.pageSize)
  }

  // The recorded position, if it lies behind the sections placed so far and inside the image.
  function DtboOffset(h: BootHeader, cursor: nat, sourceSize: nat): nat {
    var end := h.dtboOffset + h.dtboSize;
    if end <= U64_MAX && h.dtboOffset >= cursor && end <= sourceSize then h.dtboOffset else cursor
  }

  predicate DtbFits(h: BootHeader, cursor: nat, sourceSize: nat) {
    cursor + h.dtbSize <= U64_MAX && cursor + h.dtbSize <= sourceSize
  }

  // In sequence if it fits there, else flush with the end of the image.
  function DtbOffset(h: BootHeader, cursor: nat, sourceSize: nat): nat {
    if DtbFits(h, cursor, sourceSize) then cursor
    else if sourceSize >= h.dtbSize then sourceSize - h.dtbSize
    else 0
  }

  function UpToSecond(h: BootHeader, sourceSize: nat): Result<Layout, LayoutError> {
    var page :- PageOf(h);
    var start :- Align(h.headerSize, page);
    var l1 :- Place(Layout([], start), Kernel, h.kernelSize, page, sourceSize);
    var l2 :- Place(l1, Ramdisk, h.ramdiskSize, page, sourceSize);
    Place(l2, Second, h.secondSize, page, sourceSize)
  }

  function UpToDtbo(h: BootHeader, sourceSize: nat): Result<Layout, LayoutError> {
    var page :- PageOf(h);
    var l :- UpToSecond(h, sourceSize);
    PlaceAt(l, RecoveryDtbo, DtboOffset(h, l.cursor, sourceSize), if h.version >= 1 then h.dtboSize else 0, page,
        sourceSize)
  }

  function UpToDtb(h: BootHeader, sourceSize: nat): Result<Layout, LayoutError> {
    var page :- PageOf(h);
    var l :- UpToDtbo(h, sourceSize);
    PlaceAt(l, Dtb, DtbOffset(h, l.cursor, sourceSize), if h.version >= 2 then h.dtbSize else 0, page, sourceSize)
  }

  // From version 3 on: the signature is the image's tail, what lies before it is bootconfig.
  function PlaceTail(l: Layout, signatureSize: nat, sourceSize: nat): Result<seq<Section>, LayoutError> {
    if signatureSize > sourceSize then Err(SectionOutOfBounds(Signature, 0, signatureSize, sourceSize))
    else
      var tail := sourceSize - signatureSize;
      var ss := if l.cursor < tail then l.sections + [Section(Bootconfig, l.cursor, tail - l.cursor)] else l.sections;
      Ok(if signatureSize > 0 then ss + [Section(Signature, tail, signatureSize)] else ss)
  }

  function BootSections(h: BootHeader, sourceSize: nat): Result<seq<Section>, LayoutError> {
    var l :- UpToDtb(h, sourceSize);
    if h.version >= 3 then PlaceTail(l, h.signatureSize, sourceSize) else Ok(l.sections)
  }

  // Versions 0 to 2 fail on every other page size, before anything else.
  lemma BadPageSize(h: BootHeader, sourceSize: nat)
    requires h.version < 3 && !DoubledFrom512(h.pageSize)
    ensures BootSections(h, sourceSize) == Err(InvalidPageSize(h.pageSize))
  {
    hide PageSize;
    PageSizeIff(h.pageSize);
  }

  method ComputeBootSections(h: BootHeader, sourceSize: nat) returns (r: Result<seq<Section>, LayoutError>)
    requires sourceSize <= U64_MAX
    ensures r == BootSections(h, sourceSize)
  {
    hide AlignUp, IsPowerOfTwo, Validate;
    var page := 4096;
    if h.version < 3 {
      var checked := PageSize(h.pageSize);
      if checked.Err? {
        return Err(checked.error);
      }
      page := checked.value;
    }
    var start := Align(h.headerSize, page);
    if start.Err? {
      return Err(start.error);
    }
    var cursor, sections := start.value, [];
    var step := Push(Kernel, cursor, h.kernelSize, page, sourceSize, cursor, sections);
    if step.Err? {
      return Err(step.error);
    }
    cursor, sections := step.value.0, step.value.1;
    step := Push(Ramdisk, cursor, h.ramdiskSize, page, sourceSize, cursor, sections);
    if step.Err? {
      return Err(step.error);
    }
    cursor, sections := step.value.0, step.value.1;
    step := Push(Second, cursor, h.secondSize, page, sourceSize, cursor, sections);
    if step.Err? {
      return Err(step.error);
    }
    cursor, sections := step.value.0, step.value.1;
    if h.version >= 1 {
      step := Push(RecoveryDtbo, DtboOffset(h, cursor, sourceSize), h.dtboSize, page, sourceSize, cursor, sections);
      if step.Err? {
        return Err(step.error);
      }
      cursor, sections := step.value.0, step.value.1;
    }
    if h.version >= 2 {
      step := Push(Dtb, DtbOffset(h, cursor, sourceSize), h.dtbSize, page, sourceSize, cursor, sections);
      if step.Err? {
        return Err(step.error);
      }
      cursor, sections := step.value.0, step.value.1;
    }
    if h.version >= 3 {
      if h.signatureSize > sourceSize {
        return Err(SectionOutOfBounds(Signature, 0, h.signatureSize, sourceSize));
      }
      var signatureOffset := sourceSize - h.signatureSize;
      if cursor < signatureOffset {
        sections := sections + [Section(Bootconfig, cursor, signatureOffset - cursor)];
      }
      if h.signatureSize > 0 {
        sections := sections + [Section(Signature, signatureOffset, h.signatureSize)];
      }
    }
    return Ok(sections);
  }

  // Validates a section that is present, moves the cursor behind it and appends it.
  method Push(kind: Kind, offset: nat, size: nat, alignment: nat, sourceSize: nat, cursor: nat, sections: seq<Section>)
    returns (r: Result<(nat, seq<Section>), LayoutError>)
    requires sourceSize <= U64_MAX
    ensures var l := PlaceAt(Layout(sections, cursor), kind, offset, size, alignment, sourceSize);
            if l.Ok? then r == Ok((l.value.cursor, l.value.sections)) else r == Err(l.error)
  {
    if size == 0 {
      return Ok((cursor, sections));
    }
    var s := Validate(Section(kind, offset, size), sourceSize);
    if s.Err? {
      return Err(s.error);
    }
    var next := Align(offset + size, alignment);
    if next.Err? {
      return Err(next.error);
    }
    return Ok((next.value, sections + [s.value]));
  }

  // ---------- Vendor boot images ----------

  function VendorSections(version: nat, headerSize: nat, pageSize: nat, ramdiskSize: nat, dtbSize: nat,
                          tableSize: nat, bootconfigSize: nat, sourceSize: nat): Result<seq<Section>, LayoutError> {
    var page :- PageSize(pageSize);
    var minimum := if version >= 4 then VENDOR_HEADER_V3_SIZE + 16 else VENDOR_HEADER_V3_SIZE;
    if headerSize < minimum then Err(SectionOutOfBounds(VendorRamdisk, headerSize, 0, sourceSize))
    else
      var start :- Align(headerSize, page);
      var l1 :- Place(Layout([], start), VendorRamdisk, ramdiskSize, page, sourceSize);
      var l2 :- Place(l1, VendorDtb, dtbSize, page, sourceSize);
      var l3 :- Place(l2, VendorRamdiskTable, tableSize, 4, sourceSize);
      if bootconfigSize == 0 then Ok(l3.sections)
      else
        var s :- Validate(Section(Bootconfig, l3.cursor, bootconfigSize), sourceSize);
        Ok(l3.sections + [s])
  }

  // Other page sizes fail first, then headers too small for their version.
  lemma BadVendorHeader(version: nat, headerSize: nat, pageSize: nat, ramdiskSize: nat, dtbSize: nat,
                        tableSize: nat, bootconfigSize: nat, sourceSize: nat)
    ensures var r := VendorSections(version, headerSize, pageSize, ramdiskSize, dtbSize, tableSize, bootconfigSize,
        sourceSize);
            && (!DoubledFrom512(pageSize) ==> r == Err(InvalidPageSize(pageSize)))
            && (DoubledFrom512(pageSize) && headerSize < (if version >= 4 then 2128 else 2112) ==>
                 r == Err(SectionOutOfBounds(VendorRamdisk, headerSize, 0, sourceSize)))
  {
    hide PageSize, Align;
    PageSizeIff(pageSize);
  }

  method ComputeVendorSections(version: nat, headerSize: nat, pageSize: nat, ramdiskSize: nat, dtbSize: nat,
                               tableSize: nat, bootconfigSize: nat, sourceSize: nat)
    returns (r: Result<seq<Section>, LayoutError>)
    requires sourceSize <= U64_MAX
    ensures r == VendorSections(version, headerSize, pageSize, ramdiskSize, dtbSize, tableSize, bootconfigSize,
        sourceSize)
  {
    hide AlignUp, IsPowerOfTwo, Validate;
    var page := PageSize(pageSize);
    if page.Err? {
      return Err(page.error);
    }
    var minimum := if version >= 4 then VENDOR_HEADER_V3_SIZE + 16 else VENDOR_HEADER_V3_SIZE;
    if headerSize < minimum {
      return Err(SectionOutOfBounds(VendorRamdisk, headerSize, 0, sourceSize));
    }
    var start := Align(headerSize, page.value);
    if start.Err? {
      return Err(start.error);
    }
    var cursor, sections := start.value, [];
    var step := Push(VendorRamdisk, cursor, ramdiskSize, page.value, sourceSize, cursor, sections);
    if step.Err? {
      return Err(step.error);
    }
    cursor, sections := step.value.0, step.value.1;
    step := Push(VendorDtb, cursor, dtbSize, page.value, sourceSize, cursor, sections);
    if step.Err? {
      return Err(step.error);
    }
    cursor, sections := step.value.0, step.value.1;
    step := Push(VendorRamdiskTable, cursor, tableSize, 4, sourceSize, cursor, sections);
    if step.Err? {
      return Err(step.error);
    }
    cursor, sections := step.value.0, step.value.1;
    if bootconfigSize > 0 {
      var s := Validate(Section(Bootconfig, cursor, bootconfigSize), sourceSize);
      if s.Err? {
        return Err(s.error);
      }
      sections := sections + [s.value];
    }
    return Ok(sections);
  }
}
