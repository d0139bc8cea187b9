// What the layout guarantees: sections inside the image, exact page offsets, and exactly when
// sections stay apart.
module BootTheory {
  import opened Wrappers
  import opened Bytes
  import opened Binary
  import opened Boot
  import opened BootLayout

  // ---------- Bounds and order ----------

  predicate Inside(ss: seq<Section>, sourceSize: nat) {
    forall k :: 0 <= k < |ss| ==> ss[k].size > 0 && ss[k].End() <= sourceSize
  }

  predicate Ordered(ss: seq<Section>) {
    forall i, j :: 0 <= i < j < |ss| ==> ss[i].End() <= ss[j].offset
  }

  predicate Disjoint(ss: seq<Section>) {
    forall i, j :: 0 <= i < j < |ss| ==> ss[i].End() <= ss[j].offset || ss[j].End() <= ss[i].offset
  }

  function LastEnd(ss: seq<Section>): nat {
    if ss == [] then 0 else ss[|ss| - 1].End()
  }

  predicate Sequential(l: Layout, sourceSize: nat) {
    Inside(l.sections, sourceSize) && Ordered(l.sections) && LastEnd(l.sections) <= l.cursor
  }

  lemma PlaceInside(l: Layout, kind: Kind, offset: nat, size: nat, alignment: nat, sourceSize: nat)
    requires Inside(l.sections, sourceSize)
    requires PlaceAt(l, kind, offset, size, alignment, sourceSize).Ok?
    ensures Inside(PlaceAt(l, kind, offset, size, alignment, sourceSize).value.sections, sourceSize)
  {
  }

  lemma PlaceSequential(l: Layout, kind: Kind, offset: nat, size: nat, alignment: nat, sourceSize: nat)
    requires Sequential(l, sourceSize) && l.cursor <= offset
    requires PlaceAt(l, kind, offset, size, alignment, sourceSize).Ok?
    ensures Sequential(PlaceAt(l, kind, offset, size, alignment, sourceSize).value, sourceSize)
  {
  }

  // Everything up to the recovery DTBO is laid out in sequence.
  lemma UpToDtboSequential(h: BootHeader, sourceSize: nat)
    requires UpToDtbo(h, sourceSize).Ok?
    ensures Sequential(UpToDtbo(h, sourceSize).value, sourceSize)
  {
    hide Align, Validate, PageOf, Sequential, PlaceAt;
    var page := PageOf(h).value;
    var l0 := Layout([], Align(h.headerSize, page).value);
    EmptySequential(l0, sourceSize);
    PlaceSequential(l0, Kernel, l0.cursor, h.kernelSize, page, sourceSize);
    var l1 := Place(l0, Kernel, h.kernelSize, page, sourceSize).value;
    PlaceSequential(l1, Ramdisk, l1.cursor, h.ramdiskSize, page, sourceSize);
    var l2 := Place(l1, Ramdisk, h.ramdiskSize, page, sourceSize).value;
    PlaceSequential(l2, Second, l2.cursor, h.secondSize, page, sourceSize);
    var l3 := UpToSecond(h, sourceSize).value;
    var dtboSize := if h.version >= 1 then h.dtboSize else 0;
    PlaceSequential(l3, RecoveryDtbo, DtboOffset(h, l3.cursor, sourceSize), dtboSize, page, sourceSize);
  }

  lemma EmptySequential(l: Layout, sourceSize: nat)
    requires l.sections == []
    ensures Sequential(l, sourceSize)
  {
  }

  // Every section the layout reports is nonempty and lies inside the image.
  lemma SectionsInside(h: BootHeader, sourceSize: nat)
    requires BootSections(h, sourceSize).Ok?
    ensures Inside(BootSections(h, sourceSize).value, sourceSize)
  {
    hide Align, Validate, PageOf, PlaceAt, UpToDtbo;
    UpToDtboSequential(h, sourceSize);
    var l := UpToDtbo(h, sourceSize).value;
    PlaceInside(l, Dtb, DtbOffset(h, l.cursor, sourceSize), if h.version >= 2 then h.dtbSize else 0, PageOf(h).value,
        sourceSize);
  }

  // ---------- Exact offsets ----------

  // Appends a section of n bytes at page k, if there is one.
  function Appended(ss: seq<Section>, kind: Kind, k: nat, page: nat, n: nat): seq<Section> {
    if n == 0 then ss else ss + [Section(kind, k * page, n)]
  }

  lemma PlaceExact(l: Layout, kind: Kind, size: nat, page: nat, sourceSize: nat, k: nat)
    requires page > 0 && l.cursor == k * page && sourceSize <= U64_MAX
    ensures Place(l, kind, size, page, sourceSize) ==
      if size == 0 then Ok(l)
      else if l.cursor + size > U64_MAX then Err(Arithmetic(Overflow))
      else if l.cursor + size > sourceSize then Err(SectionOutOfBounds(kind, l.cursor, size, sourceSize))
      else if (k + Pages(size, page)) * page > U64_MAX then Err(Arithmetic(Overflow))
      else Ok(Layout(Appended(l.sections, kind, k, page, size), (k + Pages(size, page)) * page))
  {
    hide AlignUp, Pages;
    if size > 0 && l.cursor + size <= sourceSize {
      AlignUpIsPages(k * page + size, page);
      PagesAdd(k, size, page);
    }
  }

  // Kernel, ramdisk and second stage start at whole pages: the page counts of everything before
  // them, header included, add up.
  function KernelPage(h: BootHeader, page: nat): nat
    requires page > 0
  {
    Pages(h.headerSize, page)
  }

  function RamdiskPage(h: BootHeader, page: nat): nat
    requires page > 0
  {
    KernelPage(h, page) + Pages(h.kernelSize, page)
  }

  function SecondPage(h: BootHeader, page: nat): nat
    requires page > 0
  {
    RamdiskPage(h, page) + Pages(h.ramdiskSize, page)
  }

  function NextPage(h: BootHeader, page: nat): nat
    requires page > 0
  {
    SecondPage(h, page) + Pages(h.secondSize, page)
  }

  function PageLayout(h: BootHeader, page: nat): Layout
    requires page > 0
  {
    var kernel := Appended([], Kernel, KernelPage(h, page), page, h.kernelSize);
    var ramdisk := Appended(kernel, Ramdisk, RamdiskPage(h, page), page, h.ramdiskSize);
    Layout(Appended(ramdisk, Second, SecondPage(h, page), page, h.secondSize), NextPage(h, page) * page)
  }

  lemma UpToSecondExact(h: BootHeader, sourceSize: nat)
    requires ValidHeader(h) && sourceSize <= U64_MAX && UpToSecond(h, sourceSize).Ok?
    ensures PageOf(h).Ok? && PageOf(h).value > 0
    ensures UpToSecond(h, sourceSize).value == PageLayout(h, PageOf(h).value)
  {
    hide AlignUp, Pages, Place, PageSize, Appended;
    var page := PageOf(h).value;
    AlignUpIsPages(h.headerSize, page);
    var k0, k1, k2 := KernelPage(h, page), RamdiskPage(h, page), SecondPage(h, page);
    NoPages(page);
    AppendedNothing();
    var l0 := Layout([], k0 * page);
    PlaceExact(l0, Kernel, h.kernelSize, page, sourceSize, k0);
    var l1 := Place(l0, Kernel, h.kernelSize, page, sourceSize).value;
    PlaceExact(l1, Ramdisk, h.ramdiskSize, page, sourceSize, k1);
    var l2 := Place(l1, Ramdisk, h.ramdiskSize, page, sourceSize).value;
    PlaceExact(l2, Second, h.secondSize, page, sourceSize, k2);
  }

  lemma PlaceAtAppends(l: Layout, kind: Kind, offset: nat, size: nat, alignment: nat, sourceSize: nat)
    requires PlaceAt(l, kind, offset, size, alignment, sourceSize).Ok?
    ensures l.sections <= PlaceAt(l, kind, offset, size, alignment, sourceSize).value.sections
  {
  }

  lemma PlaceTailAppends(l: Layout, signatureSize: nat, sourceSize: nat)
    requires PlaceTail(l, signatureSize, sourceSize).Ok?
    ensures l.sections <= PlaceTail(l, signatureSize, sourceSize).value
  {
  }

  // The reported sections begin with exactly these.
  lemma OffsetsExact(h: BootHeader, sourceSize: nat)
    requires ValidHeader(h) && sourceSize <= U64_MAX && BootSections(h, sourceSize).Ok?
    ensures PageOf(h).Ok? && PageOf(h).value > 0
    ensures PageLayout(h, PageOf(h).value).sections <= BootSections(h, sourceSize).value
  {
    hide Align, PageOf, PlaceAt, PlaceTail, UpToSecond, PageLayout;
    var page, l3 := PageOf(h).value, UpToSecond(h, sourceSize).value;
    UpToSecondExact(h, sourceSize);
    PlaceAtAppends(l3, RecoveryDtbo, DtboOffset(h, l3.cursor, sourceSize), if h.version >= 1 then h.dtboSize else 0,
        page, sourceSize);
    var l4 := UpToDtbo(h, sourceSize).value;
    PlaceAtAppends(l4, Dtb, DtbOffset(h, l4.cursor, sourceSize), if h.version >= 2 then h.dtbSize else 0, page,
        sourceSize);
    if h.version >= 3 {
      PlaceTailAppends(UpToDtb(h, sourceSize).value, h.signatureSize, sourceSize);
    }
  }

  lemma NoPages(page: nat)
    requires page > 0
    ensures Pages(0, page) == 0
  {
  }

  lemma AppendedNothing()
    ensures forall ss: seq<Section>, kind: Kind, k: nat, page: nat :: Appended(ss, kind, k, page, 0) == ss
  {
  }

  // A version 3 or 4 header of at most 4096 bytes leaves the kernel at 4096, whatever size below
  // that it records.
  lemma ModernKernelAt(b: seq<byte>, sourceSize: nat)
    requires ParseBootHeader(b).Ok? && |b| >= 1580 && sourceSize <= U64_MAX
    requires var h := ParseBootHeader(b).value;
             && h.version >= 3 && Num(b, 20, 4) <= 4096 && h.kernelSize > 0 && BootSections(h, sourceSize).Ok?
    ensures var h := ParseBootHeader(b).value;
            [Section(Kernel, 4096, h.kernelSize)] <= BootSections(h, sourceSize).value
  {
    hide ParseBootHeader, BootSections, Num, ValidHeader;
    var h := ParseBootHeader(b).value;
    ParsedHeaderIsValid(b);
    HeaderSizeExact(b);
    OffsetsExact(h, sourceSize);
    OnePage(h.headerSize);
  }

  lemma OnePage(n: nat)
    requires 0 < n <= 4096
    ensures Pages(n, 4096) == 1
  {
  }

  // ---------- Errors ----------

  // The image is too small for a section of this size at this offset.
  function Misfit(kind: Kind, offset: nat, size: nat, sourceSize: nat): Option<LayoutError> {
    if size > 0 && offset + size > sourceSize then Some(SectionOutOfBounds(kind, offset, size, sourceSize)) else None
  }

  function Either(a: Option<LayoutError>, b: Option<LayoutError>): Option<LayoutError> {
    if a.Some? then a else b
  }

  // The first of kernel, ramdisk and second stage that does not fit.
  function FirstMisfit(h: BootHeader, page: nat, sourceSize: nat): Option<LayoutError>
    requires page > 0
  {
    Either(Misfit(Kernel, KernelPage(h, page) * page, h.kernelSize, sourceSize),
           Either(Misfit(Ramdisk, RamdiskPage(h, page) * page, h.ramdiskSize, sourceSize),
                  Misfit(Second, SecondPage(h, page) * page, h.secondSize, sourceSize)))
  }

  lemma PlaceMisfit(l: Layout, kind: Kind, size: nat, page: nat, sourceSize: nat, k: nat)
    requires page > 0 && l.cursor == k * page && sourceSize <= U64_MAX
    requires (k + Pages(size, page)) * page <= U64_MAX
    ensures var r, m := Place(l, kind, size, page, sourceSize), Misfit(kind, k * page, size, sourceSize);
            if m.Some? then r == Err(m.value) else r.Ok? && r.value.cursor == (k + Pages(size, page)) * page
  {
    hide Pages;
    PlaceExact(l, kind, size, page, sourceSize, k);
    NoPages(page);
    PagesCover(size, page);
    Distribute(k, Pages(size, page), page);
  }

  // Rounding up sizes of 32 bits stays far below 64 bits.
  lemma SumsFit(a: nat, b: nat, c: nat, d: nat, page: nat)
    requires 0 < page <= U32_MAX && a <= U32_MAX && b <= U32_MAX && c <= U32_MAX && d <= U32_MAX
    ensures var ka := Pages(a, page);
            var kb := ka + Pages(b, page);
            var kc := kb + Pages(c, page);
            && ka * page <= U64_MAX && kb * page <= U64_MAX && kc * page <= U64_MAX
            && (kc + Pages(d, page)) * page <= 8 * U32_MAX
  {
    hide Pages;
    PagesCover(a, page);
    PagesCover(b, page);
    PagesCover(c, page);
    PagesCover(d, page);
    Distribute(Pages(a, page), Pages(b, page), page);
    Distribute(Pages(a, page) + Pages(b, page), Pages(c, page), page);
    Distribute(Pages(a, page) + Pages(b, page) + Pages(c, page), Pages(d, page), page);
  }

  lemma HeaderWords(h: BootHeader)
    requires ValidHeader(h)
    ensures h.headerSize <= U32_MAX && h.kernelSize <= U32_MAX && h.ramdiskSize <= U32_MAX && h.secondSize <= U32_MAX
    ensures h.headerSize >= BootHeaderSize(h.version) && h.pageSize <= U32_MAX
    ensures h.version < 1 ==> h.dtboSize == 0
    ensures h.version < 2 ==> h.dtbSize == 0
  {
  }

  lemma UpToSecondFails(h: BootHeader, page: nat, sourceSize: nat)
    requires ValidHeader(h) && sourceSize <= U64_MAX && PageOf(h) == Ok(page) && 0 < page <= U32_MAX
    ensures var r, m := UpToSecond(h, sourceSize), FirstMisfit(h, page, sourceSize);
            if m.Some? then r == Err(m.value) else r.Ok? && r.value.cursor == NextPage(h, page) * page
  {
    hide AlignUp, Pages, Place, PageOf, Misfit, ValidHeader;
    HeaderWords(h);
    SumsFit(h.headerSize, h.kernelSize, h.ramdiskSize, h.secondSize, page);
    AlignUpIsPages(h.headerSize, page);
    var l0 := Layout([], KernelPage(h, page) * page);
    PlaceMisfit(l0, Kernel, h.kernelSize, page, sourceSize, KernelPage(h, page));
    var r1 := Place(l0, Kernel, h.kernelSize, page, sourceSize);
    if r1.Ok? {
      PlaceMisfit(r1.value, Ramdisk, h.ramdiskSize, page, sourceSize, RamdiskPage(h, page));
      var r2 := Place(r1.value, Ramdisk, h.ramdiskSize, page, sourceSize);
      if r2.Ok? {
        PlaceMisfit(r2.value, Second, h.secondSize, page, sourceSize, SecondPage(h, page));
      }
    }
  }

  // Versions 3 and 4 fail exactly if kernel, ramdisk or signature does not fit, with the first.
  lemma ModernFails(h: BootHeader, sourceSize: nat)
    requires ValidHeader(h) && h.version >= 3 && sourceSize <= U64_MAX
    ensures var r := BootSections(h, sourceSize);
            var m := Either(FirstMisfit(h, 4096, sourceSize), Misfit(Signature, 0, h.signatureSize, sourceSize));
            if m.Some? then r == Err(m.value) else r.Ok?
  {
    hide UpToSecond, FirstMisfit;
    UpToSecondFails(h, 4096, sourceSize);
  }

  // Rounding the section's end up to a page leaves the 64 bits.
  function Overrun(end: nat, size: nat, page: nat): Option<LayoutError>
    requires page > 0
  {
    if size > 0 && Pages(end, page) * page > 0xffff_ffff_ffff_ffff then Some(Arithmetic(Overflow)) else None
  }

  function DtboFailure(h: BootHeader, sourceSize: nat): Option<LayoutError>
    requires h.pageSize > 0
  {
    var at := DtboPlace(h, sourceSize);
    Either(Misfit(RecoveryDtbo, at, h.dtboSize, sourceSize), Overrun(at + h.dtboSize, h.dtboSize, h.pageSize))
  }

  // Where the DTB would go in sequence.
  function BehindDtbo(h: BootHeader, sourceSize: nat): nat
    requires h.pageSize > 0
  {
    if h.dtboSize > 0 then Pages(DtboPlace(h, sourceSize) + h.dtboSize, h.pageSize) * h.pageSize
    else NextPage(h, h.pageSize) * h.pageSize
  }

  // A DTB with no room there goes to the end of the image, so only an image smaller than the DTB
  // is too small.
  function DtbFailure(h: BootHeader, sourceSize: nat): Option<LayoutError>
    requires h.pageSize > 0
  {
    var next := BehindDtbo(h, sourceSize);
    Either(Misfit(Dtb, 0, h.dtbSize, sourceSize),
           Overrun(if next + h.dtbSize <= sourceSize then next + h.dtbSize else sourceSize, h.dtbSize, h.pageSize))
  }

  lemma PlaceAtFails(l: Layout, kind: Kind, offset: nat, size: nat, page: nat, sourceSize: nat)
    requires page > 0 && sourceSize <= U64_MAX
    ensures var r := PlaceAt(l, kind, offset, size, page, sourceSize);
            && (size == 0 ==> r == Ok(l))
            && (size > 0 && offset + size > U64_MAX ==> r == Err(Arithmetic(Overflow)))
            && (size > 0 && sourceSize < offset + size <= U64_MAX ==>
                 r == Err(SectionOutOfBounds(kind, offset, size, sourceSize)))
            && (size > 0 && offset + size <= sourceSize && Pages(offset + size, page) * page > U64_MAX ==>
                 r == Err(Arithmetic(Overflow)))
            && (size > 0 && offset + size <= sourceSize && Pages(offset + size, page) * page <= U64_MAX ==>
                 r.Ok? && r.value.cursor == Pages(offset + size, page) * page)
  {
    hide Pages, AlignUp;
    if size > 0 && offset + size <= sourceSize {
      AlignUpIsPages(offset + size, page);
    }
  }

  lemma DtboFails(h: BootHeader, sourceSize: nat)
    requires ValidHeader(h) && h.version < 3 && sourceSize <= U64_MAX && PageSize(h.pageSize).Ok?
    requires FirstMisfit(h, h.pageSize, sourceSize).None?
    ensures var r, m := UpToDtbo(h, sourceSize), DtboFailure(h, sourceSize);
            if m.Some? then r == Err(m.value) else r.Ok? && r.value.cursor == BehindDtbo(h, sourceSize)
  {
    hide Pages, UpToSecond, FirstMisfit, PlaceAt, ValidHeader, IsPowerOfTwo, NextPage;
    HeaderWords(h);
    SmallNextPage(h);
    UpToSecondFails(h, h.pageSize, sourceSize);
    var l := UpToSecond(h, sourceSize).value;
    PlaceAtFails(l, RecoveryDtbo, DtboOffset(h, l.cursor, sourceSize), h.dtboSize, h.pageSize, sourceSize);
  }

  lemma SmallNextPage(h: BootHeader)
    requires ValidHeader(h) && h.version < 3 && h.pageSize > 0
    ensures NextPage(h, h.pageSize) * h.pageSize + h.dtboSize <= U64_MAX && h.dtboSize <= U32_MAX
    ensures h.dtbSize <= U32_MAX
  {
    SumsFit(h.headerSize, h.kernelSize, h.ramdiskSize, h.secondSize, h.pageSize);
  }

  // Versions 0 to 2 with a proper page size fail exactly if one of the parts does not fit or
  // cannot be rounded up, with the first.
  lemma LegacyFails(h: BootHeader, sourceSize: nat)
    requires ValidHeader(h) && h.version < 3 && sourceSize <= U64_MAX && DoubledFrom512(h.pageSize)
    ensures var r := BootSections(h, sourceSize);
            var m := Either(FirstMisfit(h, h.pageSize, sourceSize),
                            Either(DtboFailure(h, sourceSize), DtbFailure(h, sourceSize)));
            if m.Some? then r == Err(m.value) else r.Ok?
  {
    hide Pages, UpToSecond, UpToDtbo, FirstMisfit, PlaceAt, PageSize, ValidHeader, DtboFailure, BehindDtbo,
        DoubledFrom512;
    PageSizeIff(h.pageSize);
    PositivePage(h.pageSize);
    HeaderWords(h);
    SmallNextPage(h);
    UpToSecondFails(h, h.pageSize, sourceSize);
    if FirstMisfit(h, h.pageSize, sourceSize).None? {
      DtboFails(h, sourceSize);
      if DtboFailure(h, sourceSize).None? {
        var l := UpToDtbo(h, sourceSize).value;
        PlaceAtFails(l, Dtb, DtbOffset(h, l.cursor, sourceSize), h.dtbSize, h.pageSize, sourceSize);
      }
    } else {
      UpToDtboFailsToo(h, sourceSize);
    }
  }

  lemma UpToDtboFailsToo(h: BootHeader, sourceSize: nat)
    ensures PageOf(h).Ok? && UpToSecond(h, sourceSize).Err? ==>
              UpToDtbo(h, sourceSize) == Err(UpToSecond(h, sourceSize).error)
  {
    hide UpToSecond, PageOf;
  }

  lemma PositivePage(page: nat)
    requires DoubledFrom512(page)
    ensures page > 0
  {
  }

  lemma PagesInFours(k: nat, page: nat)
    requires page % 4 == 0
    ensures k * page == k * (page / 4) * 4
  {
  }

  // Where the table of ramdisks starts in a vendor image, and what follows it.
  function TableAt(headerSize: nat, page: nat, ramdiskSize: nat, dtbSize: nat): nat
    requires page > 0
  {
    (Pages(headerSize, page) + Pages(ramdiskSize, page) + Pages(dtbSize, page)) * page
  }

  function VendorFailure(headerSize: nat, page: nat, ramdiskSize: nat, dtbSize: nat, tableSize: nat,
                         bootconfigSize: nat, sourceSize: nat): Option<LayoutError>
    requires page > 0
  {
    var k0, table := Pages(headerSize, page), TableAt(headerSize, page, ramdiskSize, dtbSize);
    Either(Misfit(VendorRamdisk, k0 * page, ramdiskSize, sourceSize),
           Either(Misfit(VendorDtb, (k0 + Pages(ramdiskSize, page)) * page, dtbSize, sourceSize),
                  Either(Misfit(VendorRamdiskTable, table, tableSize, sourceSize),
                         Misfit(Bootconfig, table + Pages(tableSize, 4) * 4, bootconfigSize, sourceSize))))
  }

  lemma TableMisfit(l: Layout, tableSize: nat, page: nat, sourceSize: nat, k: nat)
    requires DoubledFrom512(page) && l.cursor == k * page <= 8 * U32_MAX && tableSize <= U32_MAX
    requires sourceSize <= U64_MAX
    ensures var r := Place(l, VendorRamdiskTable, tableSize, 4, sourceSize);
            var m := Misfit(VendorRamdiskTable, k * page, tableSize, sourceSize);
            if m.Some? then r == Err(m.value) else r.Ok? && r.value.cursor == k * page + Pages(tableSize, 4) * 4
  {
    hide Pages, Place, Misfit, DoubledFrom512;
    PageIsMultipleOfFour(page);
    PagesInFours(k, page);
    PagesCover(tableSize, 4);
    Distribute(k * (page / 4), Pages(tableSize, 4), 4);
    PlaceMisfit(l, VendorRamdiskTable, tableSize, 4, sourceSize, k * (page / 4));
  }

  // Vendor images with proper page and header sizes fail exactly if a part does not fit, with
  // the first.
  lemma VendorFails(version: nat, headerSize: nat, page: nat, ramdiskSize: nat, dtbSize: nat,
                    tableSize: nat, bootconfigSize: nat, sourceSize: nat)
    requires DoubledFrom512(page) && page <= U32_MAX && sourceSize <= U64_MAX
    requires (if version >= 4 then 2128 else 2112) <= headerSize <= U32_MAX
    requires ramdiskSize <= U32_MAX && dtbSize <= U32_MAX && tableSize <= U32_MAX && bootconfigSize <= U32_MAX
    ensures page > 0
    ensures var r := VendorSections(version, headerSize, page, ramdiskSize, dtbSize, tableSize, bootconfigSize,
        sourceSize);
            var m := VendorFailure(headerSize, page, ramdiskSize, dtbSize, tableSize, bootconfigSize, sourceSize);
            if m.Some? then r == Err(m.value) else r.Ok?
  {
    hide Pages, AlignUp, Place, PageSize, Misfit, DoubledFrom512;
    PageIsMultipleOfFour(page);
    PageSizeIff(page);
    SumsFit(headerSize, ramdiskSize, dtbSize, 0, page);
    NoPages(page);
    AlignUpIsPages(headerSize, page);
    PagesCover(tableSize, 4);
    var k0 := Pages(headerSize, page);
    var k1 := k0 + Pages(ramdiskSize, page);
    var k2 := k1 + Pages(dtbSize, page);
    var l0 := Layout([], k0 * page);
    PlaceMisfit(l0, VendorRamdisk, ramdiskSize, page, sourceSize, k0);
    var r1 := Place(l0, VendorRamdisk, ramdiskSize, page, sourceSize);
    if r1.Ok? {
      PlaceMisfit(r1.value, VendorDtb, dtbSize, page, sourceSize, k1);
      var r2 := Place(r1.value, VendorDtb, dtbSize, page, sourceSize);
      if r2.Ok? {
        TableMisfit(r2.value, tableSize, page, sourceSize, k2);
        BootconfigMisfit(Bootconfig, k2 * page + Pages(tableSize, 4) * 4, bootconfigSize, sourceSize);
      }
    }
  }

  lemma BootconfigMisfit(kind: Kind, at: nat, size: nat, sourceSize: nat)
    requires at + size <= U64_MAX
    ensures var r, m := Validate(Section(kind, at, size), sourceSize), Misfit(kind, at, size, sourceSize);
            size > 0 ==> if m.Some? then r == Err(m.value) else r.Ok?
    ensures size == 0 ==> Misfit(kind, at, size, sourceSize).None?
  {
  }

  // ---------- When sections stay apart ----------

  // A section flush with the end of the image stays apart from sequential ones exactly if it
  // starts behind the last of them.
  lemma FlushWithEnd(ss: seq<Section>, s: Section, sourceSize: nat)
    requires Inside(ss, sourceSize) && Ordered(ss) && s.End() == sourceSize && s.size > 0
    ensures Ordered(ss + [s]) <==> LastEnd(ss) <= s.offset
    ensures Disjoint(ss + [s]) <==> LastEnd(ss) <= s.offset
  {
    var all := ss + [s];
    if ss != [] {
      var last := |ss| - 1;
      assert all[last] == ss[last] && all[|ss|] == s;
      if LastEnd(ss) <= s.offset {
        forall i, j | 0 <= i < j < |all| ensures all[i].End() <= all[j].offset {
          if j == |ss| && i < last {
            assert ss[i].End() <= ss[last].offset;
          }
        }
      }
    }
  }

  lemma OrderedIsDisjoint(ss: seq<Section>)
    requires Ordered(ss)
    ensures Disjoint(ss)
  {
  }

  // Where the last of kernel, ramdisk and second stage ends; zero without any.
  function EndOfThree(h: BootHeader, page: nat): nat
    requires page > 0
  {
    if h.secondSize > 0 then SecondPage(h, page) * page + h.secondSize
    else if h.ramdiskSize > 0 then RamdiskPage(h, page) * page + h.ramdiskSize
    else if h.kernelSize > 0 then KernelPage(h, page) * page + h.kernelSize
    else 0
  }

  // Where a recovery DTBO lies: at the recorded offset if that is behind the second stage and has
  // room in the image, else right behind the second stage.
  function DtboPlace(h: BootHeader, sourceSize: nat): (at: nat)
    requires h.pageSize > 0
    ensures at >= NextPage(h, h.pageSize) * h.pageSize
  {
    var next := NextPage(h, h.pageSize) * h.pageSize;
    if next <= h.dtboOffset && h.dtboOffset + h.dtboSize <= sourceSize then h.dtboOffset else next
  }

  // Where the last section before the device tree blob ends.
  function EndBeforeDtb(h: BootHeader, sourceSize: nat): nat
    requires h.pageSize > 0
  {
    if h.dtboSize > 0 then DtboPlace(h, sourceSize) + h.dtboSize
    else EndOfThree(h, h.pageSize)
  }

  // There is room for the device tree blob of a version 2 image behind the sections before it.
  predicate DtbClear(h: BootHeader, sourceSize: nat)
    requires h.pageSize > 0
  {
    h.version < 2 || h.dtbSize == 0 || EndBeforeDtb(h, sourceSize) + h.dtbSize <= sourceSize
  }

  // There is room for the signature of a version 4 image behind kernel and ramdisk.
  predicate SignatureClear(h: BootHeader, sourceSize: nat) {
    h.signatureSize == 0 || EndOfThree(h, 4096) + h.signatureSize <= sourceSize
  }

  lemma UpToSecondEnds(h: BootHeader, sourceSize: nat)
    requires ValidHeader(h) && sourceSize <= U64_MAX && UpToSecond(h, sourceSize).Ok?
    ensures PageOf(h).Ok? && PageOf(h).value > 0
    ensures LastEnd(UpToSecond(h, sourceSize).value.sections) == EndOfThree(h, PageOf(h).value)
    ensures UpToSecond(h, sourceSize).value.cursor == NextPage(h, PageOf(h).value) * PageOf(h).value
  {
    hide KernelPage, RamdiskPage, SecondPage, NextPage, UpToSecond, PageSize, ValidHeader;
    UpToSecondExact(h, sourceSize);
  }

  lemma UpToDtboEnds(h: BootHeader, sourceSize: nat)
    requires ValidHeader(h) && h.version < 3 && sourceSize <= U64_MAX && UpToDtbo(h, sourceSize).Ok?
    ensures h.pageSize > 0
    ensures LastEnd(UpToDtbo(h, sourceSize).value.sections) == EndBeforeDtb(h, sourceSize)
  {
    hide Align, UpToSecond, EndOfThree, NextPage, IsPowerOfTwo;
    UpToSecondEnds(h, sourceSize);
  }

  // For every header that parsing can yield: the sections are in order and pairwise disjoint
  // exactly if there is that room. Otherwise the DTB, flush with the end of the image, overlaps
  // an earlier section.
  lemma LegacyDisjointIff(h: BootHeader, sourceSize: nat)
    requires ValidHeader(h) && h.version < 3 && sourceSize <= U64_MAX && BootSections(h, sourceSize).Ok?
    ensures h.pageSize > 0
    ensures Disjoint(BootSections(h, sourceSize).value) <==> DtbClear(h, sourceSize)
    ensures Ordered(BootSections(h, sourceSize).value) <==> DtbClear(h, sourceSize)
  {
    hide Align, PageOf, UpToDtbo, Inside, Ordered, Disjoint, ValidHeader, LastEnd, EndBeforeDtb;
    UpToDtboSequential(h, sourceSize);
    UpToDtboEnds(h, sourceSize);
    var l, ss := UpToDtbo(h, sourceSize).value, BootSections(h, sourceSize).value;
    OrderedIsDisjoint(l.sections);
    if h.version >= 2 && h.dtbSize > 0 {
      var s := Section(Dtb, DtbOffset(h, l.cursor, sourceSize), h.dtbSize);
      assert ss == l.sections + [s];
      if DtbFits(h, l.cursor, sourceSize) {
        AppendOrdered(l.sections, s);
        OrderedIsDisjoint(ss);
      } else {
        FlushWithEnd(l.sections, s, sourceSize);
      }
    }
  }

  lemma AppendOrdered(ss: seq<Section>, s: Section)
    requires Ordered(ss) && LastEnd(ss) <= s.offset
    ensures Ordered(ss + [s])
  {
  }

  // For versions 3 and 4 the signature, always flush with the end, is what may overlap.
  lemma ModernDisjointIff(h: BootHeader, sourceSize: nat)
    requires ValidHeader(h) && h.version >= 3 && sourceSize <= U64_MAX && BootSections(h, sourceSize).Ok?
    ensures Disjoint(BootSections(h, sourceSize).value) <==> SignatureClear(h, sourceSize)
    ensures Ordered(BootSections(h, sourceSize).value) <==> SignatureClear(h, sourceSize)
  {
    hide Align, UpToSecond, Inside, Ordered, Disjoint, EndOfThree, LastEnd;
    UpToDtboSequential(h, sourceSize);
    UpToSecondEnds(h, sourceSize);
    var l := UpToDtbo(h, sourceSize).value;
    assert UpToDtb(h, sourceSize) == Ok(l);
    TailDisjointIff(l, h.signatureSize, sourceSize);
  }

  lemma TailDisjointIff(l: Layout, signatureSize: nat, sourceSize: nat)
    requires Sequential(l, sourceSize) && PlaceTail(l, signatureSize, sourceSize).Ok?
    ensures var ss := PlaceTail(l, signatureSize, sourceSize).value;
            var clear := signatureSize == 0 || LastEnd(l.sections) + signatureSize <= sourceSize;
            (Disjoint(ss) <==> clear) && (Ordered(ss) <==> clear)
  {
    hide Inside, Ordered, Disjoint;
    OrderedIsDisjoint(l.sections);
    var tail, ss := sourceSize - signatureSize, l.sections;
    if l.cursor < tail {
      var config := Section(Bootconfig, l.cursor, tail - l.cursor);
      AppendOrdered(ss, config);
      AppendInside(ss, config, sourceSize);
      ss := ss + [config];
      OrderedIsDisjoint(ss);
    }
    if signatureSize > 0 {
      FlushWithEnd(ss, Section(Signature, tail, signatureSize), sourceSize);
    }
  }

  // Both overlaps happen. A DTB too large for the room behind the kernel:
  lemma DtbOverlapExample()
    ensures var h := BootHeader(2, HEADER_V2_SIZE, 2048, 2048, 0, 0, 0, 0, 0, 0, 0, 0, 0, 1024, 0, 0);
            && ValidHeader(h)
            && BootSections(h, 4608) == Ok([Section(Kernel, 2048, 2048), Section(Dtb, 3584, 1024)])
            && !Disjoint(BootSections(h, 4608).value)
  {
    hide BootSections, ValidHeader, Disjoint;
    PageExample();
    var h := BootHeader(2, HEADER_V2_SIZE, 2048, 2048, 0, 0, 0, 0, 0, 0, 0, 0, 0, 1024, 0, 0);
    LayoutExample(h);
    OverlapExample(Section(Kernel, 2048, 2048), Section(Dtb, 3584, 1024));
  }

  // A signature that reaches back over the ramdisk:
  lemma SignatureOverlapExample()
    ensures var h := BootHeader(4, HEADER_V4_SIZE, 4096, 100, 0, 200, 0, 0, 0, 0, 0, 0, 0, 0, 0, 4096);
            && ValidHeader(h)
            && BootSections(h, 8392)
               == Ok([Section(Kernel, 4096, 100), Section(Ramdisk, 8192, 200), Section(Signature, 4296, 4096)])
            && !Disjoint(BootSections(h, 8392).value)
  {
    hide ValidHeader, Disjoint, Align;
    var h := BootHeader(4, HEADER_V4_SIZE, 4096, 100, 0, 200, 0, 0, 0, 0, 0, 0, 0, 0, 0, 4096);
    ModernPageExample();
    var kernel, ramdisk, signature := Section(Kernel, 4096, 100), Section(Ramdisk, 8192, 200),
        Section(Signature, 4296, 4096);
    assert [] + [kernel] == [kernel] && [kernel] + [ramdisk] == [kernel, ramdisk];
    assert UpToSecond(h, 8392) == Ok(Layout([kernel, ramdisk], 12288));
    assert [kernel, ramdisk] + [signature] == [kernel, ramdisk, signature];
    ThreeOverlap(kernel, ramdisk, signature);
  }

  lemma ModernPageExample()
    ensures Align(1584, 4096) == Ok(4096) && Align(4196, 4096) == Ok(8192) && Align(8392, 4096) == Ok(12288)
    ensures ValidHeader(BootHeader(4, HEADER_V4_SIZE, 4096, 100, 0, 200, 0, 0, 0, 0, 0, 0, 0, 0, 0, 4096))
  {
  }

  lemma ThreeOverlap(a: Section, b: Section, c: Section)
    requires b.End() > c.offset && c.End() > b.offset
    ensures !Disjoint([a, b, c])
  {
    var ss := [a, b, c];
    assert ss[1] == b && ss[2] == c;
  }

  lemma PageExample()
    ensures PageSize(2048) == Ok(2048)
  {
  }

  lemma LayoutExample(h: BootHeader)
    requires h == BootHeader(2, HEADER_V2_SIZE, 2048, 2048, 0, 0, 0, 0, 0, 0, 0, 0, 0, 1024, 0, 0)
    requires PageSize(2048) == Ok(2048)
    ensures ValidHeader(h)
    ensures BootSections(h, 4608) == Ok([Section(Kernel, 2048, 2048), Section(Dtb, 3584, 1024)])
  {
    hide PageSize, Align;
    assert Align(1660, 2048) == Ok(2048) && Align(4096, 2048) == Ok(4096) && Align(4608, 2048) == Ok(6144) by {
      AlignExample();
    }
    assert [] + [Section(Kernel, 2048, 2048)] == [Section(Kernel, 2048, 2048)];
    assert UpToDtbo(h, 4608) == Ok(Layout([Section(Kernel, 2048, 2048)], 4096));
    assert [Section(Kernel, 2048, 2048)] + [Section(Dtb, 3584, 1024)] == [Section(Kernel, 2048, 2048), Section(Dtb,
        3584, 1024)];
  }

  lemma AlignExample()
    ensures Align(1660, 2048) == Ok(2048) && Align(4096, 2048) == Ok(4096) && Align(4608, 2048) == Ok(6144)
  {
  }

  lemma OverlapExample(a: Section, b: Section)
    requires a.End() > b.offset && b.End() > a.offset
    ensures !Disjoint([a, b])
  {
    var ss := [a, b];
    assert ss[0] == a && ss[1] == b;
  }

  // Vendor images have no fallback: their sections are always inside, in order and disjoint.
  lemma VendorSectionsSequential(version: nat, headerSize: nat, pageSize: nat, ramdiskSize: nat, dtbSize: nat,
                                 tableSize: nat, bootconfigSize: nat, sourceSize: nat)
    requires VendorSections(version, headerSize, pageSize, ramdiskSize, dtbSize, tableSize, bootconfigSize,
        sourceSize).Ok?
    ensures var ss := VendorSections(version, headerSize, pageSize, ramdiskSize, dtbSize, tableSize, bootconfigSize,
        sourceSize).value;
            Inside(ss, sourceSize) && Ordered(ss) && Disjoint(ss)
  {
    hide Align, PageSize, PlaceAt, Inside, Ordered, Disjoint;
    var page := PageSize(pageSize).value;
    var l0 := Layout([], Align(headerSize, page).value);
    EmptySequential(l0, sourceSize);
    PlaceSequential(l0, VendorRamdisk, l0.cursor, ramdiskSize, page, sourceSize);
    var l1 := Place(l0, VendorRamdisk, ramdiskSize, page, sourceSize).value;
    PlaceSequential(l1, VendorDtb, l1.cursor, dtbSize, page, sourceSize);
    var l2 := Place(l1, VendorDtb, dtbSize, page, sourceSize).value;
    PlaceSequential(l2, VendorRamdiskTable, l2.cursor, tableSize, 4, sourceSize);
    var l3 := Place(l2, VendorRamdiskTable, tableSize, 4, sourceSize).value;
    if bootconfigSize > 0 {
      var s := Section(Bootconfig, l3.cursor, bootconfigSize);
      AppendOrdered(l3.sections, s);
      AppendInside(l3.sections, s, sourceSize);
      OrderedIsDisjoint(l3.sections + [s]);
    } else {
      OrderedIsDisjoint(l3.sections);
    }
  }

  lemma AppendInside(ss: seq<Section>, s: Section, sourceSize: nat)
    requires Inside(ss, sourceSize) && s.size > 0 && s.End() <= sourceSize
    ensures Inside(ss + [s], sourceSize)
  {
  }
}
