// Whole boot images: taking apart any image that carries its parts where they belong, and
// writing such an image over any bytes.
module BootImage {
  import opened Wrappers
  import opened Bytes
  import opened Binary
  import opened Boot
  import opened BootLayout
  import opened BootTheory

  type Part = (Kind, seq<byte>)

  // Bytes and where they go.
  type Located = (nat, seq<byte>)

  // What slicing an image at its sections yields.
  function Extract(image: seq<byte>, ss: seq<Section>): seq<Part>
    requires Inside(ss, |image|)
  {
    if ss == [] then []
    else
      var last := ss[|ss| - 1];
      Extract(image, ss[..|ss| - 1]) + [(last.kind, image[last.offset..last.End()])]
  }

  // The parts that are not empty; empty ones get no section.
  function Present(parts: seq<Part>): seq<Part> {
    if parts == [] then []
    else
      var last := parts[|parts| - 1];
      Present(parts[..|parts| - 1]) + if last.1 == [] then [] else [last]
  }

  predicate Carries(image: seq<byte>, at: nat, part: seq<byte>) {
    part == [] || PartAt(image, at, part)
  }

  predicate CarriesAll(image: seq<byte>, places: seq<Located>) {
    forall k :: 0 <= k < |places| ==> Carries(image, places[k].0, places[k].1)
  }

  lemma CarriesNothing(image: seq<byte>, at: nat)
    ensures Carries(image, at, [])
  {
  }

  // ---------- Writing ----------

  predicate Fits(n: nat, p: Located) {
    p.1 == [] || p.0 + |p.1| <= n
  }

  // b with the bytes at p's place replaced.
  function Lay(b: seq<byte>, p: Located): (r: seq<byte>)
    requires Fits(|b|, p)
    ensures |r| == |b|
  {
    if p.1 == [] then b else b[..p.0] + p.1 + b[p.0 + |p.1|..]
  }

  // The places follow each other from `from` on and end before n.
  predicate InOrder(places: seq<Located>, from: nat, n: nat) {
    places != [] ==>
      && from <= places[0].0 && Fits(n, places[0])
      && InOrder(places[1..], places[0].0 + |places[0].1|, n)
  }

  function LayAll(b: seq<byte>, places: seq<Located>, from: nat): (r: seq<byte>)
    requires InOrder(places, from, |b|)
    ensures |r| == |b|
    decreases |places|
  {
    if places == [] then b else LayAll(Lay(b, places[0]), places[1..], places[0].0 + |places[0].1|)
  }

  lemma LayCarries(b: seq<byte>, p: Located)
    requires Fits(|b|, p)
    ensures Carries(Lay(b, p), p.0, p.1)
  {
  }

  lemma LayKeeps(b: seq<byte>, p: Located, at: nat, part: seq<byte>)
    requires Fits(|b|, p) && Carries(b, at, part) && at + |part| <= p.0
    ensures Carries(Lay(b, p), at, part)
  {
    if part != [] && p.1 != [] {
      assert b[..p.0][at..at + |part|] == part;
    }
  }

  lemma {:induction false} LayAllKeeps(b: seq<byte>, places: seq<Located>, from: nat, at: nat, part: seq<byte>)
    requires InOrder(places, from, |b|) && Carries(b, at, part) && at + |part| <= from
    ensures Carries(LayAll(b, places, from), at, part)
    decreases |places|
  {
    hide Carries, Lay;
    if places != [] {
      LayKeeps(b, places[0], at, part);
      LayAllKeeps(Lay(b, places[0]), places[1..], places[0].0 + |places[0].1|, at, part);
    }
  }

  lemma {:induction false} LayAllCarries(b: seq<byte>, places: seq<Located>, from: nat)
    requires InOrder(places, from, |b|)
    ensures CarriesAll(LayAll(b, places, from), places)
    decreases |places|
  {
    hide Carries, Lay;
    if places != [] {
      var p, end := places[0], places[0].0 + |places[0].1|;
      LayCarries(b, p);
      LayAllKeeps(Lay(b, p), places[1..], end, p.0, p.1);
      LayAllCarries(Lay(b, p), places[1..], end);
      forall k | 0 <= k < |places| ensures Carries(LayAll(b, places, from), places[k].0, places[k].1) {
        if k > 0 {
          assert places[k] == places[1..][k - 1];
        }
      }
    }
  }

  lemma {:induction false} InOrderFrom(places: seq<Located>, from: nat, n: nat, k: nat)
    requires InOrder(places, from, n) && k < |places|
    ensures from <= places[k].0
    decreases |places|
  {
    if k > 0 {
      InOrderFrom(places[1..], places[0].0 + |places[0].1|, n, k - 1);
    }
  }

  // A header written in front does not disturb what lies behind it.
  lemma CarriesBehind(a: seq<byte>, b: seq<byte>, places: seq<Located>, from: nat)
    requires InOrder(places, from, |a|) && CarriesAll(a, places)
    requires from <= |a| == |b| && a[from..] == b[from..]
    ensures CarriesAll(b, places)
  {
    forall k | 0 <= k < |places| ensures Carries(b, places[k].0, places[k].1) {
      var (at, part) := places[k];
      InOrderFrom(places, from, |a|, k);
      assert Carries(a, at, part);
      if part != [] {
        SliceOfSlice(a, from, |a|, at - from, at - from + |part|);
        SliceOfSlice(b, from, |a|, at - from, at - from + |part|);
      }
    }
  }

  // ---------- Taking apart ----------

  // The sections placed so far hold exactly `parts`, and the next one goes to `cursor`.
  predicate Holds(image: seq<byte>, l: Layout, parts: seq<Part>, cursor: nat) {
    Inside(l.sections, |image|) && Extract(image, l.sections) == Present(parts) && l.cursor == cursor
  }

  predicate Placed(image: seq<byte>, r: Result<Layout, LayoutError>, parts: seq<Part>, cursor: nat) {
    r.Ok? && Holds(image, r.value, parts, cursor)
  }

  // The reported sections lie inside the image and slicing there yields the nonempty parts.
  predicate TakenApart(image: seq<byte>, r: Result<seq<Section>, LayoutError>, parts: seq<Part>) {
    r.Ok? && Inside(r.value, |image|) && Extract(image, r.value) == Present(parts)
  }

  lemma HoldsNothing(image: seq<byte>, cursor: nat)
    ensures Holds(image, Layout([], cursor), [], cursor)
  {
  }

  lemma ExtractSnoc(image: seq<byte>, ss: seq<Section>, s: Section)
    requires Inside(ss, |image|) && s.size > 0 && s.End() <= |image|
    ensures Inside(ss + [s], |image|)
    ensures Extract(image, ss + [s]) == Extract(image, ss) + [(s.kind, image[s.offset..s.End()])]
  {
  }

  lemma PresentSnoc(parts: seq<Part>, p: Part)
    ensures Present(parts + [p]) == if p.1 == [] then Present(parts) else Present(parts) + [p]
  {
  }

  // Placing a part where the image carries it: the layout then holds it too.
  lemma PlacePartAt(image: seq<byte>, l: Layout, parts: seq<Part>, kind: Kind, blob: seq<byte>, page: nat,
      cursor: nat, at: nat)
    requires page > 0 && |image| <= U64_MAX && Holds(image, l, parts, cursor) && Carries(image, at, blob)
    requires blob != [] ==> Pages(at + |blob|, page) * page <= U64_MAX
    ensures Placed(image, PlaceAt(l, kind, at, |blob|, page, |image|), parts + [(kind, blob)],
                   if blob == [] then cursor else Pages(at + |blob|, page) * page)
  {
    hide Extract, Present, Inside, Pages, AlignUp;
    PresentSnoc(parts, (kind, blob));
    if blob != [] {
      AlignUpIsPages(at + |blob|, page);
      ExtractSnoc(image, l.sections, Section(kind, at, |blob|));
    }
  }

  // On whole pages.
  lemma PlacePart(image: seq<byte>, l: Layout, parts: seq<Part>, kind: Kind, blob: seq<byte>, page: nat, k: nat)
    requires page > 0 && |image| <= U64_MAX && Holds(image, l, parts, k * page) && Carries(image, k * page, blob)
    requires (k + Pages(|blob|, page)) * page <= U64_MAX
    ensures Placed(image, Place(l, kind, |blob|, page, |image|), parts + [(kind, blob)],
                   (k + Pages(|blob|, page)) * page)
  {
    hide Placed, Holds, Carries, Pages, PlaceAt;
    PagesAdd(k, |blob|, page);
    NoPages(page);
    HoldsCursor(image, l, parts, k * page);
    PlacePartAt(image, l, parts, kind, blob, page, k * page, k * page);
  }

  lemma HoldsCursor(image: seq<byte>, l: Layout, parts: seq<Part>, cursor: nat)
    requires Holds(image, l, parts, cursor)
    ensures l.cursor == cursor
  {
  }

  // The three parts every version lays out in sequence.
  lemma ThreeParts(h: BootHeader, image: seq<byte>, page: nat, kernel: seq<byte>, ramdisk: seq<byte>,
      second: seq<byte>)
    requires |image| <= U64_MAX && ValidHeader(h) && PageOf(h) == Ok(page) && 0 < page <= U32_MAX
    requires h.kernelSize == |kernel| && h.ramdiskSize == |ramdisk| && h.secondSize == |second|
    requires Carries(image, KernelPage(h, page) * page, kernel)
    requires Carries(image, RamdiskPage(h, page) * page, ramdisk)
    requires Carries(image, SecondPage(h, page) * page, second)
    ensures Placed(image, UpToSecond(h, |image|), [(Kernel, kernel), (Ramdisk, ramdisk), (Second, second)],
                   NextPage(h, page) * page)
  {
    hide Carries, Pages, Place, Holds, AlignUp, PageOf, ValidHeader;
    HeaderWords(h);
    SumsFit(h.headerSize, h.kernelSize, h.ramdiskSize, h.secondSize, page);
    AlignUpIsPages(h.headerSize, page);
    var k0, k1, k2 := KernelPage(h, page), RamdiskPage(h, page), SecondPage(h, page);
    var l0 := Layout([], k0 * page);
    HoldsNothing(image, k0 * page);
    PlacePart(image, l0, [], Kernel, kernel, page, k0);
    assert [] + [(Kernel, kernel)] == [(Kernel, kernel)];
    var l1 := Place(l0, Kernel, |kernel|, page, |image|).value;
    PlacePart(image, l1, [(Kernel, kernel)], Ramdisk, ramdisk, page, k1);
    assert [(Kernel, kernel)] + [(Ramdisk, ramdisk)] == [(Kernel, kernel), (Ramdisk, ramdisk)];
    var l2 := Place(l1, Ramdisk, |ramdisk|, page, |image|).value;
    PlacePart(image, l2, [(Kernel, kernel), (Ramdisk, ramdisk)], Second, second, page, k2);
    assert [(Kernel, kernel), (Ramdisk, ramdisk)] + [(Second, second)] == [(Kernel, kernel), (Ramdisk, ramdisk),
        (Second, second)];
  }

  lemma PagesOrder(a: nat, n: nat, page: nat)
    requires page > 0
    ensures a * page + n <= (a + Pages(n, page)) * page < a * page + n + page
  {
    hide Pages;
    PagesCover(n, page);
    Distribute(a, Pages(n, page), page);
  }

  // ---------- Versions 0 to 2 ----------

  datatype LegacyImage = LegacyImage(header: BootHeader, kernel: seq<byte>, ramdisk: seq<byte>, second: seq<byte>,
                                     dtbo: seq<byte>, dtb: seq<byte>) {
    // The header gives the sizes of the parts.
    predicate Valid() {
      && ValidHeader(header) && header.version < 3 && DoubledFrom512(header.pageSize)
      && header.kernelSize == |kernel| && header.ramdiskSize == |ramdisk| && header.secondSize == |second|
      && header.dtboSize == |dtbo| && header.dtbSize == |dtb|
    }

    // The recovery DTBO follows the second stage, or lies further on where the header says. The
    // DTB follows that, or is flush with the end where there is no room for it.
    function DtboAt(n: nat): nat
      requires Valid()
    {
      if dtbo == [] then NextPage(header, header.pageSize) * header.pageSize else DtboPlace(header, n)
    }

    function BehindDtbo(n: nat): nat
      requires Valid()
    {
      if dtbo == [] then DtboAt(n) else Pages(DtboAt(n) + |dtbo|, header.pageSize) * header.pageSize
    }

    function DtbAt(n: nat): nat
      requires Valid()
    {
      if dtb == [] || BehindDtbo(n) + |dtb| <= n then BehindDtbo(n)
      else if |dtb| <= n then n - |dtb|
      else 0
    }

    // Where the parts lie in an image of n bytes.
    function Places(n: nat): (ps: seq<Located>)
      requires Valid()
      ensures |ps| == 5
    {
      var h, page := header, header.pageSize;
      [(KernelPage(h, page) * page, kernel), (RamdiskPage(h, page) * page, ramdisk),
       (SecondPage(h, page) * page, second), (DtboAt(n), dtbo), (DtbAt(n), dtb)]
    }

    function Parts(): seq<Part> {
      [(Kernel, kernel), (Ramdisk, ramdisk), (Second, second), (RecoveryDtbo, dtbo), (Dtb, dtb)]
    }

    // The ends of DTBO and DTB can be rounded up to whole pages in 64 bits.
    predicate Rounds(n: nat)
      requires Valid()
    {
      && BehindDtbo(n) <= U64_MAX
      && (dtb != [] ==> Pages(DtbAt(n) + |dtb|, header.pageSize) * header.pageSize <= U64_MAX)
    }

    // Written over any bytes with room for the parts one behind the other.
    function Bytes(base: seq<byte>): (image: seq<byte>)
      requires Valid() && InOrder(Places(|base|), header.headerSize, |base|) && header.headerSize <= |base|
      ensures |image| == |base|
    {
      EncodeHeader(header, LayAll(base, Places(|base|), header.headerSize))
    }
  }

  lemma LegacyPage(x: LegacyImage)
    requires x.Valid()
    ensures PageOf(x.header) == PageSize(x.header.pageSize) == Ok(x.header.pageSize)
    ensures 512 <= x.header.pageSize <= U32_MAX
  {
    hide IsPowerOfTwo, DoubledFrom512;
    HeaderWords(x.header);
    PageSizeIff(x.header.pageSize);
  }

  // The layout puts DTBO and DTB where they belong.
  lemma LegacyOffsets(x: LegacyImage, n: nat)
    requires x.Valid() && n <= U64_MAX
    ensures var h := x.header;
            && (x.dtbo != [] ==> DtboOffset(h, NextPage(h, h.pageSize) * h.pageSize, n) == x.DtboAt(n))
            && (x.dtb != [] ==> DtbOffset(h, x.BehindDtbo(n), n) == x.DtbAt(n))
  {
    hide NextPage, Pages, DoubledFrom512;
  }

  // In particular wherever all parts fit in sequence.
  lemma SequentialInOrder(x: LegacyImage, n: nat)
    requires x.Valid() && n <= U64_MAX && x.BehindDtbo(n) + |x.dtb| <= n
    ensures x.header.headerSize <= n && InOrder(x.Places(n), x.header.headerSize, n)
    ensures x.DtbAt(n) == x.BehindDtbo(n)
  {
    hide Pages, ValidHeader, DoubledFrom512, InOrder, KernelPage, RamdiskPage, SecondPage, NextPage;
    var h, page := x.header, x.header.pageSize;
    PageIsMultipleOfFour(page);
    SequentialThree(h, page);
    PagesCover(x.DtboAt(n) + |x.dtbo|, page);
    InOrderFive(x.Places(n), h.headerSize, n);
  }

  lemma SequentialThree(h: BootHeader, page: nat)
    requires page > 0
    ensures h.headerSize <= KernelPage(h, page) * page
    ensures KernelPage(h, page) * page + h.kernelSize <= RamdiskPage(h, page) * page
    ensures RamdiskPage(h, page) * page + h.ramdiskSize <= SecondPage(h, page) * page
    ensures SecondPage(h, page) * page + h.secondSize <= NextPage(h, page) * page
  {
    hide Pages;
    PagesCover(h.headerSize, page);
    PagesOrder(KernelPage(h, page), h.kernelSize, page);
    PagesOrder(RamdiskPage(h, page), h.ramdiskSize, page);
    PagesOrder(SecondPage(h, page), h.secondSize, page);
  }

  lemma InOrderFive(ps: seq<Located>, from: nat, n: nat)
    requires |ps| == 5 && from <= ps[0].0
    requires ps[0].0 + |ps[0].1| <= ps[1].0 && ps[1].0 + |ps[1].1| <= ps[2].0
    requires ps[2].0 + |ps[2].1| <= ps[3].0 && ps[3].0 + |ps[3].1| <= ps[4].0
    requires ps[4].0 + |ps[4].1| <= n
    ensures InOrder(ps, from, n)
  {
    assert ps[1..][1..] == ps[2..] && ps[2..][1..] == ps[3..] && ps[3..][1..] == ps[4..] && ps[4..][1..] == [];
    assert InOrder(ps[4..], ps[3].0 + |ps[3].1|, n);
    assert InOrder(ps[3..], ps[2].0 + |ps[2].1|, n);
    assert InOrder(ps[2..], ps[1].0 + |ps[1].1|, n);
    assert InOrder(ps[1..], ps[0].0 + |ps[0].1|, n);
  }

  lemma DtboPart(x: LegacyImage, image: seq<byte>, parts: seq<Part>)
    requires x.Valid() && |image| <= U64_MAX && x.Rounds(|image|)
    requires Placed(image, UpToSecond(x.header, |image|), parts,
                    NextPage(x.header, x.header.pageSize) * x.header.pageSize)
    requires Carries(image, x.DtboAt(|image|), x.dtbo)
    ensures Placed(image, UpToDtbo(x.header, |image|), parts + [(RecoveryDtbo, x.dtbo)], x.BehindDtbo(|image|))
  {
    hide Carries, Pages, UpToSecond, PlaceAt, Extract, Present, Inside, NextPage, ValidHeader, PageSize,
        DoubledFrom512, DtboOffset, DtboPlace;
    HeaderWords(x.header);
    LegacyPage(x);
    LegacyOffsets(x, |image|);
    var h, page := x.header, x.header.pageSize;
    var cursor := NextPage(h, page) * page;
    var at := DtboOffset(h, cursor, |image|);
    CarriesNothing(image, at);
    PlacePartAt(image, UpToSecond(h, |image|).value, parts, RecoveryDtbo, x.dtbo, page, cursor, at);
  }

  lemma DtbPart(x: LegacyImage, image: seq<byte>, parts: seq<Part>)
    requires x.Valid() && |image| <= U64_MAX && x.Rounds(|image|)
    requires Placed(image, UpToDtbo(x.header, |image|), parts, x.BehindDtbo(|image|))
    requires Carries(image, x.DtbAt(|image|), x.dtb)
    ensures TakenApart(image, BootSections(x.header, |image|), parts + [(Dtb, x.dtb)])
  {
    hide Carries, Pages, UpToDtbo, PlaceAt, Extract, Present, Inside, ValidHeader, PageSize, DoubledFrom512,
        DtbOffset, LegacyImage.BehindDtbo, LegacyImage.DtbAt;
    HeaderWords(x.header);
    LegacyPage(x);
    LegacyOffsets(x, |image|);
    var h, page, n := x.header, x.header.pageSize, |image|;
    var at := DtbOffset(h, x.BehindDtbo(n), n);
    CarriesNothing(image, at);
    PlacePartAt(image, UpToDtbo(h, n).value, parts, Dtb, x.dtb, page, x.BehindDtbo(n), at);
  }

  // Slicing any version 0 to 2 image at its reported sections yields its parts: where the places
  // are, the sections are, whatever the rest of the image holds.
  lemma LegacyTakenApart(x: LegacyImage, image: seq<byte>)
    requires x.Valid() && |image| <= U64_MAX && x.Rounds(|image|) && CarriesAll(image, x.Places(|image|))
    ensures TakenApart(image, BootSections(x.header, |image|), x.Parts())
  {
    hide UpToDtbo, UpToSecond, TakenApart, Placed, Carries, ValidHeader, PageSize, DoubledFrom512, BootSections,
        LegacyImage.DtboAt, LegacyImage.DtbAt, LegacyImage.BehindDtbo, LegacyImage.Rounds;
    var h, page, ps := x.header, x.header.pageSize, x.Places(|image|);
    HeaderWords(h);
    LegacyPage(x);
    assert Carries(image, ps[0].0, ps[0].1) && Carries(image, ps[1].0, ps[1].1) && Carries(image, ps[2].0, ps[2].1);
    assert Carries(image, ps[3].0, ps[3].1) && Carries(image, ps[4].0, ps[4].1);
    ThreeParts(h, image, page, x.kernel, x.ramdisk, x.second);
    var parts := [(Kernel, x.kernel), (Ramdisk, x.ramdisk), (Second, x.second)];
    DtboPart(x, image, parts);
    DtbPart(x, image, parts + [(RecoveryDtbo, x.dtbo)]);
    assert parts + [(RecoveryDtbo, x.dtbo)] + [(Dtb, x.dtb)] == x.Parts();
  }

  // Writing a version 0 to 2 image over any bytes and taking it apart again: the header parses,
  // and the sections yield every nonempty part in order.
  lemma LegacyRoundTrip(x: LegacyImage, base: seq<byte>)
    requires x.Valid() && InOrder(x.Places(|base|), x.header.headerSize, |base|)
    requires x.header.headerSize <= |base| <= U64_MAX && x.Rounds(|base|)
    ensures ParseBootHeader(x.Bytes(base)) == Ok(x.header)
    ensures TakenApart(x.Bytes(base), BootSections(x.header, |base|), x.Parts())
  {
    hide ParseBootHeader, BootSections, TakenApart, ValidHeader, DoubledFrom512, EncodeHeader, InOrder, LayAll,
        CarriesAll, LegacyImage.Places, LegacyImage.Rounds;
    var h, places := x.header, x.Places(|base|);
    var laid := LayAll(base, places, h.headerSize);
    HeaderWords(h);
    LayAllCarries(base, places, h.headerSize);
    HeaderRoundTrip(h, laid);
    EncodeHeaderKeeps(h, laid, h.headerSize);
    CarriesBehind(laid, x.Bytes(base), places, h.headerSize);
    LegacyTakenApart(x, x.Bytes(base));
  }

  // ---------- Versions 3 and 4 ----------

  // Kernel and ramdisk on pages of 4096; whatever lies between them and the signature at the
  // very end is bootconfig.
  datatype ModernImage = ModernImage(header: BootHeader, kernel: seq<byte>, ramdisk: seq<byte>,
                                     bootconfig: seq<byte>, signature: seq<byte>) {
    predicate Valid() {
      && ValidHeader(header) && header.version >= 3
      && header.kernelSize == |kernel| && header.ramdiskSize == |ramdisk| && header.signatureSize == |signature|
    }

    function TailAt(): nat {
      SecondPage(header, 4096) * 4096
    }

    function Size(): nat {
      TailAt() + |bootconfig| + |signature|
    }

    function Places(): (ps: seq<Located>)
      ensures |ps| == 4
    {
      [(KernelPage(header, 4096) * 4096, kernel), (RamdiskPage(header, 4096) * 4096, ramdisk),
       (TailAt(), bootconfig), (TailAt() + |bootconfig|, signature)]
    }

    function Parts(): seq<Part> {
      [(Kernel, kernel), (Ramdisk, ramdisk), (Bootconfig, bootconfig), (Signature, signature)]
    }

    // An image carries the parts: kernel and ramdisk on their pages, the signature flush with the
    // end, and as bootconfig what is between, if anything.
    predicate In(image: seq<byte>) {
      && Carries(image, KernelPage(header, 4096) * 4096, kernel)
      && Carries(image, RamdiskPage(header, 4096) * 4096, ramdisk)
      && |signature| <= |image| && image[|image| - |signature|..] == signature
      && bootconfig == if TailAt() < |image| - |signature| then image[TailAt()..|image| - |signature|] else []
    }

    function Bytes(base: seq<byte>): (image: seq<byte>)
      requires Valid() && |base| == Size()
      ensures |image| == |base|
    {
      ModernInOrder(this);
      EncodeHeader(header, LayAll(base, Places(), header.headerSize))
    }
  }

  lemma ModernInOrder(x: ModernImage)
    requires x.Valid()
    ensures BootHeaderSize(x.header.version) <= x.header.headerSize <= x.Size()
    ensures InOrder(x.Places(), x.header.headerSize, x.Size())
  {
    hide ValidHeader, InOrder, KernelPage, RamdiskPage, SecondPage;
    var h := x.header;
    HeaderWords(h);
    SequentialThree(h, 4096);
    InOrderFour(x.Places(), h.headerSize, x.Size());
  }

  lemma InOrderFour(ps: seq<Located>, from: nat, n: nat)
    requires |ps| == 4 && from <= ps[0].0
    requires ps[0].0 + |ps[0].1| <= ps[1].0 && ps[1].0 + |ps[1].1| <= ps[2].0 && ps[2].0 + |ps[2].1| <= ps[3].0
    requires ps[3].0 + |ps[3].1| <= n
    ensures InOrder(ps, from, n)
  {
    assert ps[1..][1..] == ps[2..] && ps[2..][1..] == ps[3..] && ps[3..][1..] == [];
    assert InOrder(ps[3..], ps[2].0 + |ps[2].1|, n);
    assert InOrder(ps[2..], ps[1].0 + |ps[1].1|, n);
    assert InOrder(ps[1..], ps[0].0 + |ps[0].1|, n);
  }

  lemma TailPart(image: seq<byte>, ss: seq<Section>, parts: seq<Part>, kind: Kind, at: nat, blob: seq<byte>)
    requires Inside(ss, |image|) && Extract(image, ss) == Present(parts)
    requires blob != [] ==> at + |blob| <= |image| && image[at..at + |blob|] == blob
    ensures var ss1 := if blob == [] then ss else ss + [Section(kind, at, |blob|)];
            Inside(ss1, |image|) && Extract(image, ss1) == Present(parts + [(kind, blob)])
  {
    hide Inside, Extract, Present;
    PresentSnoc(parts, (kind, blob));
    if blob != [] {
      ExtractSnoc(image, ss, Section(kind, at, |blob|));
    }
  }

  // The end of the image: bootconfig from the cursor on, then the signature.
  lemma TailParts(x: ModernImage, image: seq<byte>, l: Layout, parts: seq<Part>)
    requires x.In(image) && Holds(image, l, parts, x.TailAt())
    ensures TakenApart(image, PlaceTail(l, |x.signature|, |image|),
                       parts + [(Bootconfig, x.bootconfig)] + [(Signature, x.signature)])
  {
    hide Inside, Extract, Present, Carries, KernelPage, RamdiskPage, SecondPage;
    var tail := |image| - |x.signature|;
    TailPart(image, l.sections, parts, Bootconfig, l.cursor, x.bootconfig);
    var ss := if x.bootconfig == [] then l.sections else l.sections + [Section(Bootconfig, l.cursor, |x.bootconfig|)];
    TailPart(image, ss, parts + [(Bootconfig, x.bootconfig)], Signature, tail, x.signature);
  }

  lemma ModernUpToDtb(h: BootHeader, sourceSize: nat)
    requires ValidHeader(h) && h.version >= 3
    ensures UpToDtb(h, sourceSize) == UpToSecond(h, sourceSize) && h.secondSize == 0 && PageOf(h) == Ok(4096)
    ensures NextPage(h, 4096) == SecondPage(h, 4096)
  {
  }

  lemma PresentThree(a: Part, b: Part, kind: Kind)
    ensures Present([a, b, (kind, [])]) == Present([a, b])
  {
    assert [a, b, (kind, [])] == [a, b] + [(kind, [])];
    PresentSnoc([a, b], (kind, []));
  }

  // Any version 3 or 4 image.
  lemma ModernTakenApart(x: ModernImage, image: seq<byte>)
    requires x.Valid() && |image| <= U64_MAX && x.In(image)
    ensures TakenApart(image, BootSections(x.header, |image|), x.Parts())
  {
    hide UpToDtb, UpToSecond, Extract, Present, Inside, TakenApart, Carries, KernelPage, RamdiskPage, SecondPage,
        NextPage, PageOf, ValidHeader, PlaceTail;
    var h := x.header;
    CarriesNothing(image, SecondPage(h, 4096) * 4096);
    ModernUpToDtb(h, |image|);
    ThreeParts(h, image, 4096, x.kernel, x.ramdisk, []);
    PresentThree((Kernel, x.kernel), (Ramdisk, x.ramdisk), Second);
    var parts := [(Kernel, x.kernel), (Ramdisk, x.ramdisk)];
    TailParts(x, image, UpToSecond(h, |image|).value, parts);
    assert parts + [(Bootconfig, x.bootconfig)] + [(Signature, x.signature)] == x.Parts();
  }

  lemma ModernWritten(x: ModernImage, image: seq<byte>)
    requires |image| == x.Size() && CarriesAll(image, x.Places())
    ensures x.In(image)
  {
    hide KernelPage, RamdiskPage, SecondPage;
    var ps := x.Places();
    assert Carries(image, ps[0].0, ps[0].1) && Carries(image, ps[1].0, ps[1].1);
    assert Carries(image, ps[2].0, ps[2].1) && Carries(image, ps[3].0, ps[3].1);
  }

  // Writing a version 3 or 4 image over any bytes and taking it apart again.
  lemma ModernRoundTrip(x: ModernImage, base: seq<byte>)
    requires x.Valid() && |base| == x.Size() <= U64_MAX
    ensures ParseBootHeader(x.Bytes(base)) == Ok(x.header)
    ensures TakenApart(x.Bytes(base), BootSections(x.header, |base|), x.Parts())
  {
    hide ParseBootHeader, BootSections, TakenApart, ValidHeader, EncodeHeader, InOrder, LayAll, CarriesAll,
        ModernImage.Places, ModernImage.In, ModernImage.Size;
    ModernInOrder(x);
    var h, places := x.header, x.Places();
    var laid := LayAll(base, places, h.headerSize);
    HeaderWords(h);
    LayAllCarries(base, places, h.headerSize);
    HeaderRoundTrip(h, laid);
    EncodeHeaderKeeps(h, laid, h.headerSize);
    CarriesBehind(laid, x.Bytes(base), places, h.headerSize);
    ModernWritten(x, x.Bytes(base));
    ModernTakenApart(x, x.Bytes(base));
  }

  // ---------- Vendor boot ----------

  // The table of ramdisks ends on a multiple of four, not of the page.
  datatype VendorImage = VendorImage(header: VendorBootHeader, ramdisk: seq<byte>, dtb: seq<byte>,
                                     table: seq<byte>, bootconfig: seq<byte>) {
    predicate Valid() {
      && ValidVendorHeader(header) && DoubledFrom512(header.pageSize)
      && header.headerSize >= VendorHeaderSize(header.version)
      && header.vendorRamdiskSize == |ramdisk| && header.dtbSize == |dtb|
      && header.tableSize == |table| && header.bootconfigSize == |bootconfig|
    }

    function RamdiskPage(): nat
      requires Valid()
    {
      Pages(header.headerSize, header.pageSize)
    }

    function DtbPage(): nat
      requires Valid()
    {
      RamdiskPage() + Pages(|ramdisk|, header.pageSize)
    }

    function TableAt(): nat
      requires Valid()
    {
      (DtbPage() + Pages(|dtb|, header.pageSize)) * header.pageSize
    }

    function BootconfigAt(): nat
      requires Valid()
    {
      TableAt() + Pages(|table|, 4) * 4
    }

    function Places(): (ps: seq<Located>)
      requires Valid()
      ensures |ps| == 4
    {
      [(RamdiskPage() * header.pageSize, ramdisk), (DtbPage() * header.pageSize, dtb), (TableAt(), table),
       (BootconfigAt(), bootconfig)]
    }

    function Parts(): seq<Part> {
      [(VendorRamdisk, ramdisk), (VendorDtb, dtb), (VendorRamdiskTable, table), (Bootconfig, bootconfig)]
    }

    function Bytes(base: seq<byte>): (image: seq<byte>)
      requires Valid() && |base| >= BootconfigAt() + |bootconfig|
      ensures |image| == |base|
    {
      VendorInOrder(this, |base|);
      EncodeVendorHeader(header, LayAll(base, Places(), header.headerSize))
    }

    function Sections(n: nat): Result<seq<Section>, LayoutError> {
      VendorSections(header.version, header.headerSize, header.pageSize, header.vendorRamdiskSize, header.dtbSize,
                     header.tableSize, header.bootconfigSize, n)
    }
  }

  lemma VendorInOrder(x: VendorImage, n: nat)
    requires x.Valid() && n >= x.BootconfigAt() + |x.bootconfig|
    ensures x.header.headerSize <= n && InOrder(x.Places(), x.header.headerSize, n)
  {
    hide Pages, ValidVendorHeader, DoubledFrom512;
    var h, page := x.header, x.header.pageSize;
    PageIsMultipleOfFour(page);
    PagesCover(h.headerSize, page);
    PagesOrder(x.RamdiskPage(), |x.ramdisk|, page);
    PagesOrder(x.DtbPage(), |x.dtb|, page);
    PagesCover(|x.table|, 4);
    InOrderFour(x.Places(), h.headerSize, n);
  }

  lemma VendorWords(x: VendorImage)
    requires x.Valid()
    ensures 0 < x.header.pageSize <= U32_MAX && x.header.headerSize <= U32_MAX
    ensures |x.ramdisk| <= U32_MAX && |x.dtb| <= U32_MAX && |x.table| <= U32_MAX
  {
    hide DoubledFrom512;
    PageIsMultipleOfFour(x.header.pageSize);
  }

  // Ramdisk and DTB on whole pages.
  lemma VendorTwoParts(x: VendorImage, image: seq<byte>)
    requires x.Valid() && |image| <= U64_MAX && CarriesAll(image, x.Places())
    ensures Align(x.header.headerSize, x.header.pageSize) == Ok(x.RamdiskPage() * x.header.pageSize)
    ensures var page, n := x.header.pageSize, |image|;
            var l0 := Layout([], x.RamdiskPage() * page);
            var r1 := Place(l0, VendorRamdisk, |x.ramdisk|, page, n);
            && r1.Ok?
            && Placed(image, Place(r1.value, VendorDtb, |x.dtb|, page, n),
                      [(VendorRamdisk, x.ramdisk), (VendorDtb, x.dtb)], x.TableAt())
            && x.TableAt() + Pages(|x.table|, 4) * 4 <= U64_MAX
  {
    hide Pages, Carries, Place, Holds, AlignUp, ValidVendorHeader, DoubledFrom512;
    var h, page, ps := x.header, x.header.pageSize, x.Places();
    PageIsMultipleOfFour(page);
    var k0, k1 := x.RamdiskPage(), x.DtbPage();
    VendorWords(x);
    SumsFit(h.headerSize, |x.ramdisk|, |x.dtb|, 0, page);
    NoPages(page);
    PagesCover(|x.table|, 4);
    AlignUpIsPages(h.headerSize, page);
    assert Carries(image, ps[0].0, ps[0].1) && Carries(image, ps[1].0, ps[1].1);
    var l0 := Layout([], k0 * page);
    HoldsNothing(image, k0 * page);
    PlacePart(image, l0, [], VendorRamdisk, x.ramdisk, page, k0);
    assert [] + [(VendorRamdisk, x.ramdisk)] == [(VendorRamdisk, x.ramdisk)];
    var l1 := Place(l0, VendorRamdisk, |x.ramdisk|, page, |image|).value;
    PlacePart(image, l1, [(VendorRamdisk, x.ramdisk)], VendorDtb, x.dtb, page, k1);
    assert [(VendorRamdisk, x.ramdisk)] + [(VendorDtb, x.dtb)] == [(VendorRamdisk, x.ramdisk), (VendorDtb, x.dtb)];
  }

  // The table, rounded up to four.
  lemma TablePart(x: VendorImage, image: seq<byte>, l: Layout, parts: seq<Part>)
    requires x.Valid() && |image| <= U64_MAX && Holds(image, l, parts, x.TableAt())
    requires Carries(image, x.TableAt(), x.table) && x.TableAt() + Pages(|x.table|, 4) * 4 <= U64_MAX
    ensures Placed(image, Place(l, VendorRamdiskTable, |x.table|, 4, |image|), parts + [(VendorRamdiskTable, x.table)],
                   x.BootconfigAt())
  {
    hide Pages, Carries, Place, Holds, ValidVendorHeader, DoubledFrom512;
    PageIsMultipleOfFour(x.header.pageSize);
    var page, k := x.header.pageSize, x.DtbPage() + Pages(|x.dtb|, x.header.pageSize);
    PagesInFours(k, page);
    Distribute(k * (page / 4), Pages(|x.table|, 4), 4);
    PlacePart(image, l, parts, VendorRamdiskTable, x.table, 4, k * (page / 4));
  }

  // Any vendor boot image.
  lemma VendorTakenApart(x: VendorImage, image: seq<byte>)
    requires x.Valid() && |image| <= U64_MAX && CarriesAll(image, x.Places())
    ensures TakenApart(image, x.Sections(|image|), x.Parts())
  {
    hide Pages, Place, PageSize, Align, Extract, Present, Inside, ValidVendorHeader, DoubledFrom512,
        VendorImage.TableAt, VendorImage.BootconfigAt, VendorImage.RamdiskPage, VendorImage.DtbPage;
    var h, page, n, ps := x.header, x.header.pageSize, |image|, x.Places();
    PageSizeIff(page);
    assert Carries(image, ps[2].0, ps[2].1) && Carries(image, ps[3].0, ps[3].1);
    VendorTwoParts(x, image);
    var l0 := Layout([], x.RamdiskPage() * page);
    var l1 := Place(l0, VendorRamdisk, |x.ramdisk|, page, n).value;
    var l2 := Place(l1, VendorDtb, |x.dtb|, page, n).value;
    var two := [(VendorRamdisk, x.ramdisk), (VendorDtb, x.dtb)];
    TablePart(x, image, l2, two);
    var l3 := Place(l2, VendorRamdiskTable, |x.table|, 4, n).value;
    TailPart(image, l3.sections, two + [(VendorRamdiskTable, x.table)], Bootconfig, l3.cursor, x.bootconfig);
    assert two + [(VendorRamdiskTable, x.table)] + [(Bootconfig, x.bootconfig)] == x.Parts();
  }

  // Writing a vendor boot image over any bytes and taking it apart again.
  lemma VendorRoundTrip(x: VendorImage, base: seq<byte>)
    requires x.Valid() && x.BootconfigAt() + |x.bootconfig| <= |base| <= U64_MAX
    ensures ParseVendorBootHeader(x.Bytes(base)) == Ok(x.header)
    ensures TakenApart(x.Bytes(base), x.Sections(|base|), x.Parts())
  {
    hide ParseVendorBootHeader, TakenApart, DoubledFrom512, EncodeVendorHeader, InOrder, LayAll,
        CarriesAll, VendorImage.Places, VendorImage.Sections, VendorImage.BootconfigAt;
    VendorInOrder(x, |base|);
    var h, places := x.header, x.Places();
    var laid := LayAll(base, places, h.headerSize);
    LayAllCarries(base, places, h.headerSize);
    VendorHeaderRoundTrip(h, laid);
    EncodeVendorHeaderKeeps(h, laid, h.headerSize);
    CarriesBehind(laid, x.Bytes(base), places, h.headerSize);
    VendorTakenApart(x, x.Bytes(base));
  }
}
