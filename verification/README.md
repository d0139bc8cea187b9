# ImgTools native engine: a verified model

This project models the Rust engine of ImgTools (`native/src`) in Dafny and proves what its
formats promise: the LZ4 block codec, CRC-32, range sources, the ZIP/ZIP64 directory reader and
the layout of Android boot images. `dafny verify dfyconfig.toml` checks all of it.

## How the model is built

- **Bytes.** A byte is an integer below 256, a read-only slice is a `seq<byte>`, a slice that is
  written is an `array<byte>`. Cursors and lengths are unbounded naturals standing for a 64-bit
  `usize`; `Lz4Bounds.CursorSumsFit` bounds the decoder's unchecked sums. Places where the source
  truncates or checks for overflow (the `u32` hash positions, `checked_add`, window offsets) say so.
- **Code that works step by step** is a method over arrays or local state (decoder, compressor, match
  finder, CRC loop, descriptor read, end-record scan, extra-field walk, directory walk, section
  layout). Each is proved equal to a function, and the theorems are about that function.
- **LZ4.** `Lz4Format` gives blocks an abstract form (sequences), a grammar, an encoding and a meaning.
  `Lz4Decoder` refines the meaning; `Lz4Plan` states the compressor's decisions, `Lz4Encoder` writes
  them into a bounded buffer; `Lz4Bounds` and `Lz4Index` hold the facts about all blocks and all runs,
  `Lz4Deferral` what lazy matching comes to.
- **Numbers.** What a format fixes (distances, signatures, header sizes, the polynomial, limits) is written
  out in the statements as numbers or bytes, and `Lz4Examples`, `Crc32Values`, `ZipBytes` and `ZipExamples`
  tie the functions to concrete bytes.
- **CRC-32.** A `u32` register is its 32 bits, least significant first, because its theorems are about
  bits entering the register one at a time.
- **Sources.** A source is a declared size and a read function; a descriptor read also consumes a
  schedule of what the kernel does (interrupts, failures, partial transfers).
- **Containers.** Each reader has a writer beside it, so that reading back is a theorem over all inputs.
  A writer puts only the fields its reader looks at, over arbitrary bytes: names, command lines, ids,
  times, flags, attributes and padding are whatever those bytes are.

## Where code and expectation differ

- The comment on lazy matching (`native/src/imageforge_core.rs:301-302`) says a longer match one byte
  later is worth emitting a literal for. The code does not emit that match at the next turn: its position
  has just been inserted, so it is its own chain head and the search stops at once
  (`Lz4Deferral.DeferralEmptiesNextTurn`). The turn after that can find what is left of the match and extend
  it backwards, which restores it whole (`DeferredTakenWhole`). `DeferredTakenIff` says exactly when it does,
  `DeferredTakenInRun` says so in terms of the text. `RecoveredRun` and `LostRun` are two runs whose inputs
  differ by one byte at the end: one takes the deferred match, the other emits no match at all.
- A ZIP64 extra field that is too short for the sentinels is not rejected when more extra data follows:
  the values are read across the field's end (`ZipTheory.OverrunExample`). `ZipTheory.ConfinedIffLongEnough`
  says exactly when the reader stays inside the field.
- Boot sections can overlap. `BootTheory.LegacyDisjointIff` and `BootTheory.ModernDisjointIff` give the
  exact condition in header fields and image size, `BootTheory.DtbOverlapExample` and
  `BootTheory.SignatureOverlapExample` images for which they do.
- A window shorter than 65535 bytes is not enough for every block (`Lz4Bounds.WindowTooShort`), so the
  caller's "at most 64 KiB" must also be "at least 65535 bytes, or everything decoded so far".
- An end record signature inside an archive comment is taken for the end record, because the scan runs
  backwards and does not check the comment length. `ZipArchive.OwnRecordIff` says exactly when the
  archive's own record is read: when no signature behind it has 22 bytes of room, so one in the last 21
  bytes of the comment is harmless. `ZipArchive.CommentRecordIsRead` gives what is read when the comment is
  itself an end record, and `ZipArchive.CommentHidesMembers` and `ZipArchive.CommentExample` show members
  disappear.

## Model

| member | source | states |
|---|---|---|
| Lz4Format.ParseEncode | native/src/imageforge_core.rs:96-165 | Every valid list of sequences is the reading of its own encoding: length codes, tokens and offsets are uniquely decodable. |
| Lz4Format.EncodeParse | native/src/imageforge_core.rs:96-165 | Every byte string the grammar accepts is the encoding of what was read, so accepted strings and valid blocks correspond one to one. |
| Lz4Format.SequenceBytes | native/src/imageforge_core.rs:331-360 | The bytes of a full sequence: token, further literal length, literals, little-endian offset, further match length. |
| Lz4Format.LastSequenceBytes | native/src/imageforge_core.rs:376-390 | The bytes of the last sequence: token, further literal length, literals. |
| Lz4Format.ExtensionBytes | native/src/imageforge_core.rs:189-203 | A further length v is v / 255 bytes 255 and one byte v % 255. |
| Lz4Format.CopyMatchPeriodic | native/src/imageforge_core.rs:157-161 | After a copy, overlapping or not, every new byte equals the one `offset` places before it. |
| Lz4Format.CopyMatchUnique | native/src/imageforge_core.rs:157-161 | No other extension of the window has that property. |
| Lz4Decoder.TakeLength | native/src/imageforge_core.rs:104-117 | The length loop returns exactly the value and the rest that the length grammar defines, and fails exactly when the input ends first. |
| Lz4Decoder.CopyOverlapping | native/src/imageforge_core.rs:157-161 | The in-place byte loop computes the copy's meaning and touches nothing behind it. |
| Lz4Decoder.DecompressBlockWithPrefix | native/src/imageforge_core.rs:96-165 | Succeeds exactly when the block parses, every offset is in range and the text fits; the buffer then holds window and text, the prefix and everything behind are unchanged. |
| Lz4Bounds.WindowLocality | native/src/imageforge_core.rs:70-72 | Decoding after any text gives the same bytes, or the same failure, as decoding after its last 65535 bytes. |
| Lz4Bounds.WindowedStream | native/src/imageforge_core.rs:70-90 | A whole stream of dependent blocks decodes the same with only the last w >= 65535 bytes as each block's prefix as with everything before in reach. |
| Lz4Bounds.WindowTooShort | native/src/imageforge_core.rs:70-72 | For every shorter window there is a block that decodes after the whole text and not after the window. |
| Lz4Bounds.Expansion | native/src/imageforge_core.rs:61-65 | Decoded text is at most 255 times the block, hence within the advertised saturating bound. |
| Lz4Bounds.FailureMeansMalformed | native/src/imageforge_core.rs:67-72 | With 255 bytes of room per input byte a failure is a failure at every capacity; success at one capacity is the same success at every larger one. |
| Lz4Bounds.CursorSumsFit | native/src/imageforge_core.rs:119-153 | The two unchecked cursor sums stay below 256 input lengths plus the buffer. |
| Lz4Matcher.FindMatch | native/src/imageforge_core.rs:239-278 | With its pre-filter, and whatever the chain holds, the search returns what comparing every visited candidate in full returns. |
| Lz4Matcher.LongestOfIsFirstLongest | native/src/imageforge_core.rs:264-267 | What is found is a visited candidate with a match longer than every earlier one's and at least as long as every later one's; nothing is found only if none matches. |
| Lz4Matcher.FoundIffFirstLongest | native/src/imageforge_core.rs:264-276 | A candidate is found exactly if it is that first longest one. |
| Lz4Matcher.MatchLengthMaximal | native/src/imageforge_core.rs:259-263 | A candidate matches exactly if four bytes agree, and its match goes on until the bytes differ or the limit is reached. |
| Lz4Matcher.InsertPosition | native/src/imageforge_core.rs:231-235 | The tables change exactly as one insertion says: one chain slot, one head, positions truncated to 32 bits. |
| Lz4Matcher.HashExamples | native/src/imageforge_core.rs:181-183 | The hashes of 1 and of 2^16, which are the halves of the multiplier. |
| Lz4Plan.BackwardsMaximal | native/src/imageforge_core.rs:320-329 | A match is extended backwards over equal bytes at the same offset, never into emitted text, and as far as that goes. |
| Lz4Plan.PlanTiles | native/src/imageforge_core.rs:293-374 | From any state with any tables, the emitted sequences tile the rest of the input in order; every match repeats real text at an offset in 1..65535, has at least 4 bytes, starts at least 12 bytes before the end and ends at least 5 before it, and goes on until the bytes differ or just 5 are left. |
| Lz4Plan.PlanEnds | native/src/imageforge_core.rs:376-390 | Exactly the last sequence is literals alone, with an empty match nibble. |
| Lz4Plan.EndOfBlock | native/src/imageforge_core.rs:291-293 | The last sequence is literals alone, at least five unless the whole input is shorter, and inputs below 13 bytes give one sequence (LZ4 Block Format Description, end of block conditions). |
| Lz4Plan.TilesMean | native/src/imageforge_core.rs:318-371 | Sequences that tile a text mean that text. |
| Lz4Plan.CompressedSize | native/src/imageforge_core.rs:331-392 | A compressed block has at most n + n/255 + 2 bytes, and is empty only for an empty input. |
| Lz4Encoder.WriteLength | native/src/imageforge_core.rs:189-203 | Appends exactly the length's encoding, or fails exactly for lack of room. |
| Lz4Encoder.WriteMatch | native/src/imageforge_core.rs:331-360 | Appends exactly the sequence's encoding (the offset fits its 16 bits) and touches nothing behind it, or fails exactly for lack of room. |
| Lz4Encoder.CompressBlock | native/src/imageforge_core.rs:280-393 | One capacity-independent block: the call writes it at every capacity that holds it and fails at every smaller one; n + n/255 + 2 bytes always suffice; what is written restores the input. The loop invariant ties the live hash tables to the text read. |
| Lz4Encoder.RoundTrip | native/src/imageforge_core.rs:205-220 | Decoding a compressed block after any window, at any capacity, yields window and input if both fit and fails otherwise. |
| Lz4Examples.RunCompresses | native/src/imageforge_core.rs:280-393 | Any n >= 13 equal bytes become one literal, a match of n - 6 bytes at offset 1, cut five bytes before the end, and five literals. |
| Lz4Examples.ShortIsStored | native/src/imageforge_core.rs:291-390 | One to twelve bytes become a token and themselves. |
| Lz4Examples.TwentyLetters | native/src/imageforge_core.rs:280-393 | The ten bytes that twenty letters a compress to, and that these decode back. |
| Lz4Index.AlwaysIndexed | native/src/imageforge_core.rs:286-308 | At every head of the outer loop of every run below 4 GiB the inserted positions are exactly those below i, and i too exactly after a deferral; each hash head is the last of them with that hash, each reachable chain slot links its owner to the one before it (or to itself), unowned slots are untouched. |
| Lz4Index.IndexedOnce | native/src/imageforge_core.rs:231-235 | The tables determine which positions are inserted. |
| Lz4Index.InsertRangeIndexed | native/src/imageforge_core.rs:362-368 | Inserting the positions inside a match keeps that, also when the first was already inserted by the lazy probe. |
| Lz4Index.SearchSkipsNothing | native/src/imageforge_core.rs:251-271 | The candidates a search visits are the latest earlier positions of the same hash in non-increasing order, none skipped, at most 128; fewer than 128 are all there are at most 65535 back. |
| Lz4Index.SearchFindsLongest | native/src/imageforge_core.rs:239-299 | Unless it makes all 128 attempts, a search at a fresh position finds the longest match in the whole window, and the nearest of those, or finds nothing because there is none. |
| Lz4Deferral.DeferralEmptiesNextTurn | native/src/imageforge_core.rs:301-316 | After a deferral the next turn emits nothing and moves on by one, whatever the tables hold. |
| Lz4Deferral.SelfLinkHoldsWalk | native/src/imageforge_core.rs:251-271 | A position inserted twice is its own predecessor: every walk that reaches it spends all its attempts there. |
| Lz4Deferral.DeferredTakenIff | native/src/imageforge_core.rs:293-329 | The turn after that emits at the deferred match's offset exactly if 12 bytes are left there, the search visits the position one byte into the deferred match with no better one before or behind it, and the turn does not defer again. |
| Lz4Deferral.DeferredTakenWhole | native/src/imageforge_core.rs:318-371 | It then covers the deferred match whole: backward extension takes back the byte that was put off. |
| Lz4Deferral.DeferralFindsAgain | native/src/imageforge_core.rs:293-316 | In a run the turn at i + 2 finds a match at most one byte shorter than the deferred one, unless its search makes all 128 attempts. |
| Lz4Deferral.DefersInRun | native/src/imageforge_core.rs:301-316 | Without crowded chains a turn defers exactly if the text has a longer match one byte later, the found one is below 128 bytes and 13 bytes are left. |
| Lz4Deferral.DeferredTakenInRun | native/src/imageforge_core.rs:293-329 | Then the deferred match is taken exactly if what is left of it is the nearest of the longest matches at i + 2 and no longer one waits at i + 3. |
| Lz4Deferral.RecoveredRun | native/src/imageforge_core.rs:280-393 | A whole run on 23 bytes that defers and then takes the deferred match. |
| Lz4Deferral.LostRun | native/src/imageforge_core.rs:280-393 | The same input cut by one byte defers too, and the run ends without a match. |
| Crc32.Crc32 | native/src/imageforge_core.rs:46-59 | The masked bit loop computes the checksum. |
| Crc32.PolynomialTerms | native/src/imageforge_core.rs:55 | The constant is the polynomial x^32 + x^26 + x^23 + x^22 + x^16 + x^12 + x^11 + x^10 + x^8 + x^7 + x^5 + x^4 + x^2 + x + 1. |
| Crc32.FeedIsBitSerial | native/src/imageforge_core.rs:51-57 | Combining a byte and stepping eight times is feeding its bits one at a time, least significant first. |
| Crc32.TableUpdate | native/src/imageforge_core.rs:51-57 | Each byte acts as in the table-driven algorithm of section 8 of RFC 1952. |
| Crc32Values.TableNumbers | native/src/imageforge_core.rs:51-57 | Entries 1 and 128 of its table are 0x77073096 and 0xedb88320. |
| Crc32Values.CheckValues | native/src/imageforge_core.rs:46-59 | Four bytes 0xff have the checksum 0xffffffff, followed by 0x80 they have 0x12477cdf. |
| Crc32.BitStepBijective | native/src/imageforge_core.rs:53-56 | A bit step can be undone, from either side. |
| Crc32.ChecksumAffine | native/src/imageforge_core.rs:48-59 | The checksum of the exclusive or of three equal-length messages is the exclusive or of their checksums. |
| Crc32.BurstDetection | native/src/imageforge_core.rs:48-59 | Two different messages of equal length that agree outside 32 consecutive bits have different checksums. |
| Crc32.ResidueIffChecksum | native/src/imageforge_core.rs:48-59 | Four bytes appended to a message leave the fixed residue exactly if they are its checksum. |
| ByteSource.WindowIsExtract | native/src/bytesource.rs:123-136 | A window inside some bytes reads exactly like a source holding just those bytes. |
| ByteSource.NestedWindows | native/src/bytesource.rs:123-136 | A window of a window reads as their intersection, for any parent. |
| ByteSource.FdSource.Read | native/src/bytesource.rs:67-102 | Under every schedule of short, interrupted and failing reads the result is the file's slice, cut at the end of file, or an error; the I/O error exactly if one of the reads made failed, out of range whenever the offset is 2^63 or more; with a true declared size it is the memory source's read. |
| Zip.FindEocd | native/src/zip.rs:74-82 | The backward scan finds the last end record signature with room for the record. |
| Zip.ReadEnd | native/src/zip.rs:70-106 | Reads the last end record in the window, overridden by a ZIP64 record if a locator precedes it, with every error case. |
| Zip.ReadZip64Values | native/src/zip.rs:108-133 | The walk by position computes the walk by fields, with the same errors. |
| Zip.List | native/src/zip.rs:135-176 | The loop over the directory returns all entries or the first error. |
| ZipBytes.EntryAcceptedIff | native/src/zip.rs:144-171 | A directory record is listed exactly if 46 bytes are left, they begin 50 4B 01 02, name, extra data and comment end inside, the extra data resolves, and the 30 bytes read at the offset begin 50 4B 03 04 with a data offset below 2^64. |
| ZipBytes.EntryInBytes | native/src/zip.rs:144-173 | Entry, next cursor and the error of each failing check, byte by byte. |
| ZipBytes.EndRecordInBytes | native/src/zip.rs:84-105 | End record byte by byte: sentinels without a locator, and a locator whose record cannot be read or lacks 50 4B 06 06, are errors. |
| ZipBytes.TruncatedField | native/src/zip.rs:111-117 | A field that runs past the extra data is an error, behind any other fields. |
| ZipBytes.ExtraExample | native/src/zip.rs:118-129 | Two ZIP64 fields in bytes and the values they give. |
| ZipBytes.WalkFails | native/src/zip.rs:141-175 | A failing record behind k good ones makes the directory fail with its error, never list fewer or more. |
| ZipBytes.WalkFailsBecause | native/src/zip.rs:141-175 | Whenever it fails there is such a record. |
| ZipBytes.WalkLists | native/src/zip.rs:141-175 | Otherwise the k-th entry is the k-th record's. |
| ZipBytes.ListingFails | native/src/zip.rs:135-176 | The same for the listing of an archive. |
| ZipBytes.ListingErrors | native/src/zip.rs:135-139 | The errors before any record is looked at. |
| ZipExamples.LiteralListing | native/src/zip.rs:135-176 | The listing of one archive given in bytes. |
| ZipExamples.DamagedListing | native/src/zip.rs:244-253 | With any other first byte in its directory record it is damaged. |
| ZipTheory.WindowedScanIsWholeScan | native/src/zip.rs:70-103 | For every file: below 22 bytes it is too short; otherwise reading the last 131168 bytes finds the end record a scan of the whole file finds, with the locator before it, which covers every 16-bit comment length; a record whose locator the window cuts off is read by itself, and one beyond the window is reported missing. |
| ZipTheory.SingleZip64Field | native/src/zip.rs:111-131 | Among other fields, one ZIP64 field replaces the sentinels from its payload on; the others are skipped whole. |
| ZipTheory.ConfinedIffLongEnough | native/src/zip.rs:118-129 | The values come from the ZIP64 field alone exactly if it is long enough, or everything behind it is too short as well. |
| ZipTheory.OverrunExample | native/src/zip.rs:118-129 | An empty ZIP64 field followed by another one is accepted. |
| ZipTheory.WindowedListing | native/src/zip.rs:135-176 | Listing an archive through a window equals listing the extracted archive. |
| ZipTheory.SameListing | native/src/zip.rs:135-176 | The listing depends only on the declared size and what reads return. |
| ZipWriter.ExtraRoundTrip | native/src/zip.rs:108-133 | Sizes and offset that a header cannot hold come back from the extra field, in order; the others are left alone. |
| ZipWriter.EntryRoundTrip | native/src/zip.rs:144-173 | A directory record and its local header, with any bytes where the reader does not look, read back as the entry, and the cursor lands on the next record. |
| ZipWriter.WalkRoundTrip | native/src/zip.rs:141-175 | A directory of such records reads back as all its members in order. |
| ZipArchive.ArchiveRoundTrip | native/src/zip.rs:135-236 | Listing a written ZIP or ZIP64 archive with any preamble, extra fields, comments, data descriptors, times, flags and attributes returns exactly its members, and reading at each data offset returns the data. |
| ZipArchive.Zip64WithoutCommentIsValid | native/src/zip.rs:70-106 | For ZIP64 archives without a comment the round trip needs nothing but valid members. |
| ZipArchive.NestedArchiveRoundTrip | native/src/bytesource.rs:105-136 | An archive anywhere inside a larger file is listed through a window, and the window's reads at the data offsets return the data. |
| ZipArchive.OwnRecordIff | native/src/zip.rs:74-82 | The scan stops at the archive's own end record exactly if no signature behind it has room for a record. |
| ZipArchive.CommentRecordIsRead | native/src/zip.rs:74-103 | An archive whose comment is itself an end record is read by that one, or rejected if it holds a sentinel. |
| ZipArchive.CommentHidesMembers | native/src/zip.rs:135-176 | If that record counts no entries the archive lists as empty, whatever its members. |
| ZipArchive.CommentExample | native/src/zip.rs:135-176 | One archive that lists its member without a comment and nothing with such a comment. |
| Binary.PutNum | native/src/binary.rs:73-83 | A field written reads back, and every field beside it is unchanged. |
| Binary.WriteLE | native/src/binary.rs:73-83 | Writes exactly the field in place, or reports the range error and changes nothing. |
| Binary.RangeErrors | native/src/binary.rs:22-28 | Which range error it is. |
| Binary.AlignUpIsPages | native/src/binary.rs:61-71 | Rounding up gives the page count times the page size, overflow exactly when that exceeds 64 bits, and an error for page size zero. |
| Boot.ParsedHeaderIsValid | native/src/boot.rs:90-148 | Parsing yields only headers with fields in range and absent fields zero. |
| Boot.ParsedVendorHeaderIsValid | native/src/boot.rs:150-184 | The same for vendor boot headers. |
| Boot.HeaderAcceptedIff | native/src/boot.rs:90-108 | An image is accepted exactly if it begins with the eight bytes of ANDROID!, its version is at most 4 and it has 1632, 1648, 1660, 1580 or 1584 bytes for it; each other image gets the error of the first failing check. |
| Boot.HeaderSizeExact | native/src/boot.rs:111-113 | The header size of versions 3 and 4 is the larger of the recorded and the necessary one. |
| Boot.LegacyHeaderExample | native/src/boot.rs:130-147 | A version 2 header with a number of its own in every field. |
| Boot.ModernHeaderExample | native/src/boot.rs:110-128 | A version 4 header that records no size. |
| Boot.VendorHeaderAcceptedIff | native/src/boot.rs:150-168 | The same for vendor images: versions 3 and 4, 2112 or 2128 bytes. |
| Boot.VendorHeaderSizeExact | native/src/boot.rs:170-172 | The recorded header size, or 2112 or 2128 if none is recorded. |
| Boot.VendorHeaderExample | native/src/boot.rs:170-184 | A version 4 vendor header with a number of its own in every field. |
| Boot.HeaderRoundTrip | native/src/boot.rs:90-148 | Every valid boot header of versions 0 to 4, written over the start of any bytes, parses back to itself. |
| Boot.ParsedRoundTrip | native/src/boot.rs:90-148 | Writing a parsed header back reproduces the bytes, exactly unless a version 3 or 4 header recorded too small a size. |
| Boot.VendorHeaderRoundTrip | native/src/boot.rs:150-184 | Every valid vendor boot header, written over any bytes, parses back to itself. |
| Boot.ParsedVendorRoundTrip | native/src/boot.rs:150-184 | Writing it back reproduces the bytes, exactly unless the recorded size is zero. |
| BootLayout.ComputeBootSections | native/src/boot_layout.rs:70-162 | The step-by-step placement computes the layout function, with every error case. |
| BootLayout.ComputeVendorSections | native/src/boot_layout.rs:164-224 | The same for vendor images. |
| BootLayout.PageSizeIff | native/src/boot_layout.rs:62-68 | The page sizes accepted are 2 to the k for k >= 9, and all of them. |
| BootLayout.BadPageSize | native/src/boot_layout.rs:70-71 | Versions 0 to 2 fail on every other page size. |
| BootLayout.BadVendorHeader | native/src/boot_layout.rs:174-183 | Vendor images fail on every other page size, then on headers below 2112 or 2128 bytes. |
| BootTheory.SectionsInside | native/src/boot_layout.rs:49-60 | Every reported section is nonempty and inside the image. |
| BootTheory.OffsetsExact | native/src/boot_layout.rs:70-101 | The reported sections begin with kernel, ramdisk and second stage at the summed page counts of everything before them. |
| BootTheory.ModernKernelAt | native/src/boot_layout.rs:70-84 | The kernel of a version 3 or 4 image lies at 4096 whenever the recorded header size is at most 4096. |
| BootTheory.LegacyFails | native/src/boot_layout.rs:75-132 | Versions 0 to 2 fail exactly if a part does not fit at its place or cannot be rounded up in 64 bits, with the error of the first. |
| BootTheory.ModernFails | native/src/boot_layout.rs:75-161 | Versions 3 and 4 fail exactly if kernel, ramdisk or signature does not fit, with the first. |
| BootTheory.VendorFails | native/src/boot_layout.rs:185-224 | Vendor images fail exactly if a part does not fit, with the first. |
| BootTheory.LegacyDisjointIff | native/src/boot_layout.rs:117-132 | For versions 0 to 2 the sections are ordered, and disjoint, exactly if the image has room for the DTB behind the last section before it, which the header's sizes give. |
| BootTheory.ModernDisjointIff | native/src/boot_layout.rs:134-159 | For versions 3 and 4 they are ordered, and disjoint, exactly if the image has room for the signature behind kernel and ramdisk. |
| BootTheory.DtbOverlapExample | native/src/boot_layout.rs:117-124 | An image whose DTB overlaps its kernel. |
| BootTheory.SignatureOverlapExample | native/src/boot_layout.rs:134-159 | An image whose signature overlaps its ramdisk. |
| BootTheory.VendorSectionsSequential | native/src/boot_layout.rs:164-224 | Vendor sections are always inside, ordered and disjoint. |
| BootImage.LegacyTakenApart | native/src/boot_layout.rs:70-132 | Slicing any version 0 to 2 image at its sections returns every nonempty part that the image carries on its pages, the DTBO also where the header records it, the DTB also flush with the end. |
| BootImage.SequentialInOrder | native/src/boot_layout.rs:101-132 | Whenever the image has room for all parts in sequence they do not overlap and the DTB follows the DTBO, so the round trip applies. |
| BootImage.LegacyRoundTrip | native/src/boot_layout.rs:70-132 | A version 0 to 2 image written over any bytes, its parts one behind the other, parses, and slicing it at its sections returns every nonempty part. |
| BootImage.ModernTakenApart | native/src/boot_layout.rs:134-161 | The same for any version 3 or 4 image: bootconfig is what lies between the last page and the signature at the end. |
| BootImage.ModernRoundTrip | native/src/boot_layout.rs:134-161 | Written over any bytes such an image parses and comes apart into its parts. |
| BootImage.VendorTakenApart | native/src/boot_layout.rs:164-224 | The same for any vendor image, whose table ends on a multiple of four. |
| BootImage.VendorRoundTrip | native/src/boot_layout.rs:164-224 | Written over any bytes it parses and comes apart into its parts. |

## Left out

- XZ and bzip2: thin calls into crates that are not part of this model.
- The C ABI and JNI shells, `alloc`/`dealloc` and raw pointers: the safe functions behind them are modelled; the shell's only check, a prefix longer than the buffer, is the precondition of `DecompressBlockWithPrefix`.
- Format detection and report strings in `lib.rs`, error message texts and lossy UTF-8 decoding: names are byte sequences, errors are constructors.
- Kotlin code, including `UriByteSource.read`, which repeats the short-read loop over a Java channel.
- `Vec::with_capacity(entry_count)` in `zip::list`: an absurd declared count can exhaust memory before the first entry is read; allocation is not modelled.
- 32-bit targets: `usize::try_from` never fails here and lengths are 64-bit; only `Lz4Bounds.CursorSumsFit` speaks of an arbitrary word size.
- `FdSource::new` rejecting a negative descriptor, and the descriptor itself: a source starts from the file's bytes and the declared size.
- The signed 64-bit `off_t` limit of a descriptor read is modelled; a kernel that interrupts forever is not: the schedule of outcomes is finite.
- Big-endian readers in `binary.rs`: they mirror the little-endian ones.
- The numeric value of the CRC residue, which is stated as the checksum of four zero bytes, and checksums of messages other than the two in `Crc32Values.CheckValues`.
- Compression quality and equality of bytes with upstream liblz4: not decided by this code.
