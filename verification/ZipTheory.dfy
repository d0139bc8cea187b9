// What the reader guarantees for every archive: the window is enough, only the bytes of the
// window matter, and what an extra field can and cannot do.
module ZipTheory {
  import opened Wrappers
  import opened Bytes
  import opened Binary
  import opened ByteSource
  import opened Zip

  // ---------- Sources ----------

  lemma SameReadFrom(a: Source, b: Source, offset: nat, length: nat)
    requires SameReads(a, b)
    ensures ReadFrom(a, offset, length) == ReadFrom(b, offset, length)
  {
  }

  lemma SameEndRecord(a: Source, b: Source)
    requires SameSource(a, b)
    ensures EndRecordOf(a) == EndRecordOf(b)
  {
  }

  lemma {:induction false} SameWalk(a: Source, b: Source, central: seq<byte>, cursor: nat, count: nat)
    requires SameReads(a, b)
    ensures Walk(a, central, cursor, count) == Walk(b, central, cursor, count)
    decreases count
  {
    hide SameReads, EntryAt;
    if count > 0 {
      SameEntry(a, b, central, cursor);
      var entry := EntryAt(a, central, cursor);
      if entry.Ok? {
        SameWalk(a, b, central, entry.value.1, count - 1);
      }
    }
  }

  lemma SameEntry(a: Source, b: Source, central: seq<byte>, cursor: nat)
    requires SameReads(a, b)
    ensures EntryAt(a, central, cursor) == EntryAt(b, central, cursor)
  {
  }

  // The listing depends on nothing but the declared size and what reads return.
  lemma SameListing(a: Source, b: Source)
    requires SameSource(a, b)
    ensures Listing(a) == Listing(b)
  {
    hide SameReads, EndRecordOf, ReadFrom, Walk;
    SameEndRecord(a, b);
    var end := EndRecordOf(a);
    if end.Ok? {
      SameReadFrom(a, b, end.value.centralOffset, end.value.centralSize);
      var central := ReadFrom(a, end.value.centralOffset, end.value.centralSize);
      if central.Ok? {
        SameWalk(a, b, central.value, 0, end.value.entryCount);
      }
    }
  }

  // Listing an archive inside a window of a file is listing the extracted archive.
  lemma WindowedListing(bytes: seq<byte>, o: nat, s: nat)
    requires o + s <= |bytes| <= U64_MAX
    ensures Listing(SubSource(MemorySource(bytes), o, s)) == Listing(MemorySource(bytes[o..o + s]))
  {
    WindowIsExtract(bytes, o, s);
    SameListing(SubSource(MemorySource(bytes), o, s), MemorySource(bytes[o..o + s]));
  }

  // ---------- The backward scan ----------

  lemma EocdInTail(b: seq<byte>, start: nat, i: nat)
    requires start + i <= |b|
    ensures EocdAt(b[start..], i) <==> EocdAt(b, start + i)
  {
    if start + i + 4 <= |b| {
      NumInSuffix(b, start, i, 4);
    }
  }

  lemma LastEocdUnique(b: seq<byte>, e: nat)
    requires e + 22 <= |b| && EocdAt(b, e) && NoEocdFrom(b, e + 1)
    ensures LastEocd(b, |b|) == Some(e)
  {
  }

  // Scanning a tail finds what scanning everything finds, if that lies in the tail, and
  // otherwise nothing.
  lemma ScanOfTail(b: seq<byte>, start: nat)
    requires start <= |b|
    ensures var whole := LastEocd(b, |b|);
            LastEocd(b[start..], |b| - start) ==
              if whole.Some? && whole.value >= start then Some(whole.value - start) else None
  {
    var tail, whole := b[start..], LastEocd(b, |b|);
    forall i: nat | i <= |tail| ensures EocdAt(tail, i) <==> EocdAt(b, start + i) {
      EocdInTail(b, start, i);
    }
    if whole.Some? && whole.value >= start {
      LastEocdUnique(tail, whole.value - start);
    }
  }

  // What an end record says by itself.
  function PlainRecord(b: seq<byte>, e: nat): EndRecord
    requires e + 22 <= |b|
  {
    EndRecord(Num(b, e + 10, 2), Num(b, e + 12, 4), Num(b, e + 16, 4))
  }

  // The end record read through the window is the one a scan of the whole file finds, with the
  // locator before it. That covers every comment of 16-bit length; further from the end, a record
  // whose locator the window of 131168 bytes cuts off is read by itself, and one beyond it is missing.
  lemma WindowedScanIsWholeScan(b: seq<byte>)
    ensures var s := MemorySource(b);
            if |b| < 22 then EndRecordOf(s) == Err(TooShort)
            else
              match LastEocd(b, |b|)
              case None => EndRecordOf(s) == Err(MissingEocd)
              case Some(e) =>
                && (|b| <= e + 22 + 65535 ==> |b| <= 131168 || |b| + 20 <= e + 131168)
                && EndRecordOf(s) ==
                   if |b| <= 131168 || |b| + 20 <= e + 131168 then EndRecordAt(s, b, e)
                   else if |b| <= e + 131168 then Ok(PlainRecord(b, e))
                   else Err(MissingEocd)
  {
    hide LastEocd, EndRecordAt, EocdAt, ReadFrom;
    if |b| >= 22 {
      hide EndRecordOf;
      var start := |b| - Min(END_RECORD_WINDOW, |b|);
      ReadTail(b);
      ScanOfTail(b, start);
      LastEocdBound(b);
      var whole := LastEocd(b, |b|);
      if whole.Some? && whole.value >= start {
        if start == 0 || start + 20 <= whole.value {
          SameRecordInTail(MemorySource(b), b, start, whole.value);
        } else {
          RecordWithoutLocator(MemorySource(b), b, start, whole.value);
        }
      }
    }
  }

  lemma RecordWithoutLocator(s: Source, b: seq<byte>, start: nat, e: nat)
    requires start <= e < start + 20 && e + 22 <= |b|
    ensures EndRecordAt(s, b[start..], e - start) == Ok(PlainRecord(b, e))
  {
    hide Num;
    NumInSuffix(b, start, e - start + 10, 2);
    NumInSuffix(b, start, e - start + 12, 4);
    NumInSuffix(b, start, e - start + 16, 4);
  }

  lemma ReadTail(b: seq<byte>)
    requires |b| >= 22
    ensures var tail := b[|b| - Min(END_RECORD_WINDOW, |b|)..];
            EndRecordOf(MemorySource(b)) ==
              match LastEocd(tail, |tail|)
              case None => Err(MissingEocd)
              case Some(eocd) => EndRecordAt(MemorySource(b), tail, eocd)
  {
    hide LastEocd, Num, EndRecordAt;
    var window := Min(END_RECORD_WINDOW, |b|);
    assert MemoryRead(b, |b| - window, window) == b[|b| - window..];
  }

  lemma LastEocdBound(b: seq<byte>)
    ensures LastEocd(b, |b|).Some? ==> LastEocd(b, |b|).value + 22 <= |b|
  {
  }

  lemma SameRecordInTail(s: Source, b: seq<byte>, start: nat, e: nat)
    requires start <= e && e + 22 <= |b| && (start == 0 || start + 20 <= e)
    ensures EndRecordAt(s, b[start..], e - start) == EndRecordAt(s, b, e)
  {
    hide Num, Zip64Record;
    NumInSuffix(b, start, e - start + 10, 2);
    NumInSuffix(b, start, e - start + 12, 4);
    NumInSuffix(b, start, e - start + 16, 4);
    if e - start >= 20 {
      NumInSuffix(b, start, e - start - 20, 4);
      NumInSuffix(b, start, e - start - 12, 8);
    }
  }

  // ---------- Extra fields ----------

  datatype Field = Field(id: nat, payload: seq<byte>) {
    predicate Valid() {
      id <= U16_MAX && |payload| <= U16_MAX
    }
  }

  predicate ValidFields(fs: seq<Field>) {
    forall k :: 0 <= k < |fs| ==> fs[k].Valid()
  }

  predicate NoZip64(fs: seq<Field>) {
    forall k :: 0 <= k < |fs| ==> fs[k].id != ZIP64_EXTRA
  }

  function EncodeField(f: Field): (b: seq<byte>)
    ensures |b| == 4 + |f.payload|
  {
    ToLE(f.id, 2) + ToLE(|f.payload|, 2) + f.payload
  }

  function EncodeFields(fs: seq<Field>): seq<byte> {
    if fs == [] then [] else EncodeField(fs[0]) + EncodeFields(fs[1..])
  }

  lemma FieldHeader(f: Field, rest: seq<byte>)
    requires f.Valid()
    ensures var b := EncodeField(f) + rest;
            && Num(b, 0, 2) == f.id && Num(b, 2, 2) == |f.payload|
            && b[4..] == f.payload + rest && b[4 + |f.payload|..] == rest
  {
    var b := EncodeField(f) + rest;
    Capacities();
    FromToLE(f.id, 2);
    FromToLE(|f.payload|, 2);
    assert b[0..2] == ToLE(f.id, 2) && b[2..4] == ToLE(|f.payload|, 2);
  }

  // One field at the front: other ids are skipped whole, ZIP64 fields act on the values.
  lemma OneField(f: Field, rest: seq<byte>, v: Sizes)
    requires f.Valid()
    ensures Zip64Values(EncodeField(f) + rest, v) ==
      if f.id != ZIP64_EXTRA then Zip64Values(rest, v)
      else match ReplaceSentinels(f.payload + rest, v)
           case Err(e) => Err(e)
           case Ok(v1) => Zip64Values(rest, v1)
  {
    hide Num, ReplaceSentinels, EncodeField;
    FieldHeader(f, rest);
  }

  // Fields other than ZIP64 change nothing.
  lemma {:induction false} OtherFieldsIgnored(fs: seq<Field>, rest: seq<byte>, v: Sizes)
    requires ValidFields(fs) && NoZip64(fs)
    ensures Zip64Values(EncodeFields(fs) + rest, v) == Zip64Values(rest, v)
  {
    hide Zip64Values;
    if fs == [] {
      assert [] + rest == rest;
    } else {
      Regroup(EncodeField(fs[0]), EncodeFields(fs[1..]), rest);
      OneField(fs[0], EncodeFields(fs[1..]) + rest, v);
      OtherFieldsIgnored(fs[1..], rest, v);
    }
  }

  // How many 64-bit values the sentinels of v call for.
  function Needed(v: Sizes): nat {
    (if v.uncompressed == SENTINEL_32 then 1 else 0)
    + (if v.compressed == SENTINEL_32 then 1 else 0)
    + (if v.localOffset == SENTINEL_32 then 1 else 0)
  }

  lemma TakeConfined(b: seq<byte>, more: seq<byte>, v: nat)
    requires v == SENTINEL_32 ==> |b| >= 8
    ensures var r := TakeIfSentinel(b, v);
            r.Ok? && TakeIfSentinel(b + more, v) == Ok((r.value.0, r.value.1 + more))
  {
    if v == SENTINEL_32 {
      assert (b + more)[0..8] == b[0..8];
      assert (b + more)[8..] == b[8..] + more;
    }
  }

  lemma ReplaceSucceedsIffLongEnough(b: seq<byte>, v: Sizes)
    ensures ReplaceSentinels(b, v).Ok? <==> |b| >= 8 * Needed(v)
    ensures ReplaceSentinels(b, v).Err? ==> ReplaceSentinels(b, v).error == InvalidZip64
  {
  }

  // Bytes behind a long enough payload do not matter.
  lemma ReplaceConfined(b: seq<byte>, more: seq<byte>, v: Sizes)
    requires |b| >= 8 * Needed(v)
    ensures ReplaceSentinels(b + more, v) == ReplaceSentinels(b, v)
  {
    hide TakeIfSentinel;
    TakeConfined(b, more, v.uncompressed);
    var b1 := TakeIfSentinel(b, v.uncompressed).value.1;
    TakeLength(b, v.uncompressed);
    TakeConfined(b1, more, v.compressed);
    TakeLength(b1, v.compressed);
    var b2 := TakeIfSentinel(b1, v.compressed).value.1;
    TakeConfined(b2, more, v.localOffset);
  }

  lemma TakeLength(b: seq<byte>, v: nat)
    requires v == SENTINEL_32 ==> |b| >= 8
    ensures var r := TakeIfSentinel(b, v);
            r.Ok? && |r.value.1| == |b| - (if v == SENTINEL_32 then 8 else 0)
  {
  }

  // A list of fields with one ZIP64 field among them: the walk replaces the sentinels, reading
  // from that field's payload on to the end of the extra data.
  lemma SingleZip64Field(before: seq<Field>, payload: seq<byte>, after: seq<Field>, slack: seq<byte>, v: Sizes)
    requires ValidFields(before) && NoZip64(before) && ValidFields(after) && NoZip64(after)
    requires |payload| <= U16_MAX && |slack| < 4
    ensures Zip64Values(EncodeFields(before) + (EncodeField(Field(ZIP64_EXTRA,
        payload)) + (EncodeFields(after) + slack)), v)
         == ReplaceSentinels(payload + (EncodeFields(after) + slack), v)
  {
    hide ReplaceSentinels, EncodeField, EncodeFields;
    var rest := EncodeFields(after) + slack;
    var f := Field(ZIP64_EXTRA, payload);
    OtherFieldsIgnored(before, EncodeField(f) + rest, v);
    OneField(f, rest, v);
    var replaced := ReplaceSentinels(payload + rest, v);
    if replaced.Ok? {
      OtherFieldsIgnored(after, slack, replaced.value);
    }
  }

  // The walk reads only the ZIP64 field itself exactly if that field is long enough for the
  // sentinels, or everything behind it is too short as well. Otherwise it takes the bytes of
  // the following fields for sizes, where a reader confined to the field reports an error.
  lemma ConfinedIffLongEnough(before: seq<Field>, payload: seq<byte>, after: seq<Field>, slack: seq<byte>, v: Sizes)
    requires ValidFields(before) && NoZip64(before) && ValidFields(after) && NoZip64(after)
    requires |payload| <= U16_MAX && |slack| < 4
    ensures Zip64Values(EncodeFields(before) + (EncodeField(Field(ZIP64_EXTRA,
        payload)) + (EncodeFields(after) + slack)), v)
              == ReplaceSentinels(payload, v)
            <==> |payload| >= 8 * Needed(v) || |payload| + |EncodeFields(after) + slack| < 8 * Needed(v)
  {
    hide ReplaceSentinels, EncodeField, EncodeFields, Zip64Values;
    var rest := EncodeFields(after) + slack;
    SingleZip64Field(before, payload, after, slack, v);
    ReplaceSucceedsIffLongEnough(payload, v);
    ReplaceSucceedsIffLongEnough(payload + rest, v);
    if |payload| >= 8 * Needed(v) {
      ReplaceConfined(payload, rest, v);
    }
  }

  // For instance, an empty ZIP64 field followed by an eight-byte field: its header and payload
  // become the uncompressed size.
  lemma OverrunExample()
    ensures var other := Field(0x5455, [1, 2, 3, 4]);
            var v := Sizes(SENTINEL_32, 0, 0);
            && ReplaceSentinels([], v) == Err(InvalidZip64)
            && Zip64Values(EncodeField(Field(ZIP64_EXTRA, [])) + EncodeField(other), v).Ok?
  {
    var other := Field(0x5455, [1, 2, 3, 4]);
    var v := Sizes(SENTINEL_32, 0, 0);
    assert EncodeFields([]) == [] && EncodeFields([other]) == EncodeField(other) by {
      assert [other][1..] == [];
      assert EncodeField(other) + [] == EncodeField(other);
    }
    SingleZip64Field([], [], [other], [], v);
    var rest := EncodeField(other);
    assert rest + [] == rest && [] + rest == rest;
    assert [] + (EncodeField(Field(ZIP64_EXTRA, [])) + rest) == EncodeField(Field(ZIP64_EXTRA, [])) + rest;
    ReplaceSucceedsIffLongEnough(rest, v);
  }
}
