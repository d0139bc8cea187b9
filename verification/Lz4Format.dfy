// The LZ4 block format as values: sequences, their byte encoding, the grammar that reads
// them back, and the meaning of a list of sequences as text.
module Lz4Format {
  import opened Wrappers
  import opened Bytes

  const MIN_MATCH: nat := 4
  const MAX_OFFSET: nat := 65535

  // A full sequence copies literals and then a match. A sequence whose literals exhaust the
  // block has no match; the low half of its token is read but never used (`spare`).
  datatype Sequence =
    | Match(literals: seq<byte>, offset: nat, length: nat)
    | Last(literals: seq<byte>, spare: nat)

  // ---------- Length codes ----------

  function EncodeExtension(v: nat): (s: seq<byte>)
    ensures |s| == v / 255 + 1
  {
    if v >= 255 then [255] + EncodeExtension(v - 255) else [v]
  }

  // Sums bytes up to and including the first one that is not 255.
  function ReadExtension(s: seq<byte>): (r: Option<(nat, seq<byte>)>)
    ensures r.Some? ==> |r.value.1| < |s|
  {
    if s == [] then None
    else if s[0] != 255 then Some((s[0], s[1..]))
    else match ReadExtension(s[1..])
      case None => None
      case Some((v, rest)) => Some((255 + v, rest))
  }

  function Nibble(v: nat): (b: nat)
    ensures b < 16
  {
    if v >= 15 then 15 else v
  }

  function EncodeLength(v: nat): seq<byte> {
    if v >= 15 then EncodeExtension(v - 15) else []
  }

  function ReadLength(nibble: nat, s: seq<byte>): (r: Option<(nat, seq<byte>)>)
    ensures r.Some? ==> |r.value.1| <= |s|
  {
    if nibble != 15 then Some((nibble, s))
    else match ReadExtension(s)
      case None => None
      case Some((v, rest)) => Some((15 + v, rest))
  }

  // Byte by byte: as many 255s as fit, then the rest.
  lemma {:induction false} ExtensionBytes(v: nat)
    ensures |EncodeExtension(v)| == v / 255 + 1
    ensures forall k :: 0 <= k <= v / 255 ==> EncodeExtension(v)[k] == if k < v / 255 then 255 else v % 255
  {
    if v >= 255 {
      ExtensionBytes(v - 255);
      assert forall k :: 0 < k <= v / 255 ==> EncodeExtension(v)[k] == EncodeExtension(v - 255)[k - 1];
    }
  }

  lemma {:induction false} ExtensionRoundTrip(v: nat, rest: seq<byte>)
    ensures ReadExtension(EncodeExtension(v) + rest) == Some((v, rest))
  {
    if v >= 255 {
      ExtensionRoundTrip(v - 255, rest);
      assert (EncodeExtension(v) + rest)[1..] == EncodeExtension(v - 255) + rest;
    } else {
      assert ([v] + rest)[1..] == rest;
    }
  }

  lemma {:induction false} ExtensionCanonical(s: seq<byte>)
    requires ReadExtension(s).Some?
    ensures s == EncodeExtension(ReadExtension(s).value.0) + ReadExtension(s).value.1
  {
    if s[0] == 255 {
      ExtensionCanonical(s[1..]);
    }
  }

  lemma LengthRoundTrip(v: nat, rest: seq<byte>)
    ensures ReadLength(Nibble(v), EncodeLength(v) + rest) == Some((v, rest))
  {
    if v >= 15 {
      ExtensionRoundTrip(v - 15, rest);
    } else {
      assert [] + rest == rest;
    }
  }

  lemma LengthCanonical(nibble: nat, s: seq<byte>)
    requires nibble < 16
    requires ReadLength(nibble, s).Some?
    ensures var (v, rest) := ReadLength(nibble, s).value;
            Nibble(v) == nibble && s == EncodeLength(v) + rest
  {
    hide ReadExtension, EncodeExtension;
    if nibble == 15 {
      ExtensionCanonical(s);
    } else {
      assert [] + s == s;
    }
  }

  // ---------- Sequences ----------

  predicate ValidSequence(q: Sequence) {
    match q
    case Match(_, offset, length) => offset <= MAX_OFFSET && length >= MIN_MATCH
    case Last(_, spare) => spare < 16
  }

  function EncodeSequence(q: Sequence): (s: seq<byte>)
    requires ValidSequence(q)
    ensures |s| > |q.literals|
  {
    var l := |q.literals|;
    match q
    case Match(literals, offset, length) =>
      [16 * Nibble(l) + Nibble(length - MIN_MATCH)] + (EncodeLength(l) + (literals + EncodeMatch(offset, length)))
    case Last(literals, spare) =>
      [16 * Nibble(l) + spare] + (EncodeLength(l) + literals)
  }

  function EncodeMatch(offset: nat, length: nat): (s: seq<byte>)
    requires offset <= MAX_OFFSET && length >= MIN_MATCH
    ensures |s| >= 2
  {
    [offset % 256, offset / 256] + EncodeLength(length - MIN_MATCH)
  }

  // The bytes of a full sequence: token, further literal length, literals, little-endian offset,
  // further match length.
  lemma SequenceBytes(q: Sequence)
    requires q.Match? && ValidSequence(q)
    ensures var s, l := EncodeSequence(q), |q.literals|;
            var n := if l < 15 then 0 else (l - 15) / 255 + 1;
            var m := if q.length < 19 then 0 else (q.length - 19) / 255 + 1;
            && |s| == 1 + n + l + 2 + m
            && s[0] == 16 * (if l < 15 then l else 15) + (if q.length < 19 then q.length - 4 else 15)
            && s[1..1 + n] == (if l < 15 then [] else EncodeExtension(l - 15))
            && s[1 + n..1 + n + l] == q.literals
            && s[1 + n + l] == q.offset % 256 && s[2 + n + l] == q.offset / 256
            && s[3 + n + l..] == if q.length < 19 then [] else EncodeExtension(q.length - 19)
  {
    hide EncodeExtension;
    var l := |q.literals|;
    SequenceParts([EncodeSequence(q)[0]], EncodeLength(l), q.literals, [q.offset % 256, q.offset / 256],
                  EncodeLength(q.length - 4));
  }

  lemma SequenceParts(t: seq<byte>, e: seq<byte>, l: seq<byte>, o: seq<byte>, f: seq<byte>)
    requires |t| == 1 && |o| == 2
    ensures var s, n := t + (e + (l + (o + f))), |e|;
            && s[1..1 + n] == e && s[1 + n..1 + n + |l|] == l
            && s[1 + n + |l|] == o[0] && s[2 + n + |l|] == o[1] && s[3 + n + |l|..] == f
  {
  }

  // The bytes of the last sequence.
  lemma LastSequenceBytes(literals: seq<byte>)
    ensures var s, l := EncodeSequence(Last(literals, 0)), |literals|;
            var n := if l < 15 then 0 else (l - 15) / 255 + 1;
            && |s| == 1 + n + l && s[0] == 16 * (if l < 15 then l else 15)
            && s[1..1 + n] == (if l < 15 then [] else EncodeExtension(l - 15))
            && s[1 + n..] == literals
  {
    hide EncodeExtension;
  }

  function ReadSequence(s: seq<byte>): (r: Option<(Sequence, seq<byte>)>)
    requires s != []
    ensures r.Some? ==> ValidSequence(r.value.0) && |r.value.1| < |s|
    ensures r.Some? && r.value.0.Last? ==> r.value.1 == []
  {
    var token := s[0];
    var (l, s1) :- ReadLength(token / 16, s[1..]);
    if l > |s1| then None
    else if l == |s1| then Some((Last(s1, token % 16), []))
    else ReadMatch(token % 16, s1[..l], s1[l..])
  }

  function ReadMatch(nibble: nat, literals: seq<byte>, s: seq<byte>): (r: Option<(Sequence, seq<byte>)>)
    ensures r.Some? ==> r.value.0.Match? && ValidSequence(r.value.0) && |r.value.1| + 2 <= |s|
  {
    if |s| < 2 then None
    else
      var (m, rest) :- ReadLength(nibble, s[2..]);
      Some((Match(literals, ReadOffset(s[0], s[1]), m + MIN_MATCH), rest))
  }

  function ReadOffset(low: byte, high: byte): (offset: nat)
    ensures offset <= MAX_OFFSET
    ensures offset % 256 == low && offset / 256 == high
  {
    low + 256 * high
  }

  lemma MatchCodeRoundTrip(literals: seq<byte>, offset: nat, length: nat, rest: seq<byte>)
    requires offset <= MAX_OFFSET && length >= MIN_MATCH
    ensures ReadMatch(Nibble(length - MIN_MATCH), literals, EncodeMatch(offset, length) + rest)
         == Some((Match(literals, offset, length), rest))
  {
    var m := length - MIN_MATCH;
    var s := EncodeMatch(offset, length) + rest;
    assert s[2..] == EncodeLength(m) + rest;
    LengthRoundTrip(m, rest);
    assert ReadOffset(s[0], s[1]) == offset;
  }

  lemma MatchRoundTrip(q: Sequence, rest: seq<byte>)
    requires q.Match? && ValidSequence(q)
    ensures ReadSequence(EncodeSequence(q) + rest) == Some((q, rest))
  {
    hide ReadLength, EncodeLength, EncodeMatch, ReadMatch;
    var l := |q.literals|;
    var token := 16 * Nibble(l) + Nibble(q.length - MIN_MATCH);
    var code := EncodeMatch(q.offset, q.length);
    var tail := q.literals + (code + rest);
    assert EncodeSequence(q) + rest == [token] + (EncodeLength(l) + tail) by {
      Regroup([token], EncodeLength(l) + (q.literals + code), rest);
      Regroup(EncodeLength(l), q.literals + code, rest);
      Regroup(q.literals, code, rest);
    }
    Halves([token], EncodeLength(l) + tail);
    LengthRoundTrip(l, tail);
    Halves(q.literals, code + rest);
    MatchCodeRoundTrip(q.literals, q.offset, q.length, rest);
  }

  lemma LastRoundTrip(q: Sequence)
    requires q.Last? && ValidSequence(q)
    ensures ReadSequence(EncodeSequence(q)) == Some((q, []))
  {
    var l := |q.literals|;
    assert EncodeSequence(q)[1..] == EncodeLength(l) + q.literals;
    LengthRoundTrip(l, q.literals);
  }

  lemma MatchCodeCanonical(nibble: nat, literals: seq<byte>, s: seq<byte>)
    requires nibble < 16 && ReadMatch(nibble, literals, s).Some?
    ensures var (q, rest) := ReadMatch(nibble, literals, s).value;
            && Nibble(q.length - MIN_MATCH) == nibble
            && s == EncodeMatch(q.offset, q.length) + rest
  {
    hide ReadLength, EncodeLength;
    LengthCanonical(nibble, s[2..]);
    assert s == [s[0], s[1]] + s[2..];
  }

  lemma SequenceCanonical(s: seq<byte>)
    requires s != [] && ReadSequence(s).Some?
    ensures s == EncodeSequence(ReadSequence(s).value.0) + ReadSequence(s).value.1
  {
    hide ReadLength, EncodeLength, EncodeMatch;
    var token, code := s[0], s[1..];
    assert s == [token] + code;
    LengthCanonical(token / 16, code);
    var (l, s1) := ReadLength(token / 16, code).value;
    if l < |s1| {
      var (q, rest) := ReadSequence(s).value;
      var m := EncodeMatch(q.offset, q.length);
      MatchCodeCanonical(token % 16, s1[..l], s1[l..]);
      assert code == (EncodeLength(l) + (q.literals + m)) + rest by {
        assert s1 == s1[..l] + s1[l..];
        Regroup(q.literals, m, rest);
        Regroup(EncodeLength(l), q.literals + m, rest);
      }
      Regroup([token], EncodeLength(l) + (q.literals + m), rest);
    } else {
      assert EncodeSequence(ReadSequence(s).value.0) + [] == s;
    }
  }

  // ---------- Blocks ----------

  // Only the final sequence of a block may lack a match.
  predicate ValidBlock(qs: seq<Sequence>) {
    && (forall k :: 0 <= k < |qs| ==> ValidSequence(qs[k]))
    && (forall k :: 0 <= k < |qs| - 1 ==> qs[k].Match?)
  }

  function EncodeBlock(qs: seq<Sequence>): seq<byte>
    requires ValidBlock(qs)
  {
    if qs == [] then [] else EncodeSequence(qs[0]) + EncodeBlock(qs[1..])
  }

  function ParseBlock(s: seq<byte>): (r: Option<seq<Sequence>>)
    ensures r.Some? ==> ValidBlock(r.value)
    decreases |s|
  {
    if s == [] then Some([])
    else
      var (q, rest) :- ReadSequence(s);
      var qs :- ParseBlock(rest);
      Some([q] + qs)
  }

  // The byte strings that parse and the valid blocks are in one-to-one correspondence: this
  // direction says that every valid block is the reading of its own encoding ...
  lemma {:induction false} ParseEncode(qs: seq<Sequence>)
    requires ValidBlock(qs)
    ensures ParseBlock(EncodeBlock(qs)) == Some(qs)
  {
    if qs != [] {
      var q, rest := qs[0], EncodeBlock(qs[1..]);
      ParseEncode(qs[1..]);
      if q.Match? {
        MatchRoundTrip(q, rest);
      } else {
        LastRoundTrip(q);
        assert EncodeSequence(q) + [] == EncodeSequence(q);
      }
      assert qs == [q] + qs[1..];
    }
  }

  // ... and this one that every string that parses is the encoding of what was read.
  lemma {:induction false} EncodeParse(s: seq<byte>)
    requires ParseBlock(s).Some?
    ensures EncodeBlock(ParseBlock(s).value) == s
    decreases |s|
  {
    if s != [] {
      SequenceCanonical(s);
      var (q, rest) := ReadSequence(s).value;
      EncodeParse(rest);
      assert ParseBlock(s).value[1..] == ParseBlock(rest).value;
    }
  }

  lemma {:induction false} EncodeBlockAppend(qs: seq<Sequence>, more: seq<Sequence>)
    requires ValidBlock(qs + more)
    requires ValidBlock(qs) && ValidBlock(more)
    ensures EncodeBlock(qs + more) == EncodeBlock(qs) + EncodeBlock(more)
  {
    if qs == [] {
      assert qs + more == more;
    } else {
      var all := qs + more;
      assert all[0] == qs[0] && all[1..] == qs[1..] + more;
      assert ValidBlock(all[1..]);
      EncodeBlockAppend(qs[1..], more);
      Regroup(EncodeSequence(qs[0]), EncodeBlock(qs[1..]), EncodeBlock(more));
    }
  }

  // ---------- Meaning ----------

  // Copies n bytes from `offset` back, one at a time, so a copy may read what it wrote.
  function CopyMatch(h: seq<byte>, offset: nat, n: nat): (r: seq<byte>)
    requires 1 <= offset <= |h|
    ensures |r| == |h| + n
    ensures r[..|h|] == h
  {
    if n == 0 then h else var p := CopyMatch(h, offset, n - 1); p + [p[|p| - offset]]
  }

  // The text after reading qs with `h` already decoded.
  function Interpret(qs: seq<Sequence>, h: seq<byte>): (r: Option<seq<byte>>)
    ensures r.Some? ==> h <= r.value
  {
    if qs == [] then Some(h)
    else
      var h1 := h + qs[0].literals;
      if qs[0].Last? then Interpret(qs[1..], h1)
      else if 1 <= qs[0].offset <= |h1| then Interpret(qs[1..], CopyMatch(h1, qs[0].offset, qs[0].length))
      else None
  }

  // Decoding a block after the window h, into room for `cap` bytes including the window.
  function Decode(s: seq<byte>, h: seq<byte>, cap: nat): (r: Option<seq<byte>>)
    ensures r.Some? ==> h <= r.value && |r.value| <= cap
  {
    var qs :- ParseBlock(s);
    var out :- Interpret(qs, h);
    if |out| <= cap then Some(out) else None
  }

  // What a copy means, overlapping or not: every new byte equals the one `offset` places before it ...
  lemma {:induction false} CopyMatchPeriodic(h: seq<byte>, offset: nat, n: nat, k: nat)
    requires 1 <= offset <= |h| <= k < |h| + n
    ensures CopyMatch(h, offset, n)[k] == CopyMatch(h, offset, n)[k - offset]
  {
    var p := CopyMatch(h, offset, n - 1);
    assert CopyMatch(h, offset, n) == p + [p[|p| - offset]];
    if k < |p| {
      CopyMatchPeriodic(h, offset, n - 1, k);
    }
  }

  // ... and no other extension of h by n bytes has that property.
  lemma {:induction false} CopyMatchUnique(h: seq<byte>, offset: nat, n: nat, r: seq<byte>)
    requires 1 <= offset <= |h|
    requires |r| == |h| + n && h <= r
    requires forall j :: |h| <= j < |r| ==> r[j] == r[j - offset]
    ensures r == CopyMatch(h, offset, n)
  {
    if n > 0 {
      var front := r[..|r| - 1];
      CopyMatchUnique(h, offset, n - 1, front);
      assert r == front + [r[|r| - 1]];
    }
  }

  lemma {:induction false} CopyMatchAfter(p: seq<byte>, h: seq<byte>, offset: nat, n: nat)
    requires 1 <= offset <= |h|
    ensures CopyMatch(p + h, offset, n) == p + CopyMatch(h, offset, n)
  {
    if n > 0 {
      CopyMatchAfter(p, h, offset, n - 1);
    }
  }

  // Copying from an earlier occurrence of the same bytes appends exactly those bytes.
  lemma CopyMatchReproduces(text: seq<byte>, to: nat, offset: nat, n: nat)
    requires 1 <= offset <= to && to + n <= |text|
    requires forall j :: to <= j < to + n ==> text[j] == text[j - offset]
    ensures CopyMatch(text[..to], offset, n) == text[..to + n]
  {
  }
}
