// Block compression into a bounded buffer, and the round trip with the decoder.
module Lz4Encoder {
  import opened Wrappers
  import opened Bytes
  import opened Lz4Format
  import opened Lz4Matcher
  import opened Lz4Plan
  import opened Lz4Bounds
  import opened Lz4Index

  // What every writer below does to its buffer: it puts `piece` at `pos` and touches nothing
  // else, or there is no room for it.
  predicate Appended(before: seq<byte>, after: seq<byte>, pos: nat, piece: seq<byte>, r: Option<nat>) {
    && |after| == |before|
    && match r
       case None => pos + |piece| > |before|
       case Some(end) =>
         && end == pos + |piece| <= |before|
         && after[..end] == before[..pos] + piece
         && after[end..] == before[end..]
  }

  lemma AppendedTwice(b0: seq<byte>, b1: seq<byte>, b2: seq<byte>, pos: nat, p1: seq<byte>, p2: seq<byte>, end: nat,
      r: Option<nat>)
    requires Appended(b0, b1, pos, p1, Some(end))
    requires Appended(b1, b2, end, p2, r)
    ensures Appended(b0, b2, pos, p1 + p2, r)
  {
  }

  lemma AppendedNothing(b: seq<byte>, pos: nat)
    requires pos <= |b|
    ensures Appended(b, b, pos, [], Some(pos))
  {
  }

  lemma AppendedSize(before: seq<byte>, after: seq<byte>, pos: nat, piece: seq<byte>, r: Option<nat>)
    requires Appended(before, after, pos, piece, r)
    ensures |after| == |before|
    ensures if pos + |piece| > |before| then r == None else r == Some(pos + |piece|)
  {
  }

  lemma AppendedNone(before: seq<byte>, after: seq<byte>, pos: nat, piece: seq<byte>)
    requires |after| == |before| < pos + |piece|
    ensures Appended(before, after, pos, piece, None)
  {
  }

  method WriteByte(output: array<byte>, pos: nat, b: byte) returns (r: Option<nat>)
    requires pos <= output.Length
    modifies output
    ensures Appended(old(output[..]), output[..], pos, [b], r)
  {
    if pos >= output.Length {
      return None;
    }
    output[pos] := b;
    return Some(pos + 1);
  }

  method WriteLength(output: array<byte>, start: nat, length0: nat) returns (r: Option<nat>)
    requires start <= output.Length
    modifies output
    ensures Appended(old(output[..]), output[..], start, EncodeExtension(length0), r)
  {
    hide Appended;
    var pos: nat, length: nat := start, length0;
    ghost var first, written := output[..], [];
    AppendedNothing(first, start);
    while length >= 255
      invariant pos == start + |written| <= output.Length && first == old(output[..])
      invariant EncodeExtension(length0) == written + EncodeExtension(length)
      invariant Appended(first, output[..], start, written, Some(pos))
      decreases length
    {
      ghost var before := output[..];
      var next := WriteByte(output, pos, 255);
      AppendedSize(before, output[..], pos, [255], next);
      if next.None? {
        AppendedNone(first, output[..], start, EncodeExtension(length0));
        return None;
      }
      AppendedTwice(first, before, output[..], start, written, [255], pos, next);
      Regroup(written, [255], EncodeExtension(length - 255));
      written := written + [255];
      pos := pos + 1;
      length := length - 255;
    }
    ghost var before := output[..];
    r := WriteByte(output, pos, length);
    AppendedTwice(first, before, output[..], start, written, [length as byte], pos, r);
  }

  method WriteSlice(output: array<byte>, pos: nat, input: seq<byte>, from: nat, n: nat) returns (r: Option<nat>)
    requires pos <= output.Length && from + n <= |input|
    modifies output
    ensures Appended(old(output[..]), output[..], pos, input[from..from + n], r)
  {
    if pos + n > output.Length {
      return None;
    }
    forall k | 0 <= k < n {
      output[pos + k] := input[from + k];
    }
    return Some(pos + n);
  }

  // One full sequence: token, literal length, literals, offset, match length.
  method WriteMatch(output: array<byte>, start: nat, input: seq<byte>, anchor: nat, matchStart: nat, offset: nat,
      length: nat)
    returns (r: Option<nat>)
    requires start <= output.Length && anchor <= matchStart <= |input|
    requires 1 <= offset <= MAX_OFFSET && length >= MIN_MATCH
    modifies output
    ensures Appended(old(output[..]), output[..], start, EncodeSequence(Match(input[anchor..matchStart], offset,
        length)), r)
  {
    hide Appended, EncodeExtension;
    ghost var first := output[..];
    var literalLength, matchCode := matchStart - anchor, length - MIN_MATCH;
    r := WriteLiterals(output, start, input, anchor, literalLength, Nibble(matchCode));
    ghost var b1, r1 := output[..], r;
    ghost var head := [16 * Nibble(literalLength) + Nibble(matchCode)]
                      + (EncodeLength(literalLength) + input[anchor..matchStart]);
    AppendedSize(first, b1, start, head, r1);
    ghost var whole := EncodeSequence(Match(input[anchor..matchStart], offset, length));
    assert whole == head + EncodeMatch(offset, length) by {
      Regroup(EncodeLength(literalLength), input[anchor..matchStart], EncodeMatch(offset, length));
      Regroup([16 * Nibble(literalLength) + Nibble(matchCode)],
          EncodeLength(literalLength) + input[anchor..matchStart], EncodeMatch(offset, length));
    }
    if r.None? {
      AppendedNone(first, output[..], start, whole);
      return;
    }
    r := WriteMatchCode(output, r.value, offset, matchCode);
    AppendedTwice(first, b1, output[..], start, head, EncodeMatch(offset, length), r1.value, r);
  }

  method WriteLiterals(output: array<byte>, start: nat, input: seq<byte>, anchor: nat, n: nat,
      low: nat) returns (r: Option<nat>)
    requires start <= output.Length && anchor + n <= |input| && low < 16
    modifies output
    ensures Appended(old(output[..]), output[..], start,
                     [16 * Nibble(n) + low] + (EncodeLength(n) + input[anchor..anchor + n]), r)
  {
    hide Appended, EncodeExtension;
    ghost var first := output[..];
    var token: byte := 16 * Nibble(n) + low;
    var literals := input[anchor..anchor + n];
    ghost var whole := [token] + (EncodeLength(n) + literals);
    Regroup([token], EncodeLength(n), literals);
    r := WriteByte(output, start, token);
    ghost var b1, r1 := output[..], r;
    AppendedSize(first, b1, start, [token], r1);
    if r.None? {
      AppendedNone(first, output[..], start, whole);
      return;
    }
    if n >= 15 {
      r := WriteLength(output, r.value, n - 15);
    } else {
      AppendedNothing(b1, r.value);
    }
    ghost var b2, r2 := output[..], r;
    AppendedTwice(first, b1, b2, start, [token], EncodeLength(n), r1.value, r2);
    AppendedSize(first, b2, start, [token] + EncodeLength(n), r2);
    if r.None? {
      AppendedNone(first, output[..], start, whole);
      return;
    }
    r := WriteSlice(output, r.value, input, anchor, n);
    AppendedTwice(first, b2, output[..], start, [token] + EncodeLength(n), literals, r2.value, r);
  }

  method WriteMatchCode(output: array<byte>, start: nat, offset: nat, matchCode: nat) returns (r: Option<nat>)
    requires start <= output.Length && 1 <= offset <= MAX_OFFSET
    modifies output
    ensures Appended(old(output[..]), output[..], start, EncodeMatch(offset, matchCode + MIN_MATCH), r)
  {
    hide EncodeExtension;
    ghost var first := output[..];
    ghost var pair: seq<byte> := [offset % 256, offset / 256];
    if start + 2 > output.Length {
      return None;
    }
    output[start] := offset % 256;
    output[start + 1] := offset / 256;
    ghost var b1 := output[..];
    assert Appended(first, b1, start, pair, Some(start + 2));
    r := Some(start + 2);
    if matchCode >= 15 {
      r := WriteLength(output, start + 2, matchCode - 15);
    } else {
      AppendedNothing(b1, start + 2);
    }
    AppendedTwice(first, b1, output[..], start, pair, EncodeLength(matchCode), start + 2, r);
  }

  // ---------- The round trip ----------

  // Decoding a compressed block restores its text after any window, given room for both, and
  // fails only for lack of room.
  lemma RoundTrip(input: seq<byte>, window: seq<byte>, cap: nat)
    ensures Decode(Compressed(input), window, cap)
         == if |window| + |input| <= cap then Some(window + input) else None
  {
    if input == [] {
      assert window + input == window;
      assert ParseBlock([]) == Some([]) && Interpret([], window) == Some(window);
    } else {
      var qs := Plan(input, Start());
      PlanTiles(input, Start());
      assert input[..0] == [] && window + [] == window;
      TilesMean(input, qs, 0);
      ParseEncode(qs);
      InterpretBehind(qs, window, []);
    }
  }

  // A block that restores `text` after any window, given room for both, and fails only for
  // lack of room.
  ghost predicate Restores(block: seq<byte>, text: seq<byte>) {
    forall window: seq<byte>, cap: nat ::
      Decode(block, window, cap) == if |window| + |text| <= cap then Some(window + text) else None
  }

  lemma CompressedRestores(input: seq<byte>)
    ensures Restores(Compressed(input), input)
  {
    forall window: seq<byte>, cap: nat
      ensures Decode(Compressed(input), window, cap) == if |window| + |input| <= cap then Some(window + input) else None
    {
      RoundTrip(input, window, cap);
    }
  }

  // ---------- The compressor ----------

  // Inserts position i and searches from the head it replaced.
  method ProbePosition(input: seq<byte>, i: nat, head: array<u32>, chain: array<u32>) returns (found: Option<(nat,
      nat)>)
    requires i + MF_LIMIT <= |input|
    requires head.Length == TABLE_SIZE && chain.Length == TABLE_SIZE && head != chain
    modifies head, chain
    ensures (Tables(head[..], chain[..]), found) == Probe(input, i, Tables(old(head[..]), old(chain[..])))
  {
    hide Word, Hash4, LongestOf, Candidates;
    var previous := head[Hash4(Word(input, i))];
    InsertPosition(input, i, head, chain);
    found := FindMatch(input, i, MatchLimit(|input|), previous, chain);
  }

  method ExtendBackwards(input: seq<byte>, anchor: nat, candidate: nat, i: nat) returns (b: nat)
    requires candidate < i <= |input| && anchor <= i
    ensures b == Backwards(input, anchor, candidate, i)
  {
    var c: nat, matchStart: nat := candidate, i;
    while matchStart > anchor && c > 0 && input[c - 1] == input[matchStart - 1]
      invariant c < matchStart <= i && anchor <= matchStart
      invariant Backwards(input, anchor, candidate, i) == Backwards(input, anchor, c, matchStart) + (i - matchStart)
      decreases c
    {
      c := c - 1;
      matchStart := matchStart - 1;
    }
    b := i - matchStart;
  }

  // Keeps the positions inside a match in the chains.
  method InsertInside(input: seq<byte>, from: nat, to: nat, head: array<u32>, chain: array<u32>)
    requires from <= to && to + 3 <= |input|
    requires head.Length == TABLE_SIZE && chain.Length == TABLE_SIZE && head != chain
    modifies head, chain
    ensures Tables(head[..], chain[..]) == InsertRange(input, from, to, Tables(old(head[..]), old(chain[..])))
  {
    hide Insert;
    ghost var all := InsertRange(input, from, to, Tables(head[..], chain[..]));
    var inside := from;
    while inside < to
      invariant from <= inside <= to
      invariant all == InsertRange(input, inside, to, Tables(head[..], chain[..]))
    {
      InsertPosition(input, inside, head, chain);
      inside := inside + 1;
    }
  }

  function Piece(emitted: Option<Sequence>): seq<byte>
    requires emitted.Some? ==> ValidSequence(emitted.value)
  {
    if emitted.Some? then EncodeSequence(emitted.value) else []
  }

  // Emits the match found at i: extends it backwards, writes it and inserts what it covers.
  method EmitMatch(input: seq<byte>, output: array<byte>, pos: nat, anchor: nat, i: nat, found: (nat, nat),
                   head: array<u32>, chain: array<u32>)
    returns (r: Option<nat>)
    requires anchor <= i && RealMatch(input, found.0, i, found.1) && pos <= output.Length
    requires head.Length == TABLE_SIZE && chain.Length == TABLE_SIZE && head != chain
    requires output as object != head && output as object != chain
    modifies output, head, chain
    ensures var turn := Emit(input, anchor, i, found.0, found.1, Tables(old(head[..]), old(chain[..])));
            && Appended(old(output[..]), output[..], pos, EncodeSequence(turn.emitted.value), r)
            && (r.Some? ==> turn.next == State(i + found.1, i + found.1, Tables(head[..], chain[..])))
  {
    hide EncodeSequence, Appended, InsertRange;
    var b := ExtendBackwards(input, anchor, found.0, i);
    var length := found.1 + b;
    r := WriteMatch(output, pos, input, anchor, i - b, i - found.0, length);
    if r.Some? {
      InsertInside(input, i + 1, i + found.1, head, chain);
    }
  }

  // One turn of the outer loop.
  method CompressTurn(input: seq<byte>, output: array<byte>, pos: nat, anchor: nat, i: nat, head: array<u32>,
      chain: array<u32>)
    returns (r: Option<(nat, nat, nat)>)
    requires anchor <= i && i + MF_LIMIT <= |input| && pos <= output.Length
    requires head.Length == TABLE_SIZE && chain.Length == TABLE_SIZE && head != chain
    requires output as object != head && output as object != chain
    modifies output, head, chain
    ensures var Turn(next, emitted) := TakeTurn(input, State(anchor, i, Tables(old(head[..]), old(chain[..]))));
            match r
            case None => Appended(old(output[..]), output[..], pos, Piece(emitted), None)
            case Some((pos', anchor', i')) =>
              && next == State(anchor', i', Tables(head[..], chain[..]))
              && Appended(old(output[..]), output[..], pos, Piece(emitted), Some(pos'))
  {
    hide Probe, Emit, EncodeSequence, Appended;
    AppendedNothing(output[..], pos);
    var found := ProbePosition(input, i, head, chain);
    if found.Some? && found.value.1 < LAZY_LENGTH && i + 1 + MF_LIMIT <= |input| {
      var later := ProbePosition(input, i + 1, head, chain);
      if later.Some? && later.value.1 > found.value.1 {
        return Some((pos, anchor, i + 1));
      }
    }
    if found.None? {
      return Some((pos, anchor, i + 1));
    }
    var end := EmitMatch(input, output, pos, anchor, i, found.value, head, chain);
    if end.None? {
      return None;
    }
    return Some((end.value, i + found.value.1, i + found.value.1));
  }

  method CompressBlock(input: seq<byte>, output: array<byte>) returns (r: Option<nat>)
    modifies output
    ensures Appended(old(output[..]), output[..], 0, Compressed(input), r)
    ensures r.Some? ==> r.value <= output.Length && Restores(output[..r.value], input)
    ensures output.Length >= |input| + |input| / 255 + 2 ==> r.Some?
  {
    hide Appended, TakeTurn, EncodeSequence, StateAt, IndexedAt, Deferred, Restores, Compressed;
    CompressedSize(input);
    CompressedRestores(input);
    ghost var first := output[..];
    AppendedNothing(first, 0);
    if |input| == 0 {
      AppendedIs(first, output[..], Compressed(input), Some(0));
      return Some(0);
    }
    CompressedIsPlan(input);
    var head: array<u32> := new u32[TABLE_SIZE](_ => SENTINEL);
    var chain: array<u32> := new u32[TABLE_SIZE](_ => SENTINEL);
    assert Tables(head[..], chain[..]) == EmptyTables();
    var pos: nat, anchor: nat, i: nat := 0, 0, 0;
    ghost var written: seq<byte> := [];
    ghost var turns: nat := 0;
    StateAtNext(input, 0);
    if |input| <= U32_MAX { AlwaysIndexed(input, 0); }
    while i + MF_LIMIT <= |input|
      invariant State(anchor, i, Tables(head[..], chain[..])) == StateAt(input, turns)
      invariant |input| <= U32_MAX ==>
                  IndexedAt(input, State(anchor, i, Tables(head[..], chain[..])), Deferred(input, turns))
      invariant anchor <= i <= |input| && pos <= output.Length
      invariant Appended(first, output[..], 0, written, Some(pos))
      invariant Compressed(input) == written + EncodeBlock(Plan(input, State(anchor, i, Tables(head[..], chain[..]))))
      decreases |input| - i
    {
      ghost var s, before := State(anchor, i, Tables(head[..], chain[..])), output[..];
      ghost var turn := TakeTurn(input, s);
      PlanTurn(input, s);
      StateAtNext(input, turns);
      var step := CompressTurn(input, output, pos, anchor, i, head, chain);
      ghost var rest := EncodeBlock(Plan(input, turn.next));
      Regroup(written, Piece(turn.emitted), rest);
      if step.None? {
        RanOut(first, before, output[..], pos, written, Piece(turn.emitted), rest);
        AppendedIs(first, output[..], Compressed(input), None);
        return None;
      }
      AppendedTwice(first, before, output[..], 0, written, Piece(turn.emitted), pos, Some(step.value.0));
      AppendedSize(before, output[..], pos, Piece(turn.emitted), Some(step.value.0));
      written := written + Piece(turn.emitted);
      turns := turns + 1;
      if |input| <= U32_MAX { AlwaysIndexed(input, turns); }
      pos, anchor, i := step.value.0, step.value.1, step.value.2;
    }
    ghost var before := output[..];
    LastSequence(input, anchor);
    r := WriteLiterals(output, pos, input, anchor, |input| - anchor, 0);
    AppendedTwice(first, before, output[..], 0, written, EncodeSequence(Last(input[anchor..], 0)), pos, r);
    AppendedIs(first, output[..], Compressed(input), r);
  }

  lemma AppendedIs(before: seq<byte>, after: seq<byte>, piece: seq<byte>, r: Option<nat>)
    requires Appended(before, after, 0, piece, r)
    ensures if |piece| > |before| then r == None
            else r == Some(|piece|) && |after| == |before| && after[..|piece|] == piece
  {
  }

  lemma CompressedIsPlan(input: seq<byte>)
    requires input != []
    ensures Compressed(input) == EncodeBlock(Plan(input, Start()))
  {
  }

  lemma LastSequence(input: seq<byte>, anchor: nat)
    requires anchor <= |input|
    ensures var n := |input| - anchor;
            && EncodeBlock([Last(input[anchor..], 0)]) == EncodeSequence(Last(input[anchor..], 0))
            && EncodeSequence(Last(input[anchor..],
                0)) == [16 * Nibble(n) + 0] + (EncodeLength(n) + input[anchor..anchor + n])
  {
  }

  // Not enough room for a piece is not enough room for the whole.
  lemma RanOut(first: seq<byte>, before: seq<byte>, after: seq<byte>, pos: nat, written: seq<byte>, piece: seq<byte>,
      rest: seq<byte>)
    requires Appended(first, before, 0, written, Some(pos))
    requires Appended(before, after, pos, piece, None)
    ensures Appended(first, after, 0, (written + piece) + rest, None)
  {
  }
}
