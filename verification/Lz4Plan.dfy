// The compressor's decisions, apart from where its output goes: which sequences cover the
// input, turn by turn of the outer loop.
module Lz4Plan {
  import opened Wrappers
  import opened Bytes
  import opened Lz4Format
  import opened Lz4Matcher

  const LAST_LITERALS: nat := 5
  const MF_LIMIT: nat := 12
  const LAZY_LENGTH: nat := 128

  function MatchLimit(n: nat): (limit: nat)
    ensures limit <= n
  {
    if n >= LAST_LITERALS then n - LAST_LITERALS else 0
  }

  // What one insertion followed by a search from the head it replaced finds at position i.
  function Probe(input: seq<byte>, i: nat, t: Tables): (r: (Tables, Option<(nat, nat)>))
    requires t.Valid() && i + MF_LIMIT <= |input|
    ensures r.0.Valid()
    ensures r.1.Some? ==> RealMatch(input, r.1.value.0, i, r.1.value.1)
  {
    var t1 := Insert(input, i, t);
    var previous := t.head[Hash4(Word(input, i))];
    (t1, LongestOf(input, i, MatchLimit(|input|), Candidates(i, previous, t1.chain, ATTEMPTS)))
  }

  // The bytes at i repeat those at c, close enough to be referred to, and end five before the end.
  predicate RealMatch(input: seq<byte>, c: nat, i: nat, length: nat) {
    && c < i && i - c <= 65535
    && length >= 4 && i + length + 5 <= |input|
    && forall j :: i <= j < i + length ==> input[j] == input[j - (i - c)]
  }

  // How many bytes before both positions agree, stopping at the pending literals' start.
  function Backwards(input: seq<byte>, anchor: nat, c: nat, i: nat): (b: nat)
    requires c < i <= |input| && anchor <= i
    ensures b <= c && anchor + b <= i
    ensures forall j :: i - b <= j < i ==> input[j] == input[j - (i - c)]
  {
    if i > anchor && c > 0 && input[c - 1] == input[i - 1]
    then Backwards(input, anchor, c - 1, i - 1) + 1
    else 0
  }

  datatype State = State(anchor: nat, i: nat, tables: Tables) {
    predicate Valid(n: nat) {
      anchor <= i <= n && tables.Valid()
    }
  }

  // The extension covers equal bytes at the same offset, never reaches into emitted text, and
  // goes as far as that allows.
  lemma {:induction false} BackwardsMaximal(input: seq<byte>, anchor: nat, c: nat, i: nat)
    requires c < i <= |input| && anchor <= i
    ensures var b := Backwards(input, anchor, c, i);
            && b <= c && anchor + b <= i
            && (forall j :: i - b <= j < i ==> input[j] == input[j - (i - c)])
            && (b < c && anchor + b < i ==> input[c - b - 1] != input[i - b - 1])
  {
    if i > anchor && c > 0 && input[c - 1] == input[i - 1] {
      BackwardsMaximal(input, anchor, c - 1, i - 1);
    }
  }

  // One turn of the outer loop: where it leads and the sequence it emits, if any.
  datatype Turn = Turn(next: State, emitted: Option<Sequence>)

  function TakeTurn(input: seq<byte>, s: State): (r: Turn)
    requires s.Valid(|input|) && s.i + MF_LIMIT <= |input|
    ensures r.next.Valid(|input|) && s.i < r.next.i
    ensures r.emitted.Some? ==> r.emitted.value.Match? && ValidSequence(r.emitted.value)
  {
    var (t1, found) := Probe(input, s.i, s.tables);
    if found.None? then Turn(State(s.anchor, s.i + 1, t1), None)
    else if found.value.1 < LAZY_LENGTH && s.i + 1 + MF_LIMIT <= |input| then
      var (t2, later) := Probe(input, s.i + 1, t1);
      if later.Some? && later.value.1 > found.value.1 then Turn(State(s.anchor, s.i + 1, t2), None)
      else Emit(input, s.anchor, s.i, found.value.0, found.value.1, t2)
    else Emit(input, s.anchor, s.i, found.value.0, found.value.1, t1)
  }

  function Emit(input: seq<byte>, anchor: nat, i: nat, c: nat, length: nat, t: Tables): (r: Turn)
    requires anchor <= i && t.Valid() && RealMatch(input, c, i, length)
    ensures r.next.Valid(|input|) && i < r.next.i
    ensures r.emitted.Some? && r.emitted.value.Match? && ValidSequence(r.emitted.value)
  {
    var b := Backwards(input, anchor, c, i);
    var end := i + length;
    Turn(State(end, end, InsertRange(input, i + 1, end, t)), Some(Match(input[anchor..i - b], i - c, length + b)))
  }

  // The sequence a turn emits, if any, before those of the later turns.
  function Prepend(emitted: Option<Sequence>, rest: seq<Sequence>): (qs: seq<Sequence>)
    requires emitted.Some? ==> emitted.value.Match? && ValidSequence(emitted.value)
    requires ValidBlock(rest) && |rest| > 0
    ensures ValidBlock(qs) && |qs| > 0
  {
    if emitted.None? then rest else [emitted.value] + rest
  }

  // All the sequences emitted from a state on.
  function Plan(input: seq<byte>, s: State): (qs: seq<Sequence>)
    requires s.Valid(|input|)
    ensures ValidBlock(qs) && |qs| > 0
    decreases |input| - s.i
  {
    if s.i + MF_LIMIT > |input| then [Last(input[s.anchor..], 0)]
    else
      hide TakeTurn, ValidBlock;
      var turn := TakeTurn(input, s);
      Prepend(turn.emitted, Plan(input, turn.next))
  }

  function EmptyTables(): (t: Tables)
    ensures t.Valid()
    ensures forall k :: 0 <= k < TABLE_SIZE ==> t.head[k] == t.chain[k] == SENTINEL
  {
    Tables(seq(TABLE_SIZE, _ => SENTINEL), seq(TABLE_SIZE, _ => SENTINEL))
  }

  function Start(): State {
    State(0, 0, EmptyTables())
  }

  // The whole compressed block; nothing at all for an empty input.
  function Compressed(input: seq<byte>): seq<byte> {
    if input == [] then [] else EncodeBlock(Plan(input, Start()))
  }

  lemma PlanTurn(input: seq<byte>, s: State)
    requires s.Valid(|input|) && s.i + MF_LIMIT <= |input|
    ensures var turn := TakeTurn(input, s);
            EncodeBlock(Plan(input, s)) ==
              (if turn.emitted.None? then [] else EncodeSequence(turn.emitted.value)) + EncodeBlock(Plan(input,
                  turn.next))
  {
  }

  // ---------- What every plan guarantees ----------

  // The sequences tile the input in order, from `anchor` on.
  predicate Tiles(input: seq<byte>, qs: seq<Sequence>, anchor: nat) {
    if qs == [] then anchor == |input|
    else
      var start := anchor + |qs[0].literals|;
      && start <= |input|
      && qs[0].literals == input[anchor..start]
      && (qs[0].Match? ==> MatchObeysEndConditions(input, qs[0], start))
      && Tiles(input, qs[1..], if qs[0].Last? then start else start + qs[0].length)
  }

  // LZ4 Block Format Description, "End of block conditions": a match starts at least 12 bytes
  // before the end of the text and ends at least 5 before it. It is cut short only there.
  predicate MatchObeysEndConditions(input: seq<byte>, q: Sequence, start: nat)
    requires q.Match?
  {
    && 4 <= q.length && 1 <= q.offset <= 65535 && q.offset <= start
    && start + 12 <= |input| && start + q.length + 5 <= |input|
    && (forall j :: start <= j < start + q.length ==> input[j] == input[j - q.offset])
    && (start + q.length + 5 < |input| ==> input[start + q.length] != input[start + q.length - q.offset])
  }

  // A match found goes on until the bytes differ or five are left.
  lemma ProbeGoesOn(input: seq<byte>, i: nat, t: Tables)
    requires t.Valid() && i + 12 <= |input| && Probe(input, i, t).1.Some?
    ensures var (c, length) := Probe(input, i, t).1.value;
            && RealMatch(input, c, i, length)
            && (i + length + 5 < |input| ==> input[c + length] != input[i + length])
  {
    hide Word, Hash4, Insert, Candidates, MatchLength;
    var (c, _) := Probe(input, i, t).1.value;
    MatchLengthMaximal(input, c, i, MatchLimit(|input|));
  }

  // An emitted sequence covers exactly the text between the old and the new anchor.
  lemma TurnTiles(input: seq<byte>, s: State)
    requires s.Valid(|input|) && s.i + MF_LIMIT <= |input|
    ensures var Turn(next, emitted) := TakeTurn(input, s);
            match emitted
            case None => next.anchor == s.anchor
            case Some(q) =>
              var start := s.anchor + |q.literals|;
              && start <= |input| && q.literals == input[s.anchor..start]
              && MatchObeysEndConditions(input, q, start) && next.anchor == start + q.length
  {
    hide Probe, MatchLimit;
    var (t1, found) := Probe(input, s.i, s.tables);
    if found.Some? {
      ProbeGoesOn(input, s.i, s.tables);
      var b := Backwards(input, s.anchor, found.value.0, s.i);
      assert |input[s.anchor..s.i - b]| == s.i - b - s.anchor;
    }
  }

  lemma TilesCons(input: seq<byte>, q: Sequence, rest: seq<Sequence>, anchor: nat)
    requires q.Match? && anchor + |q.literals| <= |input|
    requires q.literals == input[anchor..anchor + |q.literals|]
    requires MatchObeysEndConditions(input, q, anchor + |q.literals|)
    requires Tiles(input, rest, anchor + |q.literals| + q.length)
    ensures Tiles(input, [q] + rest, anchor)
  {
  }

  lemma {:induction false} PlanTiles(input: seq<byte>, s: State)
    requires s.Valid(|input|)
    ensures Tiles(input, Plan(input, s), s.anchor)
    decreases |input| - s.i
  {
    hide TakeTurn, MatchObeysEndConditions, Tiles;
    if s.i + MF_LIMIT > |input| {
      LastTiles(input, s.anchor);
    } else {
      var turn := TakeTurn(input, s);
      TurnTiles(input, s);
      PlanTiles(input, turn.next);
      if turn.emitted.Some? {
        TilesCons(input, turn.emitted.value, Plan(input, turn.next), s.anchor);
      }
    }
  }

  lemma LastTiles(input: seq<byte>, anchor: nat)
    requires anchor <= |input|
    ensures Tiles(input, [Last(input[anchor..], 0)], anchor)
  {
  }

  // The last sequence, and only it, is literals alone.
  predicate LiteralsOnlyAtEnd(qs: seq<Sequence>) {
    && |qs| > 0 && qs[|qs| - 1].Last? && qs[|qs| - 1].spare == 0
    && forall k :: 0 <= k < |qs| - 1 ==> qs[k].Match?
  }

  lemma {:induction false} PlanEnds(input: seq<byte>, s: State)
    requires s.Valid(|input|)
    ensures LiteralsOnlyAtEnd(Plan(input, s))
    decreases |input| - s.i
  {
    hide TakeTurn;
    if s.i + MF_LIMIT <= |input| {
      PlanEnds(input, TakeTurn(input, s).next);
    }
  }

  lemma {:induction false} LastLiterals(input: seq<byte>, qs: seq<Sequence>, anchor: nat)
    requires Tiles(input, qs, anchor) && LiteralsOnlyAtEnd(qs)
    requires anchor == 0 || anchor + 5 <= |input|
    ensures var n := |qs[|qs| - 1].literals|;
            n == |input| || n >= 5
    ensures |qs| > 1 ==> |input| > 12
  {
    if |qs| > 1 {
      LastLiterals(input, qs[1..], anchor + |qs[0].literals| + qs[0].length);
    } else {
      assert qs[1..] == [];
    }
  }

  // The end-of-block conditions of the format: the last sequence is literals alone, at least
  // five of them unless the whole input is shorter, and inputs below 13 bytes hold no match.
  // (PlanTiles has the third: a match starts 12 bytes before the end.)
  lemma EndOfBlock(input: seq<byte>)
    ensures var qs := Plan(input, Start());
            && LiteralsOnlyAtEnd(qs)
            && (|qs[|qs| - 1].literals| >= 5 || |qs[|qs| - 1].literals| == |input|)
            && (|input| < 13 ==> |qs| == 1)
  {
    PlanTiles(input, Start());
    PlanEnds(input, Start());
    LastLiterals(input, Plan(input, Start()), 0);
  }

  // Whatever tiles the text means that text, wherever it is placed.
  lemma {:induction false} TilesMean(input: seq<byte>, qs: seq<Sequence>, anchor: nat)
    requires anchor <= |input| && Tiles(input, qs, anchor)
    ensures Interpret(qs, input[..anchor]) == Some(input)
  {
    hide CopyMatch;
    if qs == [] {
      assert input[..anchor] == input;
    } else {
      var q, start := qs[0], anchor + |qs[0].literals|;
      assert input[..anchor] + input[anchor..start] == input[..start];
      if q.Match? {
        CopyMatchReproduces(input, start, q.offset, q.length);
        TilesMean(input, qs[1..], start + q.length);
      } else {
        TilesMean(input, qs[1..], start);
      }
    }
  }

  // ---------- Size ----------

  // Every sequence before the last pays for itself, up to one byte in 255.
  lemma MatchSize(q: Sequence)
    requires q.Match? && ValidSequence(q)
    ensures 255 * |EncodeSequence(q)| <= 256 * (|q.literals| + q.length)
  {
  }

  lemma {:induction false} TilesSize(input: seq<byte>, qs: seq<Sequence>, anchor: nat)
    requires anchor <= |input| && Tiles(input, qs, anchor) && ValidBlock(qs)
    ensures 255 * |EncodeBlock(qs)| <= 256 * (|input| - anchor) + 510
  {
    hide MatchObeysEndConditions;
    if qs != [] {
      var q, start := qs[0], anchor + |qs[0].literals|;
      if q.Match? {
        MatchSize(q);
        TilesSize(input, qs[1..], start + q.length);
      } else {
        assert qs[1..] == [];
      }
    }
  }

  lemma CompressedSize(input: seq<byte>)
    ensures |Compressed(input)| <= |input| + |input| / 255 + 2
    ensures input == [] <==> Compressed(input) == []
  {
    if input != [] {
      PlanTiles(input, Start());
      TilesSize(input, Plan(input, Start()), 0);
    }
  }
}
