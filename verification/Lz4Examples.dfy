// Blocks in bytes: what a run of equal bytes compresses to, and what one block decodes to.
module Lz4Examples {
  import opened Wrappers
  import opened Bytes
  import opened Lz4Format
  import opened Lz4Matcher
  import opened Lz4Plan
  import opened Lz4Index
  import opened Lz4Deferral
  import opened Lz4Encoder

  function Run(x: byte, n: nat): (text: seq<byte>)
    ensures |text| == n && forall k :: 0 <= k < n ==> text[k] == x
  {
    seq(n, _ => x)
  }

  lemma RunHash(x: byte, n: nat, p: nat)
    requires p + 4 <= n
    ensures HashAt(Run(x, n), p) == HashAt(Run(x, n), 0)
  {
    assert Run(x, n)[p..p + 4] == Run(x, n)[0..4];
  }

  lemma FirstProbe(input: seq<byte>)
    requires |input| >= 12
    ensures Probe(input, 0, EmptyTables()) == (Insert(input, 0, EmptyTables()), None)
  {
    hide Word, Hash4;
    LongestOfEmpty(input, 0, MatchLimit(|input|));
  }

  lemma SecondCandidates(x: byte, n: nat)
    requires n >= 13
    ensures Visited(Run(x, n), 1, Insert(Run(x, n), 0, EmptyTables())) == [0]
  {
    hide Word, Hash4;
    RunHash(x, n, 1);
    var t1 := Insert(Run(x, n), 0, EmptyTables());
    var chain := Insert(Run(x, n), 1, t1).chain;
    assert t1.head[HashAt(Run(x, n), 1)] == 0 && chain[0] == SENTINEL;
    assert Candidates(1, SENTINEL, chain, ATTEMPTS - 1) == [];
  }

  lemma SecondProbe(x: byte, n: nat)
    requires n >= 13
    ensures Probe(Run(x, n), 1, Insert(Run(x, n), 0, EmptyTables())).1 == Some((0, n - 6))
  {
    hide Word, Hash4, Candidates, Insert, MatchLength;
    SecondCandidates(x, n);
    MatchLengthIs(Run(x, n), 0, 1, MatchLimit(n), n - 6);
    LongestOfSnoc(Run(x, n), 1, MatchLimit(n), [], 0);
    assert [] + [0] == [0];
  }

  // At least thirteen equal bytes: one literal, one match that is cut five bytes before the end
  // although the bytes go on agreeing, and five literals.
  lemma RunCompresses(x: byte, n: nat)
    requires n >= 13
    ensures Plan(Run(x, n), Start()) == [Match([x], 1, n - 6), Last(Run(x, 5), 0)]
  {
    hide Word, Hash4, Insert, Probe, InsertRange;
    var input, t1 := Run(x, n), Insert(Run(x, n), 0, EmptyTables());
    FirstProbe(input);
    PlanQuiet(input, Start());
    SecondProbe(x, n);
    var s := State(0, 1, t1);
    assert input[0..1] == [x] && input[n - 5..] == Run(x, 5);
    assert TakeTurn(input, s).emitted == Some(Match([x], 1, n - 6));
    assert Plan(input, TakeTurn(input, s).next) == [Last(Run(x, 5), 0)];
  }

  // Fewer are stored as they are.
  lemma ShortIsStored(input: seq<byte>)
    requires 0 < |input| < 13
    ensures Compressed(input) == [16 * |input|] + input
  {
    hide TakeTurn, Plan;
    EndOfBlock(input);
    PlanTiles(input, Start());
    var qs := Plan(input, Start());
    assert qs == [qs[0]] && qs[1..] == [];
    assert input[0..|input|] == input;
    assert Tiles(input, [], |qs[0].literals|);
    assert qs == [Last(input, 0)];
    var last := EncodeSequence(Last(input, 0));
    assert last == [16 * |input| + 0] + ([] + input) && [] + input == input;
    assert EncodeBlock(qs) == last + EncodeBlock([]) && last + [] == last;
  }

  // Twenty times the letter a, and back.
  lemma TwentyLetters()
    ensures Compressed(Run(0x61, 20)) == [0x1a, 0x61, 0x01, 0x00, 0x50, 0x61, 0x61, 0x61, 0x61, 0x61]
    ensures Decode([0x1a, 0x61, 0x01, 0x00, 0x50, 0x61, 0x61, 0x61, 0x61, 0x61], [], 20) == Some(Run(0x61, 20))
  {
    hide TakeTurn, Plan, Decode;
    RoundTrip(Run(0x61, 20), [], 20);
    assert [] + Run(0x61, 20) == Run(0x61, 20);
    RunCompresses(0x61, 20);
    var match_, last := Match([0x61], 1, 14), Last(Run(0x61, 5), 0);
    assert [match_, last][1..] == [last] && [last][1..] == [];
    assert EncodeSequence(match_) == [0x1a, 0x61, 0x01, 0x00];
    assert EncodeSequence(last) == [0x50, 0x61, 0x61, 0x61, 0x61, 0x61];
  }
}
