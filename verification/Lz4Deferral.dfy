// What lazy matching does: when a match is put off for a longer one a byte later, the next turn
// finds nothing, and the turn after it can still take the longer match.
module Lz4Deferral {
  import opened Wrappers
  import opened Bytes
  import opened Lz4Format
  import opened Lz4Matcher
  import opened Lz4Plan
  import opened Lz4Index

  lemma InsertedIsHead(input: seq<byte>, i: nat, t: Tables)
    requires t.Valid() && i + 4 <= |input|
    ensures Insert(input, i, t).head[HashAt(input, i)] == i % 0x1_0000_0000
  {
    hide Word, Hash4;
  }

  // Truncated to 32 bits a position is itself or far out of the window.
  lemma OwnHeadStopsWalk(i: nat, chain: seq<u32>, attempts: nat)
    requires |chain| == TABLE_SIZE
    ensures Candidates(i, i % 0x1_0000_0000, chain, attempts) == []
  {
  }

  // A position that was just inserted is its own head, so searching it finds nothing.
  lemma ProbeAgainFindsNothing(input: seq<byte>, i: nat, t: Tables)
    requires t.Valid() && i + MF_LIMIT <= |input|
    ensures Probe(input, i, Probe(input, i, t).0).1.None?
  {
    hide Word, Hash4, Insert, Candidates, LongestOf;
    var t1 := Probe(input, i, t).0;
    InsertedIsHead(input, i, t);
    OwnHeadStopsWalk(i, Insert(input, i, t1).chain, ATTEMPTS);
    LongestOfEmpty(input, i, MatchLimit(|input|));
  }

  // Inserted twice, it is also its own predecessor, and every walk that reaches it stays there.
  lemma {:induction false} SelfLinkHoldsWalk(i: nat, p: u32, chain: seq<u32>, attempts: nat)
    requires |chain| == TABLE_SIZE && p < i <= p + MAX_OFFSET && p != SENTINEL && chain[p % TABLE_SIZE] == p
    ensures Candidates(i, p, chain, attempts) == seq(attempts, _ => p as nat)
    decreases attempts
  {
    if attempts > 0 {
      SelfLinkHoldsWalk(i, p, chain, attempts - 1);
    }
  }

  // The match a deferral waits for.
  function DeferredMatch(input: seq<byte>, s: State): (m: (nat, nat))
    requires s.Valid(|input|) && s.i + MF_LIMIT <= |input| && Defers(input, s)
    ensures RealMatch(input, m.0, s.i + 1, m.1) && m.1 > MIN_MATCH
    ensures m.1 == MatchLength(input, m.0, s.i + 1, MatchLimit(|input|))
  {
    Probe(input, s.i + 1, Probe(input, s.i, s.tables).0).1.value
  }

  // The turn after a deferral emits nothing and moves on by one, whatever the tables hold.
  lemma DeferralEmptiesNextTurn(input: seq<byte>, s: State)
    requires s.Valid(|input|) && s.i + MF_LIMIT <= |input| && Defers(input, s)
    ensures var next := TakeTurn(input, s).next;
            && next.anchor == s.anchor && next.i == s.i + 1 && next.i + MF_LIMIT <= |input|
            && !Defers(input, next) && TakeTurn(input, next).emitted.None?
            && TakeTurn(input, next).next.anchor == s.anchor && TakeTurn(input, next).next.i == s.i + 2
  {
    hide Probe;
    var (t1, found) := Probe(input, s.i, s.tables);
    ProbeAgainFindsNothing(input, s.i + 1, t1);
  }

  // The state two turns after a deferral.
  function AfterDeferral(input: seq<byte>, s: State): (r: State)
    requires s.Valid(|input|) && s.i + MF_LIMIT <= |input| && Defers(input, s)
    ensures r.Valid(|input|) && r.anchor == s.anchor && r.i == s.i + 2
  {
    DeferralEmptiesNextTurn(input, s);
    TakeTurn(input, TakeTurn(input, s).next).next
  }

  lemma {:induction false} ExtendIs(input: seq<byte>, c: nat, i: nat, limit: nat, from: nat, length: nat)
    requires c < i && limit <= |input| && from <= length && (length > from ==> i + length <= limit)
    requires forall j :: i + from <= j < i + length ==> input[j] == input[j - (i - c)]
    requires i + length < limit ==> input[c + length] != input[i + length]
    ensures Extend(input, c, i, limit, from) == length
    decreases length - from
  {
    if from < length {
      assert input[i + from] == input[i + from - (i - c)];
      ExtendIs(input, c, i, limit, from + 1, length);
    }
  }

  // At least four equal bytes, and no more: that is the length of the match.
  lemma MatchLengthIs(input: seq<byte>, c: nat, i: nat, limit: nat, length: nat)
    requires c < i && i + length <= limit <= |input| && length >= MIN_MATCH
    requires forall j :: i <= j < i + length ==> input[j] == input[j - (i - c)]
    requires i + length < limit ==> input[c + length] != input[i + length]
    ensures MatchLength(input, c, i, limit) == length
  {
    var there, here := input[c..c + 4], input[i..i + 4];
    forall j | 0 <= j < 4 ensures there[j] == here[j] {
      assert here[j] == input[i + j] == input[i + j - (i - c)];
    }
    ExtendIs(input, c, i, limit, MIN_MATCH, length);
  }

  // A match goes on one byte later at the same offset, one byte shorter.
  lemma MatchLengthLater(input: seq<byte>, c: nat, i: nat, limit: nat)
    requires c < i && i + MIN_MATCH < |input| && limit <= |input| && MatchLength(input, c, i, limit) > MIN_MATCH
    ensures MatchLength(input, c + 1, i + 1, limit) == MatchLength(input, c, i, limit) - 1
  {
    hide MatchLength;
    var length := MatchLength(input, c, i, limit);
    MatchLengthMaximal(input, c, i, limit);
    MatchLengthIs(input, c + 1, i + 1, limit, length - 1);
  }

  // Emitting at i + 2 what is left of a match at i + 1 takes back the byte before: the sequence
  // covers that match whole.
  lemma EmitRestoresDeferred(input: seq<byte>, anchor: nat, i: nat, c: nat, length: nat, t: Tables)
    requires anchor <= i && t.Valid() && length > MIN_MATCH
    requires RealMatch(input, c, i + 1, length) && RealMatch(input, c + 1, i + 2, length - 1)
    ensures var Turn(next, emitted) := Emit(input, anchor, i + 2, c + 1, length - 1, t);
            && emitted.value.offset == i + 1 - c
            && anchor + |emitted.value.literals| <= i + 1
            && anchor + |emitted.value.literals| + emitted.value.length == i + 1 + length
            && next.anchor == next.i == i + 1 + length
  {
    BackwardsMaximal(input, anchor, c + 1, i + 2);
    assert input[i + 1] == input[i + 1 - (i + 1 - c)];
  }

  // The turn at i + 2 emits the deferred match: a sequence at its offset.
  predicate TakesDeferred(input: seq<byte>, s: State)
    requires s.Valid(|input|) && s.i + MF_LIMIT <= |input| && Defers(input, s)
  {
    var next := AfterDeferral(input, s);
    && next.i + MF_LIMIT <= |input|
    && var emitted := TakeTurn(input, next).emitted;
       emitted.Some? && emitted.value.offset == s.i + 1 - DeferredMatch(input, s).0
  }

  // It does so exactly if the loop gets that far, the search at i + 2 visits the position one
  // byte into the deferred match and nothing better, and does not defer again.
  lemma DeferredTakenIff(input: seq<byte>, s: State)
    requires s.Valid(|input|) && s.i + MF_LIMIT <= |input| && Defers(input, s)
    ensures var next, (c, length) := AfterDeferral(input, s), DeferredMatch(input, s);
            TakesDeferred(input, s) <==>
              && s.i + 2 + MF_LIMIT <= |input|
              && FirstLongest(input, s.i + 2, MatchLimit(|input|), Visited(input, s.i + 2, next.tables), c + 1,
                   length - 1)
              && !Defers(input, next)
  {
    hide AfterDeferral, DeferredMatch, MatchLength, Visited, FirstLongest, Probe;
    var next := AfterDeferral(input, s);
    var (c, length) := DeferredMatch(input, s);
    if s.i + 2 + MF_LIMIT <= |input| {
      MatchLengthLater(input, c, s.i + 1, MatchLimit(|input|));
      ProbeIsFirstLongest(input, s.i + 2, next.tables, c + 1, length - 1);
    }
  }

  lemma ProbeIsFirstLongest(input: seq<byte>, i: nat, t: Tables, c: nat, length: nat)
    requires t.Valid() && i + MF_LIMIT <= |input|
    ensures var found, limit := Probe(input, i, t).1, MatchLimit(|input|);
            && (found == Some((c, length)) <==> FirstLongest(input, i, limit, Visited(input, i, t), c, length))
            && (found.Some? ==> found.value.1 == MatchLength(input, found.value.0, i, limit))
  {
    FoundIffFirstLongest(input, i, MatchLimit(|input|), Visited(input, i, t), c, length);
  }

  // When it does, nothing of the deferred match is lost.
  lemma DeferredTakenWhole(input: seq<byte>, s: State)
    requires s.Valid(|input|) && s.i + MF_LIMIT <= |input| && Defers(input, s) && TakesDeferred(input, s)
    ensures var Turn(next, emitted) := TakeTurn(input, AfterDeferral(input, s));
            var start, length := s.anchor + |emitted.value.literals|, DeferredMatch(input, s).1;
            && start <= s.i + 1 && start + emitted.value.length == s.i + 1 + length
            && next.anchor == next.i == s.i + 1 + length
  {
    hide AfterDeferral, DeferredMatch, MatchLength, Visited, FirstLongest, Probe, Backwards, InsertRange;
    var next := AfterDeferral(input, s);
    var (c, length) := DeferredMatch(input, s);
    MatchLengthLater(input, c, s.i + 1, MatchLimit(|input|));
    ProbeIsFirstLongest(input, s.i + 2, next.tables, c + 1, length - 1);
    var t1 := Probe(input, s.i + 2, next.tables).0;
    EmitRestoresDeferred(input, s.anchor, s.i, c, length, t1);
    if s.i + 3 + MF_LIMIT <= |input| {
      EmitRestoresDeferred(input, s.anchor, s.i, c, length, Probe(input, s.i + 3, t1).0);
    }
  }

  // In a run the turn at i + 2 finds at least what is left of the deferred match, unless its
  // search runs out of attempts: it emits something that long or defers to something longer.
  lemma DeferralFindsAgain(input: seq<byte>, s: State, deferred: bool)
    requires s.Valid(|input|) && s.i + 2 + MF_LIMIT <= |input| && IndexedAt(input, s, deferred) && Defers(input, s)
    ensures var next := AfterDeferral(input, s);
            && Indexed(input, next.tables, s.i + 2)
            && (|Visited(input, s.i + 2, next.tables)| < 128 ==>
                 FoundLength(Probe(input, s.i + 2, next.tables).1) >= DeferredMatch(input, s).1 - 1)
  {
    hide Indexed, TakeTurn, Defers, DeferredMatch, MatchLength, Visited, Probe;
    var next := AfterDeferral(input, s);
    var (c, length) := DeferredMatch(input, s);
    TurnIndexed(input, s, deferred);
    DeferralEmptiesNextTurn(input, s);
    TurnIndexed(input, TakeTurn(input, s).next, true);
    if |Visited(input, s.i + 2, next.tables)| < 128 {
      MatchLengthLater(input, c, s.i + 1, MatchLimit(|input|));
      SearchFindsLongest(input, s.i + 2, next.tables);
    }
  }

  // The window holds a match at `at` longer than this.
  predicate LongerAt(input: seq<byte>, at: nat, length: nat)
    requires at + 12 <= |input|
  {
    exists p :: 0 <= p < at && at - p <= 65535 && MatchLength(input, p, at, MatchLimit(|input|)) > length
  }

  // The text has a match at i + 1 for which one of this length at i is put off.
  predicate LongerNext(input: seq<byte>, i: nat, length: nat) {
    length < 128 && i + 13 <= |input| && LongerAt(input, i + 1, length)
  }

  // Neither the search at s.i nor the one at the next position runs out of attempts.
  predicate Uncrowded(input: seq<byte>, s: State)
    requires s.Valid(|input|) && s.i + MF_LIMIT <= |input|
  {
    && |Visited(input, s.i, s.tables)| < 128
    && (s.i + 1 + MF_LIMIT <= |input| ==>
         |Visited(input, s.i + 1, Insert(input, s.i, s.tables))| < 128)
  }

  // Then whether a turn defers is a matter of the text alone.
  lemma DefersInRun(input: seq<byte>, s: State)
    requires s.Valid(|input|) && s.i + MF_LIMIT <= |input|
    requires Indexed(input, s.tables, s.i) && Uncrowded(input, s)
    ensures var found := Probe(input, s.i, s.tables).1;
            && NearestLongest(input, s.i, found)
            && (Defers(input, s) <==> found.Some? && LongerNext(input, s.i, found.value.1))
  {
    hide Indexed, MatchLength, Visited, Insert, Probe, Emit;
    SearchFindsLongest(input, s.i, s.tables);
    ProbeInserts(input, s.i, s.tables);
    if s.i + 1 + MF_LIMIT <= |input| {
      InsertNext(input, s.tables, s.i);
      SearchFindsLongest(input, s.i + 1, Insert(input, s.i, s.tables));
    }
  }

  // And so is whether a deferred match is taken: exactly if what is left of it is the nearest of
  // the longest matches at i + 2, and no longer one waits at i + 3.
  lemma DeferredTakenInRun(input: seq<byte>, s: State, deferred: bool)
    requires s.Valid(|input|) && s.i + 2 + MF_LIMIT <= |input| && IndexedAt(input, s, deferred) && Defers(input, s)
    requires Uncrowded(input, AfterDeferral(input, s))
    ensures var (c, length) := DeferredMatch(input, s);
            TakesDeferred(input, s) <==>
              NearestLongest(input, s.i + 2, Some((c + 1, length - 1))) && !LongerNext(input, s.i + 2, length - 1)
  {
    hide Indexed, TakeTurn, Defers, DeferredMatch, MatchLength, Visited, Probe, TakesDeferred, AfterDeferral,
        LongerNext, Uncrowded, NearestLongest;
    var next := AfterDeferral(input, s);
    var (c, length) := DeferredMatch(input, s);
    DeferralFindsAgain(input, s, deferred);
    DefersInRun(input, next);
    if NearestLongest(input, s.i + 2, Some((c + 1, length - 1))) {
      NearestLongestUnique(input, s.i + 2, Probe(input, s.i + 2, next.tables).1, Some((c + 1, length - 1)));
    }
    ProbeIsFirstLongest(input, s.i + 2, next.tables, c + 1, length - 1);
    DeferredTakenIff(input, s);
  }

  lemma ProbeInserts(input: seq<byte>, i: nat, t: Tables)
    requires t.Valid() && i + MF_LIMIT <= |input|
    ensures Probe(input, i, t).0 == Insert(input, i, t)
  {
  }

  // ---------- Two runs ----------

  // abcd bcdef abcdefghijklmn, cut at n: at 9 the four bytes of abcd match at 0, at 10 the five
  // of bcdef match at 4.
  function Text(n: nat): (text: seq<byte>)
    requires n <= 100
    ensures |text| == n
    ensures forall k :: 0 <= k < n ==> text[k] == Letter(k)
  {
    seq(n, k requires 0 <= k < n => Letter(k) as byte)
  }

  function Letter(k: nat): int {
    97 + if k < 4 then k else if k < 9 then k - 3 else k - 9
  }

  predicate NoSelfLinks(input: seq<byte>, chain: seq<u32>, ins: nat, h: nat)
    requires |chain| == TABLE_SIZE && ins + 3 <= |input|
  {
    forall p :: 0 <= p < ins && HashAt(input, p) == h ==> chain[p % TABLE_SIZE] != p
  }

  // Without self-links of its hash a walk goes strictly down, so early in the text it is short.
  lemma {:induction false} WalkIsShort(input: seq<byte>, i: nat, top: nat, candidate: u32, t: Tables,
      attempts: nat, h: nat)
    requires Indexed(input, t, i + 1) && i + 4 <= |input| && top <= i && NoSelfLinks(input, t.chain, i, h)
    requires candidate == LastWithHash(input, top, h)
    ensures |Candidates(i, candidate, t.chain, attempts)| <= top
    decreases attempts
  {
    hide Word, Hash4;
    if Candidates(i, candidate, t.chain, attempts) != [] {
      assert LinkOk(input, t.chain, candidate);
      WalkIsShort(input, i, candidate, t.chain[candidate % TABLE_SIZE], t, attempts - 1, h);
    }
  }

  lemma EarlySearch(input: seq<byte>, i: nat, t: Tables)
    requires Indexed(input, t, i) && i + MF_LIMIT <= |input| && i < ATTEMPTS
    requires NoSelfLinks(input, t.chain, i, HashAt(input, i))
    ensures NearestLongest(input, i, Probe(input, i, t).1)
  {
    hide Word, Hash4;
    var h, r := HashAt(input, i), Insert(input, i, t);
    InsertNext(input, t, i);
    assert NoSelfLinks(input, r.chain, i, h);
    WalkIsShort(input, i, i, t.head[h], r, ATTEMPTS, h);
    SearchFindsLongest(input, i, t);
  }

  // The four bytes at p and at q are the same.
  predicate SameFour(input: seq<byte>, p: nat, q: nat)
    requires p < q && q + 4 <= |input|
  {
    && input[p] == input[q] && input[p + 1] == input[q + 1]
    && input[p + 2] == input[q + 2] && input[p + 3] == input[q + 3]
  }

  lemma MatchMeansSameFour(input: seq<byte>, p: nat, i: nat, limit: nat)
    requires p < i && i + 4 <= |input| && limit <= |input|
    ensures MatchLength(input, p, i, limit) > 0 ==> SameFour(input, p, i)
  {
    if MatchLength(input, p, i, limit) > 0 {
      var there, here := input[p..p + 4], input[i..i + 4];
      assert there[0] == here[0] && there[1] == here[1] && there[2] == here[2] && there[3] == here[3];
    }
  }

  // Up to position 11 the text has three matches.
  function TextMatch(i: nat): Option<(nat, nat)> {
    if i == 9 then Some((0, 4)) else if i == 10 then Some((4, 5)) else if i == 11 then Some((5, 4)) else None
  }

  lemma TextMatches(n: nat, i: nat)
    requires 22 <= n <= 23 && i <= 11 && i + MF_LIMIT <= n
    ensures NearestLongest(Text(n), i, TextMatch(i))
  {
    hide MatchLength;
    var input, limit := Text(n), MatchLimit(n);
    forall p: nat | p < i && !(i >= 9 && p == if i == 9 then 0 else i - 6)
      ensures MatchLength(input, p, i, limit) == 0
    {
      MatchMeansSameFour(input, p, i, limit);
    }
    if i >= 9 {
      MatchLengthIs(input, if i == 9 then 0 else i - 6, i, limit, if i == 10 then 5 else 4);
    }
  }

  // No position below ins is linked to itself.
  predicate Unlinked(chain: seq<u32>, ins: nat)
    requires |chain| == TABLE_SIZE
  {
    forall p :: 0 <= p < ins ==> chain[p % TABLE_SIZE] != p
  }

  // Searching an early position: what is found, and the tables behind it.
  lemma EarlyProbe(n: nat, i: nat, t: Tables)
    requires 22 <= n <= 23 && i <= 11 && i + MF_LIMIT <= n && Indexed(Text(n), t, i)
    requires NoSelfLinks(Text(n), t.chain, i, HashAt(Text(n), i))
    ensures Probe(Text(n), i, t) == (Insert(Text(n), i, t), TextMatch(i))
  {
    hide Word, Hash4, Indexed, NoSelfLinks, NearestLongest, LongestOf, Candidates, Insert;
    EarlySearch(Text(n), i, t);
    TextMatches(n, i);
    NearestLongestUnique(Text(n), i, Probe(Text(n), i, t).1, TextMatch(i));
  }

  lemma InsertUnlinked(input: seq<byte>, p: nat, t: Tables)
    requires Indexed(input, t, p) && p + 4 <= |input| && p < TABLE_SIZE && Unlinked(t.chain, p)
    ensures Indexed(input, Insert(input, p, t), p + 1) && Unlinked(Insert(input, p, t).chain, p + 1)
  {
    hide Word, Hash4;
    InsertNext(input, t, p);
  }

  lemma PlanQuiet(input: seq<byte>, s: State)
    requires s.Valid(|input|) && s.i + MF_LIMIT <= |input| && TakeTurn(input, s).emitted.None?
    ensures Plan(input, s) == Plan(input, TakeTurn(input, s).next)
  {
    hide TakeTurn;
  }

  // The first nine turns emit nothing.
  lemma {:induction false} QuietTurns(n: nat, i: nat, t: Tables) returns (r: Tables)
    requires 22 <= n <= 23 && i <= 9 && Indexed(Text(n), t, i) && Unlinked(t.chain, i)
    requires State(0, i, t) == StateAt(Text(n), i)
    ensures Indexed(Text(n), r, 9) && Unlinked(r.chain, 9) && State(0, 9, r) == StateAt(Text(n), 9)
    ensures Plan(Text(n), State(0, i, t)) == Plan(Text(n), State(0, 9, r))
    decreases 9 - i
  {
    hide Word, Hash4, Indexed, Plan, Insert, Probe, StateAt;
    r := t;
    if i < 9 {
      StateAtNext(Text(n), i);
      EarlyProbe(n, i, t);
      InsertUnlinked(Text(n), i, t);
      PlanQuiet(Text(n), State(0, i, t));
      r := QuietTurns(n, i + 1, Insert(Text(n), i, t));
    }
  }

  lemma ProbesNineTen(n: nat, t: Tables)
    requires 22 <= n <= 23 && Indexed(Text(n), t, 9) && Unlinked(t.chain, 9)
    ensures var t1 := Insert(Text(n), 9, t);
            var t2 := Insert(Text(n), 10, t1);
            && Probe(Text(n), 9, t) == (t1, Some((0, 4))) && Probe(Text(n), 10, t1) == (t2, Some((4, 5)))
            && Indexed(Text(n), t2, 11) && Unlinked(t2.chain, 11)
  {
    hide Word, Hash4, Indexed, Insert, Probe;
    EarlyProbe(n, 9, t);
    InsertUnlinked(Text(n), 9, t);
    EarlyProbe(n, 10, Insert(Text(n), 9, t));
    InsertUnlinked(Text(n), 10, Insert(Text(n), 9, t));
  }

  // Both runs defer at 9 to the longer match at 10, and reach 11 with 10 inserted twice.
  lemma DefersAtNine(n: nat, t: Tables)
    requires 22 <= n <= 23 && Indexed(Text(n), t, 9) && Unlinked(t.chain, 9)
    ensures var input, s, t1 := Text(n), State(0, 9, t), Insert(Text(n), 9, t);
            && Defers(input, s) && DeferredMatch(input, s) == (4, 5)
            && Plan(input, s) == Plan(input, AfterDeferral(input, s))
            && AfterDeferral(input, s) == State(0, 11, Insert(input, 10, Insert(input, 10, t1)))
  {
    hide Word, Hash4, Indexed, Insert, Probe, Plan;
    var input, s, t1 := Text(n), State(0, 9, t), Insert(Text(n), 9, t);
    ProbesNineTen(n, t);
    ProbeInserts(input, 10, Insert(input, 10, t1));
    ProbeAgainFindsNothing(input, 10, t1);
    PlanQuiet(input, s);
    PlanQuiet(input, State(0, 10, Insert(input, 10, t1)));
  }

  // The search at 11 finds what is left of the deferred match: its hash differs from that of 10.
  lemma ProbeEleven(t: Tables)
    requires Indexed(Text(23), t, 11) && Unlinked(t.chain, 11)
    ensures var t3 := Insert(Text(23), 10, t);
            Indexed(Text(23), t3, 11) && Probe(Text(23), 11, t3) == (Insert(Text(23), 11, t3), Some((5, 4)))
  {
    hide Word, Hash4, Indexed, Probe;
    var input, t3 := Text(23), Insert(Text(23), 10, t);
    InsertAgain(input, t, 10);
    HashesDiffer();
    EarlyProbe(23, 11, t3);
  }

  lemma HashesDiffer()
    ensures HashAt(Text(23), 10) != HashAt(Text(23), 11)
  {
    var input := Text(23);
    assert input[10..14] == [98, 99, 100, 101] && input[11..15] == [99, 100, 101, 102];
    assert Word(input, 10) == 98 + 256 * (99 + 256 * (100 + 256 * 101));
    assert Word(input, 11) == 99 + 256 * (100 + 256 * (101 + 256 * 102));
  }

  // Cut at 23 the run takes the deferred match: bcdef, found again one byte in and extended back.
  lemma RecoveredRun()
    ensures var s := StateAt(Text(23), 9);
            s.i == 9 && Defers(Text(23), s) && DeferredMatch(Text(23), s) == (4, 5) && TakesDeferred(Text(23), s)
    ensures Plan(Text(23), Start()) == [Match(Text(23)[..10], 6, 5), Last(Text(23)[15..], 0)]
  {
    hide Word, Hash4, Indexed, Insert, Probe, InsertRange, StateAt;
    var input := Text(23);
    StartIndexed(input);
    StateAtNext(input, 0);
    var t := QuietTurns(23, 0, EmptyTables());
    DefersAtNine(23, t);
    ProbesNineTen(23, t);
    ProbeEleven(Insert(input, 10, Insert(input, 9, t)));
    var s := AfterDeferral(input, State(0, 9, t));
    BackwardsMaximal(input, 0, 5, 11);
    assert Backwards(input, 0, 5, 11) == 1;
    assert TakeTurn(input, s).emitted == Some(Match(input[..10], 6, 5));
    assert Plan(input, TakeTurn(input, s).next) == [Last(input[15..], 0)];
  }

  // Cut at 22 it ends before it gets there, and emits no match at all.
  lemma LostRun()
    ensures var s := StateAt(Text(22), 9);
            s.i == 9 && Defers(Text(22), s) && DeferredMatch(Text(22), s) == (4, 5) && !TakesDeferred(Text(22), s)
    ensures Plan(Text(22), Start()) == [Last(Text(22), 0)]
  {
    hide Word, Hash4, Indexed, Insert, Probe, InsertRange, StateAt;
    var input := Text(22);
    StartIndexed(input);
    StateAtNext(input, 0);
    var t := QuietTurns(22, 0, EmptyTables());
    DefersAtNine(22, t);
    assert input[0..] == input;
  }
}
