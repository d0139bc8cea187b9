// The hash tables over a whole run: they always describe the text read so far, and what that
// means for the candidates a search visits.
module Lz4Index {
  import opened Wrappers
  import opened Bytes
  import opened Lz4Format
  import opened Lz4Matcher
  import opened Lz4Plan

  function HashAt(input: seq<byte>, p: nat): (h: nat)
    requires p + 4 <= |input|
    ensures h < TABLE_SIZE
  {
    Hash4(Word(input, p))
  }

  // Positions 0 .. ins can be hashed.
  predicate Hashable(input: seq<byte>, ins: nat) {
    |input| <= U32_MAX && (ins == 0 || ins + 3 <= |input|)
  }

  // The greatest position below ins whose four bytes hash to h, or the sentinel.
  function LastWithHash(input: seq<byte>, ins: nat, h: nat): (last: u32)
    requires Hashable(input, ins)
    ensures last == SENTINEL ==> forall p :: 0 <= p < ins ==> HashAt(input, p) != h
    ensures last != SENTINEL ==> last < ins && HashAt(input, last) == h
    ensures last != SENTINEL ==> forall p :: last < p < ins ==> HashAt(input, p) != h
  {
    if ins == 0 then SENTINEL
    else if HashAt(input, ins - 1) == h then ins - 1
    else LastWithHash(input, ins - 1, h)
  }

  // The tables after inserting exactly the positions below ins: each head is the last position
  // with its hash; the chain slot of a position still in reach holds its predecessor, or the
  // position itself if it was inserted twice; slots without an owner are untouched.
  predicate Indexed(input: seq<byte>, t: Tables, ins: nat): (yes: bool)
    ensures yes ==> t.Valid() && Hashable(input, ins)
  {
    && t.Valid() && Hashable(input, ins)
    && (forall h :: 0 <= h < TABLE_SIZE ==> t.head[h] == LastWithHash(input, ins, h))
    && (forall p :: 0 <= p < ins <= p + 0x1_0000 ==> LinkOk(input, t.chain, p))
    && (forall k :: ins <= k < TABLE_SIZE ==> t.chain[k] == SENTINEL)
  }

  predicate LinkOk(input: seq<byte>, chain: seq<u32>, p: nat)
    requires |chain| == TABLE_SIZE && Hashable(input, p) && p + 4 <= |input|
  {
    var link := chain[p % 0x1_0000];
    link == p || link == LastWithHash(input, p, HashAt(input, p))
  }

  lemma SlotsDiffer(p: nat, q: nat)
    requires p < q < p + TABLE_SIZE
    ensures p % TABLE_SIZE != q % TABLE_SIZE
  {
  }

  lemma InsertNext(input: seq<byte>, t: Tables, p: nat)
    requires Indexed(input, t, p) && p + 4 <= |input|
    ensures Indexed(input, Insert(input, p, t), p + 1)
  {
    hide Word, Hash4;
    var r := Insert(input, p, t);
    forall q | 0 <= q < p + 1 <= q + TABLE_SIZE ensures LinkOk(input, r.chain, q) {
      if q < p {
        SlotsDiffer(q, p);
        assert LinkOk(input, t.chain, q);
      }
    }
  }

  lemma InsertAgain(input: seq<byte>, t: Tables, p: nat)
    requires Indexed(input, t, p + 1) && p + 4 <= |input|
    ensures Indexed(input, Insert(input, p, t), p + 1)
  {
    hide Word, Hash4;
    var r := Insert(input, p, t);
    assert t.head[HashAt(input, p)] == p;
    assert r.head == t.head;
    forall q | 0 <= q < p + 1 <= q + TABLE_SIZE ensures LinkOk(input, r.chain, q) {
      if q < p {
        SlotsDiffer(q, p);
        assert LinkOk(input, t.chain, q);
      }
    }
  }

  lemma {:induction false} InsertRangeIndexed(input: seq<byte>, from: nat, to: nat, t: Tables, ins: nat)
    requires t.Valid() && from <= ins <= from + 1 && ins <= to && to + 3 <= |input|
    requires Indexed(input, t, ins)
    ensures Indexed(input, InsertRange(input, from, to, t), to)
    decreases if from < to then to - from else 0
  {
    hide Indexed, Insert;
    if from < to {
      if ins == from {
        InsertNext(input, t, from);
      } else {
        InsertAgain(input, t, from);
      }
      InsertRangeIndexed(input, from + 1, to, Insert(input, from, t), from + 1);
    }
  }

  lemma LastInserted(input: seq<byte>, t: Tables, ins: nat)
    requires Indexed(input, t, ins) && ins > 0
    ensures t.head[HashAt(input, ins - 1)] == ins - 1
  {
  }

  // The tables determine which positions are inserted.
  lemma IndexedOnce(input: seq<byte>, t: Tables, a: nat, b: nat)
    requires Indexed(input, t, a) && Indexed(input, t, b)
    ensures a == b
  {
    if a > 0 {
      LastInserted(input, t, a);
    }
    if b > 0 {
      LastInserted(input, t, b);
    }
  }

  // The turn at s.i finds a match and puts it off because the next position has a longer one.
  predicate Defers(input: seq<byte>, s: State)
    requires s.Valid(|input|) && s.i + MF_LIMIT <= |input|
  {
    Probe(input, s.i, s.tables).1.Some? && TakeTurn(input, s).emitted.None?
  }

  // Between turns exactly the positions below i are inserted, and i itself exactly if the turn
  // before searched it and deferred to it.
  predicate IndexedAt(input: seq<byte>, s: State, deferred: bool) {
    Indexed(input, s.tables, if deferred then s.i + 1 else s.i)
  }

  lemma ProbeIndexed(input: seq<byte>, i: nat, t: Tables, ins: nat)
    requires Indexed(input, t, ins) && i <= ins <= i + 1 && i + MF_LIMIT <= |input|
    ensures Indexed(input, Probe(input, i, t).0, i + 1)
  {
    hide Indexed, Insert, LongestOf;
    if ins == i {
      InsertNext(input, t, i);
    } else {
      InsertAgain(input, t, i);
    }
  }

  lemma TurnIndexed(input: seq<byte>, s: State, deferred: bool)
    requires s.Valid(|input|) && s.i + MF_LIMIT <= |input| && IndexedAt(input, s, deferred)
    ensures IndexedAt(input, TakeTurn(input, s).next, Defers(input, s))
  {
    hide Indexed, Probe, InsertRange;
    ProbeIndexed(input, s.i, s.tables, if deferred then s.i + 1 else s.i);
    var (t1, found) := Probe(input, s.i, s.tables);
    if found.Some? {
      var end := s.i + found.value.1;
      if found.value.1 < LAZY_LENGTH && s.i + 1 + MF_LIMIT <= |input| {
        ProbeIndexed(input, s.i + 1, t1, s.i + 1);
        var (t2, later) := Probe(input, s.i + 1, t1);
        InsertRangeIndexed(input, s.i + 1, end, t2, s.i + 2);
      } else {
        InsertRangeIndexed(input, s.i + 1, end, t1, s.i + 1);
      }
    }
  }

  // The state at the head of the outer loop after k turns.
  function StateAt(input: seq<byte>, k: nat): (s: State)
    ensures s.Valid(|input|)
  {
    if k == 0 then Start()
    else
      var s := StateAt(input, k - 1);
      if s.i + MF_LIMIT <= |input| then TakeTurn(input, s).next else s
  }

  lemma StateAtNext(input: seq<byte>, k: nat)
    ensures StateAt(input, 0) == Start()
    ensures var s := StateAt(input, k);
            s.i + MF_LIMIT <= |input| ==> StateAt(input, k + 1) == TakeTurn(input, s).next
  {
  }

  lemma StartIndexed(input: seq<byte>)
    requires |input| <= U32_MAX
    ensures Indexed(input, EmptyTables(), 0)
  {
  }

  // Whether the state after k turns was reached by a deferral.
  predicate Deferred(input: seq<byte>, k: nat) {
    k > 0
    && var s := StateAt(input, k - 1);
       s.i + MF_LIMIT <= |input| && Defers(input, s)
  }

  // At the head of the outer loop, on every turn of every run, the tables describe the text.
  lemma {:induction false} AlwaysIndexed(input: seq<byte>, k: nat)
    requires |input| <= U32_MAX
    ensures IndexedAt(input, StateAt(input, k), Deferred(input, k))
  {
    hide Indexed, TakeTurn, Defers;
    if k == 0 {
      StartIndexed(input);
    } else {
      AlwaysIndexed(input, k - 1);
      var s := StateAt(input, k - 1);
      if s.i + MF_LIMIT <= |input| {
        TurnIndexed(input, s, Deferred(input, k - 1));
      } else {
        DeferredGoesOn(input, k - 1);
      }
    }
  }

  // The loop does not end on a deferral.
  lemma DeferredGoesOn(input: seq<byte>, k: nat)
    ensures Deferred(input, k) ==> StateAt(input, k).i + MF_LIMIT <= |input|
  {
    hide Probe;
  }

  // ---------- What a walk along the chain sees ----------

  // cs are positions with hash h in non-increasing order below `top`, with no position of that
  // hash skipped before or between them.
  predicate NoneSkipped(input: seq<byte>, h: nat, top: nat, cs: seq<nat>)
    requires top + 3 <= |input|
  {
    cs != [] ==>
      && cs[0] <= top && cs[0] + 4 <= |input| && HashAt(input, cs[0]) == h
      && (forall p :: cs[0] < p < top ==> HashAt(input, p) != h)
      && NoneSkipped(input, h, cs[0], cs[1..])
  }

  lemma {:induction false} WalkSkipsNothing(input: seq<byte>, i: nat, top: nat, candidate: u32, t: Tables,
      attempts: nat, h: nat)
    requires Indexed(input, t, i + 1) && i + 4 <= |input| && top <= i
    requires candidate == LastWithHash(input, top, h) || (candidate == top && HashAt(input, top) == h)
    ensures NoneSkipped(input, h, top, Candidates(i, candidate, t.chain, attempts))
    decreases attempts
  {
    hide Word, Hash4;
    var cs := Candidates(i, candidate, t.chain, attempts);
    if cs != [] {
      assert LinkOk(input, t.chain, candidate);
      WalkSkipsNothing(input, i, candidate, t.chain[candidate % TABLE_SIZE], t, attempts - 1, h);
      assert cs[1..] == Candidates(i, t.chain[candidate % TABLE_SIZE], t.chain, attempts - 1);
    }
  }

  lemma {:induction false} SkipsNothingDescends(input: seq<byte>, h: nat, top: nat, cs: seq<nat>)
    requires top + 3 <= |input| && NoneSkipped(input, h, top, cs)
    ensures forall k :: 0 <= k < |cs| ==> cs[k] <= top
    ensures forall j, k :: 0 <= j < k < |cs| ==> cs[k] <= cs[j]
  {
    if cs != [] {
      SkipsNothingDescends(input, h, cs[0], cs[1..]);
      assert forall k :: 0 < k < |cs| ==> cs[k] == cs[1..][k - 1];
    }
  }

  // A walk that ends before its attempts do has seen every position of that hash in the window.
  lemma {:induction false} WalkSeesAll(input: seq<byte>, i: nat, top: nat, candidate: u32, t: Tables,
      attempts: nat, h: nat)
    requires Indexed(input, t, i + 1) && i + 4 <= |input| && top <= i
    requires candidate == LastWithHash(input, top, h) || (candidate == top < i && HashAt(input, top) == h)
    ensures var cs := Candidates(i, candidate, t.chain, attempts);
            |cs| < attempts ==>
              forall p :: 0 <= p < top && i - p <= MAX_OFFSET && HashAt(input, p) == h ==> p in cs
    decreases attempts
  {
    hide Word, Hash4;
    var cs := Candidates(i, candidate, t.chain, attempts);
    if cs != [] {
      assert LinkOk(input, t.chain, candidate);
      WalkSeesAll(input, i, candidate, t.chain[candidate % TABLE_SIZE], t, attempts - 1, h);
      assert cs == [candidate as nat] + Candidates(i, t.chain[candidate % TABLE_SIZE], t.chain, attempts - 1);
    }
  }

  // The candidates of a search at position i.
  function Visited(input: seq<byte>, i: nat, t: Tables): (cs: seq<nat>)
    requires t.Valid() && i + MF_LIMIT <= |input|
    ensures InWindow(cs, i)
  {
    Candidates(i, t.head[HashAt(input, i)], Insert(input, i, t).chain, ATTEMPTS)
  }

  lemma {:induction false} WalkLength(i: nat, candidate: u32, chain: seq<u32>, attempts: nat)
    requires |chain| == TABLE_SIZE
    ensures |Candidates(i, candidate, chain, attempts)| <= attempts
    decreases attempts
  {
    if attempts > 0 {
      WalkLength(i, chain[candidate % TABLE_SIZE], chain, attempts - 1);
    }
  }

  // A search at a fresh position compares with the latest earlier positions of the same hash, in
  // order and without a gap: with all of them in the 64 KiB window, but at most 128.
  lemma SearchSkipsNothing(input: seq<byte>, i: nat, t: Tables)
    requires Indexed(input, t, i) && i + MF_LIMIT <= |input|
    ensures var h, cs := HashAt(input, i), Visited(input, i, t);
            && NoneSkipped(input, h, i, cs) && |cs| <= 128
            && (|cs| < 128 ==>
                 forall p :: 0 <= p < i && i - p <= 65535 && HashAt(input, p) == h ==> p in cs)
  {
    hide Word, Hash4;
    InsertNext(input, t, i);
    var h := HashAt(input, i);
    WalkSkipsNothing(input, i, i, t.head[h], Insert(input, i, t), ATTEMPTS, h);
    WalkSeesAll(input, i, i, t.head[h], Insert(input, i, t), ATTEMPTS, h);
    WalkLength(i, t.head[h], Insert(input, i, t).chain, ATTEMPTS);
  }

  // No position in the window has a longer match at i than `found`, and none nearer has one as long.
  predicate NearestLongest(input: seq<byte>, i: nat, found: Option<(nat, nat)>)
    requires i + 12 <= |input|
  {
    && (forall p :: 0 <= p < i && i - p <= 65535 ==>
          MatchLength(input, p, i, MatchLimit(|input|)) <= FoundLength(found))
    && (found.Some? ==>
          && found.value.0 < i && i - found.value.0 <= 65535
          && found.value.1 == MatchLength(input, found.value.0, i, MatchLimit(|input|)) >= 4
          && forall p :: found.value.0 < p < i ==> MatchLength(input, p, i, MatchLimit(|input|)) < found.value.1)
  }

  lemma NearestLongestUnique(input: seq<byte>, i: nat, a: Option<(nat, nat)>, b: Option<(nat, nat)>)
    requires i + MF_LIMIT <= |input| && NearestLongest(input, i, a) && NearestLongest(input, i, b)
    ensures a == b
  {
    hide MatchLength;
  }

  lemma MatchMeansSameHash(input: seq<byte>, p: nat, i: nat, limit: nat)
    requires p < i && i + 4 <= |input| && limit <= |input| && MatchLength(input, p, i, limit) > 0
    ensures HashAt(input, p) == HashAt(input, i)
  {
  }

  // Index, walk and search together: unless its attempts run out, a search at a fresh position
  // finds the longest match that the whole window holds, and the nearest of those.
  lemma SearchFindsLongest(input: seq<byte>, i: nat, t: Tables)
    requires Indexed(input, t, i) && i + MF_LIMIT <= |input| && |Visited(input, i, t)| < 128
    ensures NearestLongest(input, i, Probe(input, i, t).1)
  {
    hide Word, Hash4, MatchLength, Indexed, NoneSkipped, Candidates;
    var h, cs, limit := HashAt(input, i), Visited(input, i, t), MatchLimit(|input|);
    var found := Probe(input, i, t).1;
    SearchSkipsNothing(input, i, t);
    SkipsNothingDescends(input, h, i, cs);
    LongestOfIsFirstLongest(input, i, limit, cs);
    forall p | 0 <= p < i && i - p <= 65535
      ensures MatchLength(input, p, i, limit) <= FoundLength(found)
      ensures found.Some? && found.value.0 < p ==> MatchLength(input, p, i, limit) < found.value.1
    {
      if MatchLength(input, p, i, limit) > 0 {
        MatchMeansSameHash(input, p, i, limit);
        assert p in cs;
      }
    }
  }
}
