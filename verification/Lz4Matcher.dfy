// The match finder: hash tables over positions, and the search for the longest match.
module Lz4Matcher {
  import opened Wrappers
  import opened Bytes
  import opened Lz4Format

  const SENTINEL: u32 := 0xffff_ffff
  const TABLE_SIZE: nat := 0x1_0000
  const ATTEMPTS: nat := 128

  function Word(input: seq<byte>, p: nat): (w: nat)
    requires p + 4 <= |input|
  {
    FromLE(input[p..p + 4])
  }

  // The top 16 bits of the low 32 bits of a product.
  function Hash4(value: nat): (h: nat)
    ensures h < TABLE_SIZE
  {
    value * 2654435761 % 0x1_0000_0000 / 0x1_0000
  }

  // The multiplier's high and low half.
  lemma HashExamples()
    ensures Hash4(1) == 0x9e37 && Hash4(0x1_0000) == 0x79b1
  {
  }

  // ---------- Searching ----------

  // How far input[c..] agrees with input[i..], given that it does for `length` bytes, without
  // passing `limit`.
  function Extend(input: seq<byte>, c: nat, i: nat, limit: nat, length: nat): (r: nat)
    requires c < i && limit <= |input|
    ensures length <= r
    ensures r > length ==> i + r <= limit
    ensures forall j :: i + length <= j < i + r ==> input[j] == input[j - (i - c)]
    ensures i + r < limit ==> input[c + r] != input[i + r]
    decreases limit - (i + length)
  {
    if i + length < limit && input[c + length] == input[i + length]
    then Extend(input, c, i, limit, length + 1)
    else length
  }

  // The length of the match with candidate c: zero unless four bytes agree.
  function MatchLength(input: seq<byte>, c: nat, i: nat, limit: nat): (r: nat)
    requires c < i && i + MIN_MATCH <= |input| && limit <= |input|
    ensures r == 0 || r >= MIN_MATCH
    ensures r > MIN_MATCH ==> i + r <= limit
    ensures forall j :: i <= j < i + r && j < |input| ==> input[j] == input[j - (i - c)]
  {
    if input[c..c + 4] != input[i..i + 4] then 0
    else
      assert forall j :: i <= j < i + 4 ==> input[j] == input[i..i + 4][j - i] == input[c..c + 4][j - i];
      Extend(input, c, i, limit, MIN_MATCH)
  }

  // A candidate matches exactly if four bytes agree, and a match goes as far as the bytes agree.
  lemma MatchLengthMaximal(input: seq<byte>, c: nat, i: nat, limit: nat)
    requires c < i && i + MIN_MATCH <= |input| && limit <= |input|
    ensures var r := MatchLength(input, c, i, limit);
            && (r >= MIN_MATCH <==> input[c..c + 4] == input[i..i + 4])
            && (r >= MIN_MATCH && i + r < limit ==> input[c + r] != input[i + r])
  {
  }

  predicate InWindow(cs: seq<nat>, i: nat) {
    forall k :: 0 <= k < |cs| ==> cs[k] < i && i - cs[k] <= 65535
  }

  // The positions a walk along the chain visits, for whatever the tables contain.
  function Candidates(i: nat, candidate: u32, chain: seq<u32>, attempts: nat): (cs: seq<nat>)
    requires |chain| == TABLE_SIZE
    ensures InWindow(cs, i)
    decreases attempts
  {
    if attempts == 0 || candidate == SENTINEL || candidate >= i || i - candidate > MAX_OFFSET then []
    else [candidate] + Candidates(i, chain[candidate % TABLE_SIZE], chain, attempts - 1)
  }

  function FoundLength(found: Option<(nat, nat)>): nat {
    if found.Some? then found.value.1 else 0
  }

  // Comparing every candidate in full and keeping the best so far.
  function LongestOf(input: seq<byte>, i: nat, limit: nat, cs: seq<nat>): (found: Option<(nat, nat)>)
    requires InWindow(cs, i) && i + MIN_MATCH <= |input| && limit <= |input|
    ensures found.Some? ==> found.value.0 < i && i - found.value.0 <= MAX_OFFSET
    ensures found.Some? ==> found.value.1 == MatchLength(input, found.value.0, i, limit) >= MIN_MATCH
  {
    if cs == [] then None
    else
      var best := LongestOf(input, i, limit, cs[..|cs| - 1]);
      var c := cs[|cs| - 1];
      var length := MatchLength(input, c, i, limit);
      if length > FoundLength(best) then Some((c, length)) else best
  }

  // The search finds a match exactly when some candidate has one; what it finds is longer than
  // every earlier candidate's match and at least as long as every later one's.
  lemma {:induction false} LongestOfIsFirstLongest(input: seq<byte>, i: nat, limit: nat, cs: seq<nat>)
    requires InWindow(cs, i) && i + MIN_MATCH <= |input| && limit <= |input|
    ensures var found := LongestOf(input, i, limit, cs);
            && (forall k :: 0 <= k < |cs| ==> MatchLength(input, cs[k], i, limit) <= FoundLength(found))
            && (found.Some? ==>
                 exists k :: 0 <= k < |cs| && found.value == (cs[k], MatchLength(input, cs[k], i, limit))
                          && forall j :: 0 <= j < k ==> MatchLength(input, cs[j], i, limit) < found.value.1)
  {
    hide MatchLength;
    if cs != [] {
      var front, last := cs[..|cs| - 1], |cs| - 1;
      LongestOfIsFirstLongest(input, i, limit, front);
      var best, found := LongestOf(input, i, limit, front), LongestOf(input, i, limit, cs);
      assert forall k :: 0 <= k < last ==> front[k] == cs[k];
      if MatchLength(input, cs[last], i, limit) > FoundLength(best) {
        assert found.value == (cs[last], MatchLength(input, cs[last], i, limit));
      } else if best.Some? {
        var k :| 0 <= k < |front| && best.value == (front[k], MatchLength(input, front[k], i, limit))
              && forall j :: 0 <= j < k ==> MatchLength(input, front[j], i, limit) < best.value.1;
        assert found.value == (cs[k], MatchLength(input, cs[k], i, limit));
      }
    }
  }

  // cs[k] is c, whose match is longer than every earlier candidate's and as long as any later one's.
  predicate FirstLongestAt(input: seq<byte>, i: nat, limit: nat, cs: seq<nat>, c: nat, length: nat, k: nat)
    requires InWindow(cs, i) && i + MIN_MATCH <= |input| && limit <= |input|
  {
    && k < |cs| && cs[k] == c && MatchLength(input, c, i, limit) == length >= MIN_MATCH
    && (forall j :: 0 <= j < k ==> MatchLength(input, cs[j], i, limit) < length)
    && (forall j :: 0 <= j < |cs| ==> MatchLength(input, cs[j], i, limit) <= length)
  }

  predicate FirstLongest(input: seq<byte>, i: nat, limit: nat, cs: seq<nat>, c: nat, length: nat)
    requires InWindow(cs, i) && i + MIN_MATCH <= |input| && limit <= |input|
  {
    exists k :: 0 <= k < |cs| && FirstLongestAt(input, i, limit, cs, c, length, k)
  }

  // Being found and being the first longest are the same.
  lemma FoundIffFirstLongest(input: seq<byte>, i: nat, limit: nat, cs: seq<nat>, c: nat, length: nat)
    requires InWindow(cs, i) && i + MIN_MATCH <= |input| && limit <= |input|
    ensures LongestOf(input, i, limit, cs) == Some((c, length)) <==> FirstLongest(input, i, limit, cs, c, length)
  {
    hide MatchLength, LongestOf;
    LongestOfIsFirstLongest(input, i, limit, cs);
    var found := LongestOf(input, i, limit, cs);
    if found == Some((c, length)) {
      var k :| 0 <= k < |cs| && found.value == (cs[k], MatchLength(input, cs[k], i, limit))
            && forall j :: 0 <= j < k ==> MatchLength(input, cs[j], i, limit) < found.value.1;
      assert FirstLongestAt(input, i, limit, cs, c, length, k);
    }
  }

  // Why the pre-filter is safe: a candidate that beats the best match agrees with the text one
  // byte past it.
  lemma FilterSound(input: seq<byte>, c: nat, i: nat, limit: nat, best: nat)
    requires c < i && i + MIN_MATCH <= |input| && limit <= |input|
    requires MIN_MATCH <= best < MatchLength(input, c, i, limit)
    ensures i + best < limit && input[c + best] == input[i + best]
  {
  }

  lemma LongestOfSnoc(input: seq<byte>, i: nat, limit: nat, cs: seq<nat>, c: nat)
    requires InWindow(cs, i) && c < i && i - c <= MAX_OFFSET
    requires i + MIN_MATCH <= |input| && limit <= |input|
    ensures InWindow(cs + [c], i)
    ensures var best, length := LongestOf(input, i, limit, cs), MatchLength(input, c, i, limit);
            LongestOf(input, i, limit, cs + [c]) == if length > FoundLength(best) then Some((c, length)) else best
  {
  }

  // The body of the search loop: filter first, compare in full only if that can pay off.
  method Measure(input: seq<byte>, i: nat, matchLimit: nat, candidate: nat, bestLength: nat) returns (length: nat)
    requires candidate < i && i + MIN_MATCH <= |input| && matchLimit <= |input|
    requires bestLength == 0 || bestLength >= MIN_MATCH
    ensures var full := MatchLength(input, candidate, i, matchLimit);
            if full > bestLength then length == full else length <= bestLength
  {
    var worthIt := bestLength < MIN_MATCH
      || (i + bestLength < matchLimit
          && candidate + bestLength < |input|
          && input[candidate + bestLength] == input[i + bestLength]);
    ghost var full := MatchLength(input, candidate, i, matchLimit);
    if full > bestLength >= MIN_MATCH {
      FilterSound(input, candidate, i, matchLimit, bestLength);
    }
    FromLEInjective(input[candidate..candidate + 4], input[i..i + 4]);
    length := 0;
    if worthIt && Word(input, candidate) == Word(input, i) {
      length := MIN_MATCH;
      while i + length < matchLimit && input[candidate + length] == input[i + length]
        invariant Extend(input, candidate, i, matchLimit, length) == full
        decreases matchLimit - (i + length)
      {
        length := length + 1;
      }
    }
  }

  method FindMatch(input: seq<byte>, i: nat, matchLimit: nat, start: u32, chain: array<u32>)
    returns (found: Option<(nat, nat)>)
    requires i + MIN_MATCH <= |input| && matchLimit <= |input| && chain.Length == TABLE_SIZE
    ensures found == LongestOf(input, i, matchLimit, Candidates(i, start, chain[..], ATTEMPTS))
  {
    hide MatchLength, LongestOf;
    var bestStart: nat, bestLength: nat, attempts: nat := 0, 0, 0;
    var candidate: u32 := start;
    ghost var links := chain[..];
    ghost var visited: seq<nat> := [];
    LongestOfEmpty(input, i, matchLimit);
    while candidate != SENTINEL && attempts < ATTEMPTS
      invariant attempts <= ATTEMPTS
      invariant Candidates(i, start, links, ATTEMPTS) == visited + Candidates(i, candidate, links, ATTEMPTS - attempts)
      invariant InWindow(visited, i)
      invariant bestLength == 0 || bestLength >= MIN_MATCH
      invariant LongestOf(input, i, matchLimit, visited) == if bestLength == 0 then None else Some((bestStart,
          bestLength))
      decreases ATTEMPTS - attempts
    {
      if candidate >= i || i - candidate > MAX_OFFSET {
        break;
      }
      var length := Measure(input, i, matchLimit, candidate, bestLength);
      LongestOfSnoc(input, i, matchLimit, visited, candidate);
      if length > bestLength {
        bestLength := length;
        bestStart := candidate;
      }
      Regroup(visited, [candidate as nat], Candidates(i, links[candidate % TABLE_SIZE], links,
          ATTEMPTS - attempts - 1));
      visited := visited + [candidate];
      candidate := chain[candidate % TABLE_SIZE];
      attempts := attempts + 1;
    }
    assert Candidates(i, start, links, ATTEMPTS) == visited;
    if bestLength >= MIN_MATCH {
      found := Some((bestStart, bestLength));
    } else {
      found := None;
    }
  }

  lemma LongestOfEmpty(input: seq<byte>, i: nat, limit: nat)
    requires i + MIN_MATCH <= |input| && limit <= |input|
    ensures LongestOf(input, i, limit, []) == None
  {
  }

  // ---------- Tables ----------

  // head[h] is the last position inserted with hash h; a chain slot holds the head it replaced.
  datatype Tables = Tables(head: seq<u32>, chain: seq<u32>) {
    predicate Valid() {
      |head| == TABLE_SIZE && |chain| == TABLE_SIZE
    }
  }

  function Insert(input: seq<byte>, p: nat, t: Tables): (r: Tables)
    requires t.Valid() && p + 4 <= |input|
    ensures r.Valid()
  {
    var h := Hash4(Word(input, p));
    Tables(t.head[h := p % 0x1_0000_0000], t.chain[p % TABLE_SIZE := t.head[h]])
  }

  function InsertRange(input: seq<byte>, from: nat, to: nat, t: Tables): (r: Tables)
    requires t.Valid() && (from < to ==> to + 3 <= |input|)
    ensures r.Valid()
    decreases if from < to then to - from else 0
  {
    if from >= to then t else InsertRange(input, from + 1, to, Insert(input, from, t))
  }

  method InsertPosition(input: seq<byte>, position: nat, head: array<u32>, chain: array<u32>)
    requires position + 4 <= |input|
    requires head.Length == TABLE_SIZE && chain.Length == TABLE_SIZE && head != chain
    modifies head, chain
    ensures Tables(head[..], chain[..]) == Insert(input, position, Tables(old(head[..]), old(chain[..])))
  {
    hide Word, Hash4;
    var hash := Hash4(Word(input, position));
    chain[position % TABLE_SIZE] := head[hash];
    head[hash] := position % 0x1_0000_0000;
  }
}
