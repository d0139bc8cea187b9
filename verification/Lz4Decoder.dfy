// Block decompression: the in-place decoder, and what follows for every block it is given.
module Lz4Decoder {
  import opened Wrappers
  import opened Bytes
  import opened Lz4Format

  // ---------- One step of the meaning ----------

  // The meaning of a match whose literals are already in h, with `rest` still to be read.
  function DecodeMatch(m: Option<(Sequence, seq<byte>)>, h: seq<byte>, cap: nat): Option<seq<byte>>
    requires m.Some? ==> m.value.0.Match?
  {
    match m
    case None => None
    case Some((q, rest)) =>
      if |h| + q.length > cap || q.offset == 0 || q.offset > |h| then None
      else Decode(rest, CopyMatch(h, q.offset, q.length), cap)
  }

  // How the first sequence of a nonempty block acts on the window h.
  lemma DecodeStep(s: seq<byte>, h: seq<byte>, cap: nat)
    requires s != []
    ensures var length := ReadLength(s[0] / 16, s[1..]);
            if length.None? then Decode(s, h, cap).None?
            else
              var (l, s1) := length.value;
              if l > |s1| || |h| + l > cap then Decode(s, h, cap).None?
              else if l == |s1| then Decode(s, h, cap) == Some(h + s1)
              else Decode(s, h, cap) == DecodeMatch(ReadMatch(s[0] % 16, s1[..l], s1[l..]), h + s1[..l], cap)
  {
    if ReadSequence(s).Some? {
      var (q, rest) := ReadSequence(s).value;
      if ParseBlock(rest).Some? {
        assert ParseBlock(s).value[1..] == ParseBlock(rest).value;
      }
      if q.Last? {
        assert rest == [];
        assert Interpret(ParseBlock(s).value, h) == Interpret([], h + q.literals);
      }
    }
  }

  lemma DecodeEnd(h: seq<byte>, cap: nat)
    requires |h| <= cap
    ensures Decode([], h, cap) == Some(h)
  {
  }

  // ---------- The decoder ----------

  // A length code: the loop that adds bytes until one is not 255.
  method TakeLength(input: seq<byte>, start: nat, nibble: nat) returns (r: Option<(nat, nat)>)
    requires start <= |input| && nibble < 16
    ensures r.None? <==> ReadLength(nibble, input[start..]).None?
    ensures r.Some? ==> start <= r.value.1 <= |input|
    ensures r.Some? ==> ReadLength(nibble, input[start..]) == Some((r.value.0, input[r.value.1..]))
  {
    var sp, length := start, nibble;
    if length == 15 {
      while true
        invariant start <= sp <= |input|
        invariant var whole, left := ReadExtension(input[start..]), ReadExtension(input[sp..]);
                  && (whole.None? <==> left.None?)
                  && (whole.Some? ==> 15 + whole.value.0 == length + left.value.0 && whole.value.1 == left.value.1)
        decreases |input| - sp
      {
        if sp >= |input| {
          return None;
        }
        var next := input[sp];
        assert input[sp..][1..] == input[sp + 1..];
        sp := sp + 1;
        length := length + next;
        if next != 255 {
          break;
        }
      }
    }
    return Some((length, sp));
  }

  method CopyLiterals(input: seq<byte>, sp: nat, output: array<byte>, dp: nat, n: nat)
    requires sp + n <= |input| && dp + n <= output.Length
    modifies output
    ensures output[..dp + n] == old(output[..dp]) + input[sp..sp + n]
    ensures forall k :: dp + n <= k < output.Length ==> output[k] == old(output[k])
  {
    forall k | 0 <= k < n {
      output[dp + k] := input[sp + k];
    }
  }

  // The byte-by-byte copy, whose source may overlap what it writes.
  method CopyOverlapping(output: array<byte>, dp: nat, offset: nat, n: nat)
    requires 1 <= offset <= dp && dp + n <= output.Length
    modifies output
    ensures output[..dp + n] == CopyMatch(old(output[..dp]), offset, n)
    ensures forall k :: dp + n <= k < output.Length ==> output[k] == old(output[k])
  {
    ghost var h := output[..dp];
    for i := 0 to n
      invariant output[..dp + i] == CopyMatch(h, offset, i)
      invariant forall k :: dp + n <= k < output.Length ==> output[k] == old(output[k])
    {
      ghost var done := output[..dp + i];
      assert done[dp + i - offset] == output[dp - offset + i];
      output[dp + i] := output[dp - offset + i];
      assert output[..dp + (i + 1)] == done + [done[|done| - offset]];
    }
  }

  // The part of a sequence after its literals: offset, length code, copy.
  method TakeMatch(input: seq<byte>, start: nat, nibble: nat, output: array<byte>, dp: nat, ghost literals: seq<byte>)
    returns (r: Option<(nat, nat)>)
    requires start < |input| && nibble < 16 && dp <= output.Length
    modifies output
    ensures output[..dp] == old(output[..dp])
    ensures var decoded := DecodeMatch(ReadMatch(nibble, literals, input[start..]), old(output[..dp]), output.Length);
            match r
            case None => decoded.None?
            case Some((sp', dp')) =>
              && start < sp' <= |input| && dp <= dp' <= output.Length
              && decoded == Decode(input[sp'..], output[..dp'], output.Length)
              && (forall k :: dp' <= k < output.Length ==> output[k] == old(output[k]))
  {
    hide Decode, ReadLength, CopyMatch;
    ghost var s := input[start..];
    var sp := start;
    if sp + 2 > |input| {
      return None;
    }
    var offset := ReadOffset(input[sp], input[sp + 1]);
    sp := sp + 2;
    if offset == 0 || offset > dp {
      return None;
    }
    assert s[2..] == input[sp..];
    var matchLength := TakeLength(input, sp, nibble);
    if matchLength.None? {
      return None;
    }
    var length := matchLength.value.0 + MIN_MATCH;
    sp := matchLength.value.1;
    if dp + length > output.Length {
      return None;
    }
    ghost var h := output[..dp];
    CopyOverlapping(output, dp, offset, length);
    assert output[..dp] == output[..dp + length][..dp] == h;
    return Some((sp, dp + length));
  }

  // One turn of the main loop: one sequence.
  method TakeSequence(input: seq<byte>, start: nat, output: array<byte>, dp0: nat) returns (r: Option<(nat, nat)>)
    requires start < |input| && dp0 <= output.Length
    modifies output
    ensures output[..dp0] == old(output[..dp0])
    ensures var decoded := Decode(input[start..], old(output[..dp0]), output.Length);
            match r
            case None => decoded.None?
            case Some((sp', dp')) =>
              && start < sp' <= |input| && dp0 <= dp' <= output.Length
              && decoded == Decode(input[sp'..], output[..dp'], output.Length)
              && (forall k :: dp' <= k < output.Length ==> output[k] == old(output[k]))
  {
    hide Decode, DecodeMatch, ReadLength, ReadMatch;
    ghost var s, h := input[start..], output[..dp0];
    DecodeStep(s, h, output.Length);
    var sp, dp := start, dp0;
    var token := input[sp];
    sp := sp + 1;
    assert s[1..] == input[sp..];
    var literalLength := TakeLength(input, sp, token / 16);
    if literalLength.None? {
      return None;
    }
    var l := literalLength.value.0;
    sp := literalLength.value.1;
    if sp + l > |input| || dp + l > output.Length {
      return None;
    }
    ghost var s1 := input[sp..];
    assert s1[..l] == input[sp..sp + l] && s1[l..] == input[sp + l..];
    CopyLiterals(input, sp, output, dp, l);
    sp := sp + l;
    dp := dp + l;
    assert output[..dp0] == output[..dp][..dp0] == h;
    if sp >= |input| {
      assert input[sp..] == [] && s1[..l] == s1;
      DecodeEnd(output[..dp], output.Length);
      return Some((sp, dp));
    }
    ghost var before := output[..dp];
    r := TakeMatch(input, sp, token % 16, output, dp, s1[..l]);
    assert output[..dp0] == output[..dp][..dp0];
  }

  method DecompressBlockWithPrefix(input: seq<byte>, output: array<byte>, prefixLen: nat) returns (r: Option<nat>)
    requires prefixLen <= output.Length
    modifies output
    ensures output[..prefixLen] == old(output[..prefixLen])
    ensures var decoded := Decode(input, old(output[..prefixLen]), output.Length);
            match r
            case None => decoded.None?
            case Some(written) =>
              && prefixLen + written <= output.Length
              && decoded == Some(output[..prefixLen + written])
              && output[prefixLen + written..] == old(output[prefixLen + written..])
  {
    hide Decode;
    var sp, dp := 0, prefixLen;
    ghost var window := output[..prefixLen];
    assert input[0..] == input;
    while sp < |input|
      invariant 0 <= sp <= |input| && prefixLen <= dp <= output.Length
      invariant Decode(input, window, output.Length) == Decode(input[sp..], output[..dp], output.Length)
      invariant output[..prefixLen] == window
      invariant forall k :: dp <= k < output.Length ==> output[k] == old(output[k])
      decreases |input| - sp
    {
      ghost var h := output[..dp];
      var step := TakeSequence(input, sp, output, dp);
      assert output[..prefixLen] == output[..dp][..prefixLen] == h[..prefixLen];
      if step.None? {
        return None;
      }
      sp, dp := step.value.0, step.value.1;
    }
    assert input[sp..] == [];
    DecodeEnd(output[..dp], output.Length);
    return Some(dp - prefixLen);
  }
}
