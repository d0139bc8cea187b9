// What holds of every block the decoder is given: how far back it can look, how much it can
// write, and what a failure can mean.
module Lz4Bounds {
  import opened Wrappers
  import opened Bytes
  import opened Lz4Format

  // ---------- Window ----------

  function Behind(p: seq<byte>, r: Option<seq<byte>>): Option<seq<byte>> {
    match r
    case None => None
    case Some(out) => Some(p + out)
  }

  // Text in front of a window does not change what the block means, if the block never looks
  // past the window: because it decodes, or because no offset is longer than the window.
  lemma {:induction false} InterpretBehind(qs: seq<Sequence>, p: seq<byte>, h: seq<byte>)
    requires ValidBlock(qs)
    requires |h| >= MAX_OFFSET || Interpret(qs, h).Some?
    ensures Interpret(qs, p + h) == Behind(p, Interpret(qs, h))
  {
    if qs != [] {
      var q, h1 := qs[0], h + qs[0].literals;
      Regroup(p, h, q.literals);
      if q.Last? {
        InterpretBehind(qs[1..], p, h1);
      } else if 1 <= q.offset <= |h1| {
        CopyMatchAfter(p, h1, q.offset, q.length);
        InterpretBehind(qs[1..], p, CopyMatch(h1, q.offset, q.length));
      }
    }
  }

  // A 64 KiB window is enough: decoding after any longer text gives the same bytes as decoding
  // after the last 65535 of them, and fails exactly when that fails.
  lemma WindowLocality(s: seq<byte>, p: seq<byte>, h: seq<byte>, cap: nat)
    requires |h| >= MAX_OFFSET
    ensures Decode(s, p + h, |p| + cap) == Behind(p, Decode(s, h, cap))
  {
    if ParseBlock(s).Some? {
      InterpretBehind(ParseBlock(s).value, p, h);
    }
  }

  // A stream of blocks that may refer to each other, decoded with everything before in reach ...
  function DecodeStream(blocks: seq<seq<byte>>, done: seq<byte>): Option<seq<byte>> {
    if blocks == [] then Some(done)
    else
      var qs :- ParseBlock(blocks[0]);
      var next :- Interpret(qs, done);
      DecodeStream(blocks[1..], next)
  }

  // ... and with only the last w bytes in reach of each block, as the decoder's prefix.
  function DecodeWindowed(blocks: seq<seq<byte>>, done: seq<byte>, w: nat): Option<seq<byte>> {
    if blocks == [] then Some(done)
    else
      var qs :- ParseBlock(blocks[0]);
      var from := if |done| >= w then |done| - w else 0;
      var next :- Interpret(qs, done[from..]);
      DecodeWindowed(blocks[1..], done[..from] + next, w)
  }

  // Whole streams decode the same through any window of at least 65535 bytes.
  lemma {:induction false} WindowedStream(blocks: seq<seq<byte>>, done: seq<byte>, w: nat)
    requires w >= MAX_OFFSET
    ensures DecodeWindowed(blocks, done, w) == DecodeStream(blocks, done)
  {
    hide ParseBlock, Interpret;
    if blocks != [] && ParseBlock(blocks[0]).Some? {
      var qs := ParseBlock(blocks[0]).value;
      var from := if |done| >= w then |done| - w else 0;
      assert done == done[..from] + done[from..];
      if from > 0 {
        InterpretBehind(qs, done[..from], done[from..]);
      } else {
        assert done[..0] == [] && done[0..] == done;
      }
      if Interpret(qs, done[from..]).Some? {
        var next := Interpret(qs, done[from..]).value;
        assert from == 0 ==> done[..0] + next == next;
        WindowedStream(blocks[1..], done[..from] + next, w);
      }
    }
  }

  // Nothing shorter is enough: this block decodes after the whole text and not after its tail.
  lemma WindowTooShort(p: seq<byte>, h: seq<byte>)
    requires |h| < MAX_OFFSET <= |p + h|
    ensures Decode([0, 255, 255], h, |h| + 4).None?
    ensures Decode([0, 255, 255], p + h, |p| + |h| + 4).Some?
  {
    hide CopyMatch;
    var s: seq<byte> := [0, 255, 255];
    var q := Match([], MAX_OFFSET, MIN_MATCH);
    assert s[1..] == [255, 255] && s[1..][0..] == [255, 255];
    assert ReadMatch(0, [], [255, 255]) == Some((q, []));
    assert ReadSequence(s) == Some((q, []));
    assert ParseBlock(s) == Some([q] + []);
    assert [q] + [] == [q] && [q][1..] == [];
    assert h + [] == h && (p + h) + [] == p + h;
    assert Interpret([], CopyMatch(p + h, MAX_OFFSET, MIN_MATCH)).Some?;
  }

  // ---------- Expansion ----------

  lemma SequenceExpansion(q: Sequence)
    requires ValidSequence(q)
    ensures |q.literals| + (if q.Match? then q.length else 0) <= 255 * |EncodeSequence(q)|
  {
  }

  lemma {:induction false} InterpretExpansion(qs: seq<Sequence>, h: seq<byte>)
    requires ValidBlock(qs) && Interpret(qs, h).Some?
    ensures |Interpret(qs, h).value| <= |h| + 255 * |EncodeBlock(qs)|
  {
    if qs != [] {
      var q, h1 := qs[0], h + qs[0].literals;
      SequenceExpansion(q);
      InterpretExpansion(qs[1..], if q.Last? then h1 else CopyMatch(h1, q.offset, q.length));
    }
  }

  // The advertised bound on the decompressed size (saturating 64-bit arithmetic).
  function BlockMaxSize(srcLen: nat): (bound: nat)
    ensures bound == if 255 * srcLen + 16 <= U64_MAX then 255 * srcLen + 16 else U64_MAX
  {
    var product := if srcLen * 255 > U64_MAX then U64_MAX else srcLen * 255;
    if product + 16 > U64_MAX then U64_MAX else product + 16
  }

  lemma Expansion(s: seq<byte>, h: seq<byte>, cap: nat)
    requires Decode(s, h, cap).Some? && cap <= U64_MAX
    ensures var written := |Decode(s, h, cap).value| - |h|;
            written <= 255 * |s| && written <= BlockMaxSize(|s|)
  {
    var qs := ParseBlock(s).value;
    EncodeParse(s);
    InterpretExpansion(qs, h);
  }

  // With that much room a failure means a malformed block, so more room would not help; and
  // success at one capacity is success, with the same bytes, at every larger one.
  lemma FailureMeansMalformed(s: seq<byte>, h: seq<byte>, cap: nat, other: nat)
    ensures cap >= |h| + 255 * |s| && Decode(s, h, cap).None? ==> Decode(s, h, other).None?
    ensures Decode(s, h, cap).Some? && other >= cap ==> Decode(s, h, other) == Decode(s, h, cap)
  {
    if ParseBlock(s).Some? {
      var qs := ParseBlock(s).value;
      EncodeParse(s);
      if Interpret(qs, h).Some? {
        InterpretExpansion(qs, h);
      }
    }
  }

  // ---------- Machine words ----------

  lemma {:induction false} ExtensionBound(s: seq<byte>)
    requires ReadExtension(s).Some?
    ensures ReadExtension(s).value.0 <= 255 * (|s| - |ReadExtension(s).value.1|)
  {
    if s[0] == 255 {
      ExtensionBound(s[1..]);
    }
  }

  // The two unchecked sums of the decoder (cursor plus a length just read) stay below
  // 256 input lengths plus the buffer, so they cannot wrap while that fits in a usize.
  lemma CursorSumsFit(input: seq<byte>, start: nat, nibble: nat, dp: nat, cap: nat, usizeMax: nat)
    requires start <= |input| && nibble < 16 && dp <= cap
    requires ReadLength(nibble, input[start..]).Some?
    requires cap + 256 * |input| + 19 <= usizeMax
    ensures var (l, rest) := ReadLength(nibble, input[start..]).value;
            && (|input| - |rest|) + l <= usizeMax
            && dp + l + MIN_MATCH <= usizeMax
  {
    if nibble == 15 {
      ExtensionBound(input[start..]);
    }
  }
}
