/**
 The audio sink: frames from the engine, assembled into the fixed blocks the port plays.
 A frame is one sample word per channel.
 */
module AudioSink {

  const GRAIN_FRAMES: nat := 1024
  const HBR_CHANNELS: nat := 8

  type Frame = seq<int>

  /** High-bit-rate passthrough: words 2 and 3 in HDMI slot order. */
  function Swapped(f: Frame): Frame
    requires |f| == HBR_CHANNELS
  {
    f[2 := f[3]][3 := f[2]]
  }

  /** Words 2 and 3 have changed places and the other six have not. */
  lemma SwappedWords(f: Frame)
    requires |f| == 8
    ensures Swapped(f) == [f[0], f[1], f[3], f[2], f[4], f[5], f[6], f[7]]
    ensures Swapped(Swapped(f)) == f
  {
  }

  /** What the port must play for the frames taken. */
  function Played(frames: seq<Frame>, hbr: bool): (r: seq<Frame>)
    requires hbr ==> forall f :: f in frames ==> |f| == HBR_CHANNELS
    ensures |r| == |frames|
  {
    seq(|frames|, i requires 0 <= i < |frames| =>
      if hbr then (assert frames[i] in frames; Swapped(frames[i])) else frames[i])
  }

  lemma PlayedConcat(a: seq<Frame>, b: seq<Frame>, hbr: bool)
    requires hbr ==> forall f :: f in a + b ==> |f| == HBR_CHANNELS
    ensures hbr ==> forall f :: f in a || f in b ==> |f| == HBR_CHANNELS
    ensures Played(a + b, hbr) == Played(a, hbr) + Played(b, hbr)
  {
    assert forall f :: f in a || f in b ==> f in a + b;
  }

  function Flatten(blocks: seq<seq<Frame>>): seq<Frame> {
    if blocks == [] then [] else Flatten(blocks[..|blocks| - 1]) + blocks[|blocks| - 1]
  }

  lemma FlattenAppend(blocks: seq<seq<Frame>>, b: seq<Frame>)
    ensures Flatten(blocks + [b]) == Flatten(blocks) + b
  {
    assert (blocks + [b])[..|blocks|] == blocks;
  }

  ghost predicate FullBlocks(blocks: seq<seq<Frame>>) {
    forall b :: b in blocks ==> |b| == 1024
  }

  class Sink {
    /** The port; 0 or less when it is closed. */
    var handle: int
    const hbrSwap: bool
    const channels: nat
    const block: array<Frame>
    var blockFrames: nat
    /** Blocks the port took, calls it refused, and every frame AddPackets has taken. */
    ghost var emitted: seq<seq<Frame>>
    ghost var refusals: nat
    ghost var accepted: seq<Frame>

    constructor (handle: int, channels: nat, hbr: bool)
      requires hbr ==> channels == HBR_CHANNELS
      ensures Valid() && accepted == [] && emitted == [] && blockFrames == 0 && refusals == 0
      ensures this.handle == handle && this.channels == channels && hbrSwap == hbr && fresh(block)
    {
      this.handle, this.channels, hbrSwap := handle, channels, hbr;
      block := new Frame[GRAIN_FRAMES](_ => []);
      blockFrames, emitted, refusals, accepted := 0, [], 0, [];
    }

    ghost predicate Fit(frames: seq<Frame>) {
      forall f :: f in frames ==> |f| == channels
    }

    /** Conservation: played blocks, then the partial block, are the frames taken, in order, each
        swapped once. */
    ghost predicate Valid()
      reads this, block
    {
      && block.Length == GRAIN_FRAMES && blockFrames <= GRAIN_FRAMES
      && (hbrSwap ==> channels == HBR_CHANNELS) && Fit(accepted)
      && FullBlocks(emitted)
      && Flatten(emitted) + block[..blockFrames] == Played(accepted, hbrSwap)
    }

    /** The port plays the block, or refuses it. */
    method Output() returns (ok: bool)
      requires block.Length == GRAIN_FRAMES
      modifies this`emitted, this`refusals
      ensures emitted == if ok then old(emitted) + [block[..]] else old(emitted)
      ensures refusals == if ok then old(refusals) else old(refusals) + 1
    {
      ok := *;
      if ok {
        emitted := emitted + [block[..]];
      } else {
        refusals := refusals + 1;
      }
    }

    /** Writes `frames` at `from`, in HDMI order for HBR. */
    method Write(frames: seq<Frame>, from: nat)
      requires from + |frames| <= block.Length && Fit(frames)
      requires hbrSwap ==> channels == HBR_CHANNELS
      modifies block
      ensures block[..from] == old(block[..from])
      ensures hbrSwap ==> forall f :: f in frames ==> |f| == HBR_CHANNELS
      ensures block[from..from + |frames|] == Played(frames, hbrSwap)
    {
      var n := |frames|;
      forall j | from <= j < from + n {
        block[j] := frames[j - from];
      }
      if hbrSwap {
        assert forall j :: from <= j < from + n ==> block[j] in frames;
        SwapWords(from, n);
      }
      forall k | 0 <= k < n
        ensures block[from..from + n][k] == Played(frames, hbrSwap)[k]
      {
        assert frames[k] in frames && block[from..from + n][k] == block[from + k];
      }
    }

    /** Puts `frames` behind the partial block. */
    method Copy(frames: seq<Frame>)
      requires Valid() && Fit(frames) && |frames| <= GRAIN_FRAMES - blockFrames
      modifies this`blockFrames, this`accepted, block
      ensures Valid() && accepted == old(accepted) + frames
      ensures blockFrames == old(blockFrames) + |frames|
    {
      hide Played, Flatten, FullBlocks, Fit;
      var n := |frames|;
      ghost var a, whole := block[..blockFrames], Flatten(emitted);
      Write(frames, blockFrames);
      ghost var tail := block[blockFrames..blockFrames + n];
      assert block[..blockFrames + n] == a + tail;
      FitMore(accepted, frames);
      PlayedMore(whole, a, tail, accepted, frames);
      accepted := accepted + frames;
      blockFrames := blockFrames + n;
    }

    lemma FitMore(a: seq<Frame>, b: seq<Frame>)
      requires Fit(a) && Fit(b)
      ensures Fit(a + b)
    {
    }

    lemma PlayedMore(whole: seq<Frame>, a: seq<Frame>, tail: seq<Frame>, before: seq<Frame>, frames: seq<Frame>)
      requires Fit(before + frames) && Fit(before) && Fit(frames) && (hbrSwap ==> channels == HBR_CHANNELS)
      requires whole + a == Played(before, hbrSwap) && tail == Played(frames, hbrSwap)
      ensures whole + (a + tail) == Played(before + frames, hbrSwap)
    {
      hide Played;
      PlayedConcat(before, frames, hbrSwap);
      assert whole + (a + tail) == whole + a + tail;
    }

    /** Words 2 and 3 of the frames from `from` on change places. */
    method SwapWords(from: nat, n: nat)
      requires from + n <= block.Length
      requires forall j :: from <= j < from + n ==> |block[j]| == HBR_CHANNELS
      modifies block
      ensures forall j :: 0 <= j < block.Length ==>
        block[j] == if from <= j < from + n then Swapped(old(block[j])) else old(block[j])
    {
      var f := from;
      while f < from + n
        invariant from <= f <= from + n
        invariant forall j :: 0 <= j < block.Length ==>
          block[j] == if from <= j < f then Swapped(old(block[j])) else old(block[j])
      {
        var w := block[f];
        block[f] := w[2 := w[3]][3 := w[2]];
        f := f + 1;
      }
    }

    /** A block the port takes leaves an empty one behind. */
    method PlayBlock() returns (ok: bool)
      requires Valid() && blockFrames == GRAIN_FRAMES
      modifies this`blockFrames, this`emitted, this`refusals
      ensures Valid() && blockFrames == if ok then 0 else GRAIN_FRAMES
      ensures emitted == if ok then old(emitted) + [block[..]] else old(emitted)
      ensures refusals == if ok then old(refusals) else old(refusals) + 1
    {
      hide Played, Flatten;
      assert block[..blockFrames] == block[..] && block[..0] == [];
      FlattenAppend(emitted, block[..]);
      ok := Output();
      if ok {
        blockFrames := 0;
        assert Flatten(emitted) + [] == Flatten(emitted);
      }
    }

    /** Takes frames until all are taken or the port refuses a block; the count taken is returned,
        and a refused block is kept whole for the next call. */
    method AddPackets(data: seq<Frame>, frames: nat, offset: nat) returns (taken: nat)
      requires Valid() && Fit(data) && offset + frames <= |data|
      modifies this`blockFrames, this`accepted, this`emitted, this`refusals, block
      ensures Valid() && taken <= frames
      ensures accepted == old(accepted) + data[offset..offset + taken]
      ensures handle <= 0 ==> taken == 0 && emitted == old(emitted) && blockFrames == old(blockFrames)
      ensures handle > 0 && refusals == old(refusals) ==>
        taken == frames && (frames > 0 ==> blockFrames < GRAIN_FRAMES)
      ensures refusals != old(refusals) ==> blockFrames == GRAIN_FRAMES
    {
      hide Valid, Fit;
      if handle <= 0 {
        assert data[offset..offset] == [];
        return 0;
      }
      SliceFits(data, offset, frames);
      taken := Assemble(data[offset..offset + frames]);
      assert data[offset..offset + frames][..taken] == data[offset..offset + taken];
    }

    /** The loop of an open port. */
    method Assemble(data: seq<Frame>) returns (taken: nat)
      requires Valid() && Fit(data)
      modifies this`blockFrames, this`accepted, this`emitted, this`refusals, block
      ensures Valid() && taken <= |data|
      ensures accepted == old(accepted) + data[..taken]
      ensures refusals == old(refusals) ==>
        taken == |data| && (|data| > 0 ==> blockFrames < GRAIN_FRAMES)
      ensures refusals != old(refusals) ==> blockFrames == GRAIN_FRAMES
    {
      assert blockFrames <= GRAIN_FRAMES;
      hide Valid, Fit;
      taken := 0;
      assert data[..0] == [] && accepted + [] == accepted;
      while taken < |data|
        invariant taken <= |data| && Valid() && blockFrames <= GRAIN_FRAMES
        invariant accepted == old(accepted) + data[..taken] && refusals == old(refusals)
        invariant 0 < taken ==> blockFrames < GRAIN_FRAMES
        decreases |data| - taken, blockFrames
      {
        var n, ok := Fill(data, taken, |data| - taken);
        OneSlice(old(accepted), data, taken, n);
        taken := taken + n;
        if !ok {
          return;
        }
      }
    }

    /** One turn of the loop: as many frames as fit, then the block if it is full. */
    method Fill(data: seq<Frame>, src: nat, remaining: nat) returns (n: nat, ok: bool)
      requires Valid() && Fit(data) && 0 < remaining && src + remaining <= |data|
      modifies this`blockFrames, this`accepted, this`emitted, this`refusals, block
      ensures Valid() && blockFrames <= GRAIN_FRAMES
      ensures n <= remaining && accepted == old(accepted) + data[src..src + n]
      ensures n == 0 ==> old(blockFrames) == GRAIN_FRAMES
      ensures if ok then blockFrames < GRAIN_FRAMES && refusals == old(refusals)
              else blockFrames == GRAIN_FRAMES && refusals == old(refusals) + 1
    {
      hide Flatten, Played;
      var space := GRAIN_FRAMES - blockFrames;
      n := if space < remaining then space else remaining;
      SliceFits(data, src, n);
      Copy(data[src..src + n]);
      ok := true;
      if blockFrames == GRAIN_FRAMES {
        ok := PlayBlock();
      }
    }

    lemma OneSlice(before: seq<Frame>, data: seq<Frame>, from: nat, n: nat)
      requires from + n <= |data|
      ensures before + data[..from] + data[from..from + n] == before + data[..from + n]
    {
      assert data[..from] + data[from..from + n] == data[..from + n];
    }

    lemma SliceFits(data: seq<Frame>, from: nat, n: nat)
      requires Fit(data) && from + n <= |data|
      ensures Fit(data[from..from + n])
    {
      assert forall f :: f in data[from..from + n] ==> f in data;
    }
  }

  // ---- independence of the call sizes ------------------------------------------

  lemma {:induction false} FlattenLength(blocks: seq<seq<Frame>>)
    requires FullBlocks(blocks)
    ensures |Flatten(blocks)| == GRAIN_FRAMES * |blocks|
  {
    if blocks != [] {
      assert forall b :: b in blocks[..|blocks| - 1] ==> b in blocks;
      FlattenLength(blocks[..|blocks| - 1]);
    }
  }

  /** The frames taken decide the blocks played and what is left in the block, however the calls were cut: but for a
      full block, which the port may have played or refused. */
  lemma BlocksAreDetermined(a: seq<seq<Frame>>, p: seq<Frame>, b: seq<seq<Frame>>, q: seq<Frame>)
    requires FullBlocks(a) && FullBlocks(b) && |p| <= GRAIN_FRAMES && |q| <= GRAIN_FRAMES
    requires Flatten(a) + p == Flatten(b) + q
    ensures
      || (a == b && p == q)
      || (|p| == GRAIN_FRAMES && b == a + [p] && q == [])
      || (|q| == GRAIN_FRAMES && a == b + [q] && p == [])
  {
    hide FullBlocks, Flatten;
    var (a', p', b', q') := (WithFull(a, p), Remainder(p), WithFull(b, q), Remainder(q));
    FullIsPlayed(a, p);
    FullIsPlayed(b, q);
    SplitIsUnique(a', p', b', q');
    if |p| == GRAIN_FRAMES && |q| == GRAIN_FRAMES {
      assert a == a'[..|a'| - 1] && b == b'[..|b'| - 1] && p == a'[|a'| - 1] && q == b'[|b'| - 1];
    }
  }

  /** With a full block played. */
  function WithFull(blocks: seq<seq<Frame>>, p: seq<Frame>): seq<seq<Frame>> {
    if |p| == GRAIN_FRAMES then blocks + [p] else blocks
  }

  function Remainder(p: seq<Frame>): seq<Frame> {
    if |p| == GRAIN_FRAMES then [] else p
  }

  lemma FullIsPlayed(blocks: seq<seq<Frame>>, p: seq<Frame>)
    requires FullBlocks(blocks) && |p| <= GRAIN_FRAMES
    ensures FullBlocks(WithFull(blocks, p)) && |Remainder(p)| < GRAIN_FRAMES
    ensures Flatten(WithFull(blocks, p)) + Remainder(p) == Flatten(blocks) + p
  {
    FlattenAppend(blocks, p);
    assert Flatten(blocks) + p + [] == Flatten(blocks) + p;
  }

  /** Full blocks and less than one more are cut out of a stream in one way. */
  lemma {:induction false} SplitIsUnique(a: seq<seq<Frame>>, p: seq<Frame>, b: seq<seq<Frame>>, q: seq<Frame>)
    requires FullBlocks(a) && FullBlocks(b) && |p| < GRAIN_FRAMES && |q| < GRAIN_FRAMES
    requires Flatten(a) + p == Flatten(b) + q
    ensures a == b && p == q
    decreases |a|
  {
    hide FullBlocks;
    FlattenLength(a);
    FlattenLength(b);
    assert |Flatten(a) + p| == GRAIN_FRAMES * |a| + |p| == GRAIN_FRAMES * |b| + |q|;
    assert |a| == |b| && |p| == |q|;
    SameTails(Flatten(a), p, Flatten(b), q);
    if a != [] {
      var a', b', x, y := a[..|a| - 1], b[..|b| - 1], a[|a| - 1], b[|b| - 1];
      LastBlock(a);
      LastBlock(b);
      SameTails(Flatten(a'), x, Flatten(b'), y);
      SplitIsUnique(a', [], b', []);
      assert a == a' + [x] && b == b' + [y];
    }
  }

  lemma SameTails(a: seq<Frame>, p: seq<Frame>, b: seq<Frame>, q: seq<Frame>)
    requires a + p == b + q && |p| == |q|
    ensures a == b && p == q && a + [] == b + []
  {
    assert |a| == |b|;
    assert a == (a + p)[..|a|] && b == (b + q)[..|b|];
    assert p == (a + p)[|a|..] && q == (b + q)[|b|..];
  }

  lemma LastBlock(blocks: seq<seq<Frame>>)
    requires blocks != [] && FullBlocks(blocks)
    ensures FullBlocks(blocks[..|blocks| - 1]) && |blocks[|blocks| - 1]| == GRAIN_FRAMES
    ensures Flatten(blocks) == Flatten(blocks[..|blocks| - 1]) + blocks[|blocks| - 1]
  {
    assert forall b :: b in blocks[..|blocks| - 1] ==> b in blocks;
    assert blocks[|blocks| - 1] in blocks;
  }
}
