/**
 The hardware decoder's wrapper in pooled mode, with the pool of zero-copy pictures. The hardware
 accepts, returns and fails as it likes; other threads release pictures wherever no lock is held.
 */
module VideoDec2 {
  import opened Bytes
  import opened FramePool
  import opened Wrappers

  const INPUT_SIZE: nat := 8 * 1024 * 1024

  /** Other threads gave back pictures handed out to them, and no others; nothing was wrapped. */
  ghost predicate OthersMoved(all: seq<int>, out: set<nat>, all': seq<int>, out': set<nat>) {
    && |all'| == |all| && out' <= out
    && forall id :: 0 <= id < |all| ==> all'[id] == if id in out && id !in out' then -1 else all[id]
  }

  lemma StandsStill(all: seq<int>, out: set<nat>)
    ensures OthersMoved(all, out, all, out)
  {
  }

  lemma MovedOn(a: seq<int>, o: set<nat>, a': seq<int>, o': set<nat>, a'': seq<int>, o'': set<nat>)
    requires OthersMoved(a, o, a', o') && OthersMoved(a', o', a'', o'')
    ensures OthersMoved(a, o, a'', o'')
  {
  }

  /** ... and buffer `id`, which showed nothing, shows frame `j`. */
  ghost predicate BufferWrapped(all: seq<int>, out: set<nat>, all': seq<int>, out': set<nat>, id: nat, j: nat) {
    && out' <= out && id !in out && id < |all'| && all'[id] == j
    && (if id < |all| then |all'| == |all| && all[id] == -1 else |all'| == |all| + 1 && id == |all|)
    && forall k :: 0 <= k < |all| && k != id ==> all'[k] == if k in out && k !in out' then -1 else all[k]
  }

  /** A call into the hardware: for a unit or to flush, whether it failed, and the frame it returned a picture on. */
  datatype Call = Call(flush: bool, failed: bool, output: Option<nat>)

  /** With a frame free the hardware was asked for a held-back picture, once, and the answer was this one. */
  ghost predicate Flushed(m: Pool, before: seq<Call>, after: seq<Call>, picture: Option<nat>) {
    if exists i :: 0 <= i < |m.frames| && m.frames[i] == Free then
      exists failed :: after == before + [Call(true, failed, picture)]
    else picture == None && after == before
  }

  class VideoDec2 {
    const frameState: array<FrameState>
    var nextFrame: nat
    /** The latest unit of a fit size found every frame taken and was not given to the hardware. */
    var stalled: bool
    /** The frame each picture buffer shows, or -1. */
    var all: seq<int>
    var free: seq<nat>
    /** The environment: the frames the hardware has, the buffers handed out to other threads, and those
        on their way back. */
    var hardware: set<nat>
    var out: set<nat>
    var inReturn: set<nat>
    /** The same as a run of the frame machine. */
    ghost var trace: seq<Event>
    ghost var m: Pool
    /** Access units the hardware was given since the last reset. */
    ghost var consumed: seq<Bytes>
    /** Its calls and their answers. */
    ghost var calls: seq<Call>

    /** The tables agree with a run of the machine, which therefore satisfies `WellOwned`. */
    ghost predicate Valid()
      reads this, frameState
    {
      && frameState.Length == FRAMES && Run(trace) == Some(m)
      && frameState[..] == m.frames && nextFrame == m.next && hardware == m.hardware
      && |all| == |m.buffers| && free == m.free
      && (forall id :: 0 <= id < |all| ==> all[id] == match m.buffers[id] case Showing(f) => f case _ => -1)
      && (forall id :: id in inReturn <==> 0 <= id < |all| && m.buffers[id] == Returning)
      && (forall id :: id in out ==> id < |all| && all[id] >= 0)
    }

    constructor ()
      ensures Valid() && m.stage == Idle && !stalled && consumed == [] && all == [] && out == {}
      ensures fresh(frameState) && frameState.Length == 20
    {
      frameState := new FrameState[FRAMES](_ => Free);
      nextFrame, stalled, all, free, hardware, out, inReturn := 0, false, [], [], {}, {}, {};
      trace, m, consumed, calls := [], Initial(), [], [];
    }

    /** Records a step of the machine. */
    ghost method Record(e: Event, after: Pool)
      requires Run(trace) == Some(m) && Next(m, e) == Some(after)
      modifies this`trace, this`m
      ensures Run(trace) == Some(m) && m == after
    {
      assert (trace + [e])[..|trace|] == trace;
      trace, m := trace + [e], after;
    }

    lemma Claims(i: nat)
      requires FramePool.Shape(m) && m.stage == Idle && FirstFree(m.frames, m.next, FRAMES) == Some(i)
      ensures Next(m, Claim) == Some(m.(next := (i + 1) % FRAMES, stage := Offering(i)))
    {
      hide FirstFree;
    }

    /** A free frame, in ring order, or -1. */
    method NextFrameBuffer() returns (index: int)
      requires Valid() && m.stage == Idle
      modifies this`nextFrame, this`trace, this`m
      ensures Valid() && m.frames == old(m.frames)
      ensures index == -1 <==> forall i :: 0 <= i < FRAMES ==> m.frames[i] != Free
      ensures if index == -1 then m.stage == Idle
              else 0 <= index < FRAMES && m.stage == Offering(index) && m.frames[index] == Free
    {
      hide FirstFree, Next, Run;
      ghost var found := FirstFree(m.frames, nextFrame, FRAMES);
      FirstFreeStep(m.frames, nextFrame, 0);
      forall i | 0 <= i < FRAMES && m.frames[i] == Free
        ensures found.Some?
      {
        FirstFreeFinds(m.frames, nextFrame, FRAMES, i);
      }
      index := -1;
      var n := 0;
      while n < FRAMES
        invariant n <= FRAMES && Valid() && m == old(m) && index == -1
        invariant found == FirstFree(m.frames, (nextFrame + n) % FRAMES, FRAMES - n)
      {
        FirstFreeStep(m.frames, nextFrame, n);
        var i := (nextFrame + n) % FRAMES;
        if frameState[i] == Free {
          nextFrame := (i + 1) % FRAMES;
          Claims(i);
          Record(Claim, m.(next := nextFrame, stage := Offering(i)));
          return i;
        }
        n := n + 1;
      }
      FirstFreeStep(m.frames, nextFrame, n);
    }

    method HasFreeFrame() returns (r: bool)
      requires Valid()
      ensures r <==> exists i :: 0 <= i < FRAMES && m.frames[i] == Free
    {
      var i := 0;
      while i < FRAMES
        invariant i <= FRAMES && forall k :: 0 <= k < i ==> m.frames[k] != Free
      {
        if frameState[i] == Free {
          assert m.frames[i] == Free;
          return true;
        }
        i := i + 1;
      }
      return false;
    }

    /** Any thread, any index: a frame marked as Kodi's becomes free, and nothing else changes. */
    method ReleaseFrame(index: int)
      requires frameState.Length == FRAMES
      modifies frameState
      ensures frameState[..] == if 0 <= index < FRAMES then Given(old(frameState[..]), index)
                                else old(frameState[..])
    {
      if index < 0 || index >= FRAMES {
        return;
      }
      if frameState[index] == Kodi {
        frameState[index] := Free;
      }
    }

    // ---- other threads ----------------------------------------------------------

    /** What one step of another thread may do: a frame of Kodi's becomes free. */
    ghost predicate OnlyGivesBack(before: Pool, after: Pool)
      requires FramePool.Shape(before) && FramePool.Shape(after)
    {
      && after.stage == before.stage && after.hardware == before.hardware && after.next == before.next
      && forall i :: 0 <= i < FRAMES ==>
        after.frames[i] == before.frames[i] || (before.frames[i] == Kodi && after.frames[i] == Free)
    }

    /** The last reference to a picture goes: the buffer gives its frame back. */
    method GiveFrame(id: nat)
      requires Valid() && id < |all| && all[id] >= 0
      modifies this, frameState
      ensures Valid() && OnlyGivesBack(old(m), m)
      ensures stalled == old(stalled) && consumed == old(consumed)
      ensures calls == old(calls)
      ensures all == old(all)[id := -1] && out == old(out) - {id} && id in inReturn
      ensures free == old(free) && inReturn == old(inReturn) + {id}
    {
      hide Run;
      FrameInRange(id);
      ghost var after := m.(frames := Given(m.frames, m.buffers[id].frame), buffers := m.buffers[id := Returning]);
      Record(FramePool.ReturnFrame(id), after);
      ReleaseFrame(all[id]);
      all := all[id := -1];
      out := out - {id};
      inReturn := inReturn + {id};
    }

    lemma FrameInRange(id: nat)
      requires Valid() && id < |all| && all[id] >= 0
      ensures m.buffers[id] == Showing(all[id]) && all[id] < FRAMES
    {
      hide Run;
      RunsAreOwned(trace);
      if m.stage != Closed {
        ShowingInRange(m);
      }
    }

    /** A picture's buffer: it shows a frame of Kodi's, and no other one shows that frame. */
    ghost predicate ShowsFrame(id: nat)
      reads this
    {
      && id < |all| && 0 <= all[id] < FRAMES && |m.frames| == FRAMES && m.frames[all[id]] == Kodi
      && forall k :: 0 <= k < |all| && k != id ==> all[k] != all[id]
    }

    lemma Shows(id: nat)
      requires Valid() && m.stage != Closed && id < |all| && all[id] >= 0
      ensures ShowsFrame(id)
    {
      hide Run;
      FrameInRange(id);
      RunsAreOwned(trace);
      assert Live(m, all[id]);
      forall k | 0 <= k < |all| && k != id
        ensures all[k] != all[id]
      {
        assert all[k] >= 0 ==> m.buffers[k] == Showing(all[k]);
        assert k < id ==> m.buffers[k] != m.buffers[id];
        assert id < k ==> m.buffers[id] != m.buffers[k];
      }
    }

    /** ... and is listed as free. */
    method GiveBuffer(id: nat)
      requires Valid() && id in inReturn
      modifies this
      ensures Valid() && OnlyGivesBack(old(m), m) && m.frames == old(m.frames)
      ensures stalled == old(stalled) && consumed == old(consumed)
      ensures calls == old(calls)
      ensures all == old(all) && out == old(out)
      ensures free == old(free) + [id] && inReturn == old(inReturn) - {id}
    {
      hide Run;
      Record(FramePool.ReturnBuffer(id), m.(buffers := m.buffers[id := Empty], free := m.free + [id]));
      free := free + [id];
      inReturn := inReturn - {id};
    }

    /** A picture goes to another thread, which may give it back from now on. */
    method HandOut(id: nat)
      requires Valid() && id < |all| && all[id] >= 0
      modifies this`out
      ensures Valid() && out == old(out) + {id}
    {
      out := out + {id};
    }

    /** Any number of such steps, on any pictures handed out. */
    method OtherThreads()
      requires Valid()
      modifies this, frameState
      ensures Valid() && OnlyGivesBack(old(m), m) && OthersMoved(old(all), old(out), all, out)
      ensures stalled == old(stalled) && consumed == old(consumed)
      ensures calls == old(calls)
    {
      hide Run;
      var steps: nat := *;
      while steps > 0
        invariant Valid() && OnlyGivesBack(old(m), m) && OthersMoved(old(all), old(out), all, out)
        invariant stalled == old(stalled) && consumed == old(consumed)
        invariant calls == old(calls)
      {
        var id: int := *;
        if id in out {
          GiveFrame(id);
        } else if id in inReturn {
          GiveBuffer(id);
        }
        steps := steps - 1;
      }
    }

    // ---- the decoding thread ------------------------------------------------------

    /** The hardware call: it may accept the frame or not, return one it has or none, and fail; a flush
        that fails keeps no frame. */
    method Hardware(index: nat, flush: bool) returns (accepted: bool, output: Option<nat>, failed: bool)
      requires Valid() && m.stage == Offering(index)
      modifies this`hardware, this`trace, this`m, this`calls
      ensures Valid() && m.frames == old(m.frames) && m.next == old(m.next)
      ensures calls == old(calls) + [Call(flush, failed, output)]
      ensures m.stage == Answered(index, accepted, output)
      ensures failed ==> output == None && (flush ==> !accepted)
      ensures output.Some? ==> output.value < FRAMES && (output.value == index || m.frames[output.value] == Decoder)
    {
      hide Run;
      RunsAreOwned(trace);
      accepted, failed := *, *;
      if flush && failed {
        accepted := false;
      }
      var wanted: Option<nat> := *;
      var had := hardware + if accepted then {index} else {};
      if wanted.Some? && wanted.value !in had {
        wanted := None;
      }
      hardware := if wanted.Some? then had - {wanted.value} else had;
      output := if failed then None else wanted;
      calls := calls + [Call(flush, failed, output)];
      Record(FramePool.Hardware(accepted, wanted, failed),
             m.(hardware := hardware, stage := Answered(index, accepted, output)));
    }

    /** Under the lock: the frame the hardware accepted is the decoder's. */
    method MarkAccepted(index: nat, accepted: bool, ghost output: Option<nat>)
      requires Valid() && m.stage == Answered(index, accepted, output)
      modifies this`trace, this`m, frameState
      ensures Valid() && m.stage == Marked(output) && index < FRAMES
      ensures m.frames == if accepted then old(m.frames)[index := Decoder] else old(m.frames)
    {
      hide Run;
      RunsAreOwned(trace);
      ghost var frames := if accepted then m.frames[index := Decoder] else m.frames;
      Record(MarkDecoder, m.(frames := frames, stage := Marked(output)));
      if accepted {
        frameState[index] := Decoder;
      }
    }

    /** Under the lock: a returned frame is Kodi's. */
    method ToPicture(output: Option<nat>)
      requires Valid() && m.stage == Marked(output)
      modifies this`trace, this`m, frameState
      ensures Valid() && (output.Some? ==> output.value < FRAMES)
      ensures m.stage == if output.Some? then Holding(output.value) else Idle
      ensures m.frames == if output.Some? then old(m.frames)[output.value := Kodi] else old(m.frames)
    {
      hide Run;
      RunsAreOwned(trace);
      if output.None? {
        Record(MarkKodi, m.(stage := Idle));
      } else {
        var j := output.value;
        Record(MarkKodi, m.(frames := m.frames[j := Kodi], stage := Holding(j)));
        frameState[j] := Kodi;
      }
    }

    /** One call with a frame of ours, and what comes back. */
    method Offer(index: nat) returns (output: Option<nat>, failed: bool)
      requires Valid() && m.stage == Offering(index)
      modifies this, frameState
      ensures Valid() && stalled == old(stalled) && consumed == old(consumed)
      ensures calls == old(calls) + [Call(false, failed, output)]
      ensures m.stage == if output.Some? then Holding(output.value) else Idle
      ensures failed ==> output == None
      ensures output.Some? ==> output.value < FRAMES
      ensures output.Some? && output.value != index ==> old(m.frames)[output.value] == Decoder
      ensures OthersMoved(old(all), old(out), all, out)
    {
      hide Run, OthersMoved;
      ghost var a, o := all, out;
      OtherThreads();
      var accepted;
      accepted, output, failed := Hardware(index, false);
      ghost var a', o' := all, out;
      output := Settle(index, accepted, output);
      MovedOn(a, o, a', o', all, out);
    }

    /** Decodes one access unit: false on a decoder error; a picture may come out, perhaps the one
        of the frame just offered. */
    method Decode(au: Bytes) returns (ok: bool, picture: Option<nat>, immediate: bool)
      requires Valid() && m.stage == Idle
      modifies this, frameState
      ensures Valid()
      ensures m.stage == if picture.Some? then Holding(picture.value) else Idle
      ensures !ok || stalled ==> picture == None
      ensures picture.Some? ==> picture.value < FRAMES
      ensures immediate <==> picture.Some? && old(m.frames)[picture.value] == Free
      ensures au == [] || |au| > INPUT_SIZE ==> !ok && stalled == old(stalled)
      ensures 0 < |au| <= INPUT_SIZE ==>
        (stalled <==> forall i :: 0 <= i < FRAMES ==> old(m.frames)[i] != Free) && (stalled ==> ok)
      ensures consumed == old(consumed) + if 0 < |au| <= INPUT_SIZE && !stalled then [au] else []
      ensures calls == old(calls) + if 0 < |au| <= INPUT_SIZE && !stalled then [Call(false, !ok, picture)] else []
      ensures OthersMoved(old(all), old(out), all, out)
    {
      hide Run, OnlyGivesBack;
      picture, immediate := None, false;
      if |au| == 0 || |au| > INPUT_SIZE {
        return false, picture, immediate;
      }
      stalled := false;
      var index := NextFrameBuffer();
      if index < 0 {
        stalled := true;
        return true, picture, immediate;
      }
      consumed := consumed + [au];
      picture, immediate, ok := OfferUnit(index);
    }

    /** ... with the unit in the input buffer. */
    method OfferUnit(index: nat) returns (picture: Option<nat>, immediate: bool, ok: bool)
      requires Valid() && m.stage == Offering(index) && index < FRAMES && m.frames[index] == Free
      modifies this, frameState
      ensures Valid() && stalled == old(stalled) && consumed == old(consumed)
      ensures calls == old(calls) + [Call(false, !ok, picture)]
      ensures m.stage == if picture.Some? then Holding(picture.value) else Idle
      ensures !ok ==> picture == None
      ensures picture.Some? ==> picture.value < FRAMES
      ensures immediate <==> picture.Some? && old(m.frames)[picture.value] == Free
      ensures OthersMoved(old(all), old(out), all, out)
    {
      hide *;
      var failed;
      picture, failed := Offer(index);
      immediate := picture == Some(index);
      ok := !failed;
    }

    /** A held-back picture at the end of the stream. */
    method Flush() returns (picture: Option<nat>)
      requires Valid() && m.stage == Idle
      modifies this, frameState
      ensures Valid() && stalled == old(stalled) && consumed == old(consumed)
      ensures Flushed(old(m), old(calls), calls, picture)
      ensures m.stage == if picture.Some? then Holding(picture.value) else Idle
      ensures picture.Some? ==> picture.value < FRAMES && old(m.frames)[picture.value] != Kodi
      ensures OthersMoved(old(all), old(out), all, out)
    {
      hide Run, OthersMoved;
      StandsStill(all, out);
      var index := NextFrameBuffer();
      if index < 0 {
        return None;
      }
      picture := FlushInto(index);
    }

    /** ... with a free frame to put it in; no frame is kept if that fails. */
    method FlushInto(index: nat) returns (picture: Option<nat>)
      requires Valid() && m.stage == Offering(index) && index < FRAMES
      modifies this, frameState
      ensures Valid() && stalled == old(stalled) && consumed == old(consumed)
      ensures exists failed :: calls == old(calls) + [Call(true, failed, picture)]
      ensures m.stage == if picture.Some? then Holding(picture.value) else Idle
      ensures picture.Some? ==>
        picture.value < FRAMES && (picture.value == index || old(m.frames)[picture.value] == Decoder)
      ensures OthersMoved(old(all), old(out), all, out)
    {
      hide Run, OthersMoved;
      ghost var a, o := all, out;
      OtherThreads();
      var accepted, output, failed := Hardware(index, true);
      if failed {
        Unmarked(index);
        return None;
      }
      ghost var a', o' := all, out;
      picture := Settle(index, accepted, output);
      MovedOn(a, o, a', o', all, out);
    }

    /** The answer is entered in the table, in two steps under the lock. */
    method Settle(index: nat, accepted: bool, output: Option<nat>) returns (picture: Option<nat>)
      requires Valid() && m.stage == Answered(index, accepted, output)
      modifies this, frameState
      ensures Valid() && stalled == old(stalled) && consumed == old(consumed) && picture == output
      ensures calls == old(calls)
      ensures m.stage == if output.Some? then Holding(output.value) else Idle
      ensures output.Some? ==> output.value < FRAMES
      ensures OthersMoved(old(all), old(out), all, out)
    {
      hide Run, OthersMoved;
      ghost var a, o := all, out;
      OtherThreads();
      MarkAccepted(index, accepted, output);
      ghost var a', o' := all, out;
      OtherThreads();
      MovedOn(a, o, a', o', all, out);
      ToPicture(output);
      picture := output;
    }

    /** Nothing accepted, nothing returned: no frame is marked. */
    ghost method Unmarked(index: nat)
      requires Valid() && m.stage == Answered(index, false, None)
      modifies this`trace, this`m
      ensures Valid() && m == old(m).(stage := Idle)
    {
      hide Run;
      RunsAreOwned(trace);
      Record(MarkDecoder, m.(stage := Marked(None)));
      Record(MarkKodi, m.(stage := Idle));
    }

    /** A picture that is never shown: its frame is free again. */
    method Drop(j: nat)
      requires Valid() && m.stage == Holding(j)
      modifies this, frameState
      ensures Valid() && m.stage == Idle && stalled == old(stalled) && consumed == old(consumed)
      ensures calls == old(calls)
      ensures j < FRAMES && |m.frames| == FRAMES && m.frames == old(m.frames)[j := Free] && m.frames[j] == Free
      ensures all == old(all) && out == old(out)
    {
      hide Run;
      RunsAreOwned(trace);
      assert Live(m, j);
      Record(Discard, m.(frames := Given(m.frames, j), stage := Idle));
      ReleaseFrame(j);
    }

    /** A buffer of the pool for the picture in hand. */
    method Wrap(j: nat) returns (id: nat)
      requires Valid() && m.stage == Holding(j)
      modifies this, frameState
      ensures Valid() && m.stage == Idle && stalled == old(stalled) && consumed == old(consumed)
      ensures calls == old(calls)
      ensures BufferWrapped(old(all), old(out), all, out, id, j)
    {
      hide Run;
      id := GetBuffer(j);
      OtherThreads();
      RunsAreOwned(trace);
      assert id !in out && all[id] == -1;
      Record(FramePool.SetBuffer, m.(buffers := m.buffers[id := Showing(j)], stage := Idle));
      all := all[id := j];
    }

    /** Under the pool's lock: the buffer listed last, or a new one; the others stay as they are. */
    method GetBuffer(j: nat) returns (id: nat)
      requires Valid() && m.stage == Holding(j)
      modifies this
      ensures Valid() && m.stage == Wrapping(j, id) && stalled == old(stalled) && consumed == old(consumed)
      ensures calls == old(calls)
      ensures m.frames == old(m.frames) && hardware == old(hardware) && out == old(out) && inReturn == old(inReturn)
      ensures id < |all| && all[id] == -1
      ensures if old(free) != [] then old(free) == free + [id] && all == old(all)
              else free == [] && id == |old(all)| && all == old(all) + [-1]
    {
      hide Run;
      RunsAreOwned(trace);
      if free != [] {
        id := free[|free| - 1];
        assert id in m.free;
        Record(FramePool.GetBuffer, m.(free := m.free[..|m.free| - 1], stage := Wrapping(j, id)));
        free := free[..|free| - 1];
      } else {
        id := |all|;
        Record(FramePool.GetBuffer, m.(buffers := m.buffers + [Empty], stage := Wrapping(j, id)));
        all := all + [-1];
      }
    }

    /** Under the lock: every frame of the decoder's is free. */
    method SweepFrames()
      requires frameState.Length == FRAMES
      modifies frameState
      ensures frameState[..] == Released(old(frameState[..]))
    {
      var i := 0;
      while i < FRAMES
        invariant 0 <= i <= FRAMES
        invariant forall k :: 0 <= k < FRAMES ==>
          frameState[k] == if k < i && old(frameState[k]) == Decoder then Free else old(frameState[k])
      {
        if frameState[i] == Decoder {
          frameState[i] := Free;
        }
        i := i + 1;
      }
    }

    /** After a seek: no frame is the decoder's any more; a frame of Kodi's is still Kodi's unless another
        thread gave it back meanwhile. */
    method Reset()
      requires Valid() && m.stage == Idle
      modifies this, frameState
      ensures Valid() && m.stage == Idle && !stalled && consumed == []
      ensures m.hardware == {}
      ensures forall i :: 0 <= i < FRAMES ==> m.frames[i] == Free || m.frames[i] == Kodi == old(m.frames)[i]
      ensures OthersMoved(old(all), old(out), all, out)
    {
      hide Run, OthersMoved;
      LetGo();
      OtherThreads();
      SweepAll();
      stalled := false;
      consumed := [];
    }

    /** The hardware has no frame any more ... */
    method LetGo()
      requires Valid() && m.stage == Idle
      modifies this`hardware, this`trace, this`m
      ensures Valid() && m == old(m).(hardware := {}, stage := Sweeping)
    {
      hide Run;
      hardware := {};
      Record(HardwareReset, m.(hardware := {}, stage := Sweeping));
    }

    /** ... and so the table says. */
    method SweepAll()
      requires Valid() && m.stage == Sweeping
      modifies this`trace, this`m, frameState
      ensures Valid() && m == old(m).(frames := Released(old(m).frames), stage := Idle)
    {
      hide Run;
      SweepFrames();
      Record(Sweep, m.(frames := Released(m.frames), stage := Idle));
    }

    /** The decoder is deleted: every frame is free, whoever shows it, and none is offered again. Pictures
        can still be given back. */
    method Close()
      requires Valid() && m.stage == Idle
      modifies this, frameState
      ensures Valid() && m.stage == Closed
      ensures forall i :: 0 <= i < FRAMES ==> frameState[i] == Free
      ensures OthersMoved(old(all), old(out), all, out)
    {
      hide Run;
      OtherThreads();
      nextFrame := 0;
      hardware := {};
      Record(FramePool.Close, AfterClose(m));
      var i := 0;
      while i < FRAMES
        invariant 0 <= i <= FRAMES && forall k :: 0 <= k < i ==> frameState[k] == Free
        modifies frameState
      {
        frameState[i] := Free;
        i := i + 1;
      }
      assert frameState[..] == m.frames;
    }

    /** After a close with nothing on show, no frame has an owner, and none gets one. */
    lemma NothingShows()
      requires Valid() && m.stage == Closed
      ensures (forall id :: 0 <= id < |all| ==> all[id] < 0) <==> NoneLive(m)
      ensures Owned(m) <==> NoneLive(m)
    {
      hide Run;
      RunsAreOwned(trace);
      forall id | 0 <= id < |all| && all[id] >= 0
        ensures Live(m, all[id])
      {
        assert m.buffers[id] == Showing(all[id]);
      }
    }
  }
}
