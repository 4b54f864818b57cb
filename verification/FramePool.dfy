/**
 Who holds each of the decoder's frames, as steps of a machine: every section under a lock, every
 call into the hardware and every hand-over of a picture is one step, and pictures are released
 from other threads between any two of them.
 */
module FramePool {
  import opened Wrappers

  const FRAMES: nat := 20

  datatype FrameState = Free | Decoder | Kodi

  /** A picture buffer: with its pool, showing a frame, or on its way back with its frame given up. */
  datatype Buffer = Empty | Showing(frame: nat) | Returning

  /** Where the decoding thread is, and what it holds. */
  datatype Stage =
    | Idle
    | Offering(frame: nat)
    | Answered(offered: nat, accepted: bool, output: Option<nat>)
    | Marked(taken: Option<nat>)
    | Holding(picture: nat)
    | Wrapping(shown: nat, id: nat)
    | Sweeping
    | Closed

  datatype Pool = Pool(frames: seq<FrameState>, next: nat, hardware: set<nat>,
                       buffers: seq<Buffer>, free: seq<nat>, stage: Stage)

  function Initial(): Pool {
    Pool(seq(FRAMES, _ => Free), 0, {}, [], [], Idle)
  }

  datatype Event =
    | Claim                                                   // NextFrameBuffer
    | Hardware(accepted: bool, output: Option<nat>, failed: bool)
    | MarkDecoder                                             // the frame the hardware accepted
    | MarkKodi                                                // ToPicture
    | Discard                                                 // ReleaseFrame of a hidden picture
    | GetBuffer                                               // the pool's Get
    | SetBuffer                                               // the buffer's Set
    | ReturnFrame(id: nat)                                    // any thread
    | ReturnBuffer(id: nat)                                   // any thread
    | HardwareReset
    | Sweep                                                   // Reset under the lock
    | Close

  /** The first free frame in ring order from `from`, looking at `count` frames. */
  function FirstFree(frames: seq<FrameState>, from: nat, count: nat): (i: Option<nat>)
    requires |frames| == FRAMES && from < FRAMES
    ensures i.Some? ==> i.value < FRAMES && frames[i.value] == Free
    decreases count
  {
    if count == 0 then None
    else if frames[from] == Free then Some(from)
    else FirstFree(frames, (from + 1) % FRAMES, count - 1)
  }

  lemma FirstFreeStep(frames: seq<FrameState>, from: nat, n: nat)
    requires |frames| == FRAMES && from < FRAMES && n <= FRAMES
    ensures var i := (from + n) % FRAMES;
      FirstFree(frames, i, FRAMES - n)
      == if n == FRAMES then None else if frames[i] == Free then Some(i)
         else FirstFree(frames, (from + n + 1) % FRAMES, FRAMES - n - 1)
    ensures (from + 0) % FRAMES == from
  {
    assert ((from + n) % FRAMES + 1) % FRAMES == (from + n + 1) % FRAMES;
  }

  /** The ring search misses no free frame. */
  lemma {:induction false} FirstFreeFinds(frames: seq<FrameState>, from: nat, count: nat, i: nat)
    requires |frames| == FRAMES && from < FRAMES && count <= FRAMES
    requires i < FRAMES && frames[i] == Free
    requires if from + count <= FRAMES then from <= i < from + count
             else from <= i || i < from + count - FRAMES
    ensures FirstFree(frames, from, count).Some?
    decreases count
  {
    if count > 0 && frames[from] != Free {
      assert (from + 1) % FRAMES == if from + 1 == FRAMES then 0 else from + 1;
      FirstFreeFinds(frames, (from + 1) % FRAMES, count - 1, i);
    }
  }

  function Released(frames: seq<FrameState>): seq<FrameState> {
    seq(|frames|, i requires 0 <= i < |frames| => if frames[i] == Decoder then Free else frames[i])
  }

  predicate Shape(s: Pool) {
    |s.frames| == FRAMES && s.next < FRAMES
  }

  /** The hardware returns only frames it accepted and still has. */
  predicate HardwareMay(s: Pool, accepted: bool, output: Option<nat>)
    requires s.stage.Offering?
  {
    output.Some? ==> output.value in s.hardware || (accepted && output.value == s.stage.frame)
  }

  /** One step; nothing when the event cannot happen in `s`. */
  function Next(s: Pool, e: Event): (r: Option<Pool>)
    requires Shape(s)
    ensures r.Some? ==> Shape(r.value)
  {
    match e
    case Claim =>
      if s.stage != Idle then None else
        (match FirstFree(s.frames, s.next, FRAMES)
         case Some(i) => Some(s.(next := (i + 1) % FRAMES, stage := Offering(i)))
         case None => Some(s))
    case Hardware(accepted, output, failed) =>
      if !s.stage.Offering? || !HardwareMay(s, accepted, output) then None else
        var had := s.hardware + if accepted then {s.stage.frame} else {};
        var left := if output.Some? then had - {output.value} else had;
        Some(s.(hardware := left,
                stage := Answered(s.stage.frame, accepted, if failed then None else output)))
    case MarkDecoder =>
      if !s.stage.Answered? || s.stage.offered >= FRAMES then None
      else if s.stage.accepted then
        Some(s.(frames := s.frames[s.stage.offered := Decoder], stage := Marked(s.stage.output)))
      else Some(s.(stage := Marked(s.stage.output)))
    case MarkKodi =>
      if !s.stage.Marked? then None
      else
        (match s.stage.taken
         case None => Some(s.(stage := Idle))
         case Some(j) => if j >= FRAMES then None
                         else Some(s.(frames := s.frames[j := Kodi], stage := Holding(j))))
    case Discard =>
      if !s.stage.Holding? || s.stage.picture >= FRAMES then None
      else Some(s.(frames := Given(s.frames, s.stage.picture), stage := Idle))
    case GetBuffer =>
      if !s.stage.Holding? then None
      else if s.free != [] then
        Some(s.(free := s.free[..|s.free| - 1], stage := Wrapping(s.stage.picture, s.free[|s.free| - 1])))
      else Some(s.(buffers := s.buffers + [Empty], stage := Wrapping(s.stage.picture, |s.buffers|)))
    case SetBuffer =>
      if !s.stage.Wrapping? || s.stage.id >= |s.buffers| then None
      else Some(s.(buffers := s.buffers[s.stage.id := Showing(s.stage.shown)], stage := Idle))
    case ReturnFrame(id) =>
      if id >= |s.buffers| || !s.buffers[id].Showing? || s.buffers[id].frame >= FRAMES then None
      else Some(s.(frames := Given(s.frames, s.buffers[id].frame), buffers := s.buffers[id := Returning]))
    case ReturnBuffer(id) =>
      if id >= |s.buffers| || s.buffers[id] != Returning then None
      else Some(s.(buffers := s.buffers[id := Empty], free := s.free + [id]))
    case HardwareReset =>
      if s.stage != Idle then None else Some(s.(hardware := {}, stage := Sweeping))
    case Sweep =>
      if s.stage != Sweeping then None
      else Some(s.(frames := Released(s.frames), stage := Idle))
    case Close =>
      if s.stage != Idle then None else Some(AfterClose(s))
  }

  /** Close takes every frame back, whoever has it. */
  function AfterClose(s: Pool): Pool {
    s.(frames := seq(FRAMES, _ => Free), next := 0, hardware := {}, stage := Closed)
  }

  /** ReleaseFrame: a frame of Kodi's is free again. */
  function Given(frames: seq<FrameState>, i: nat): seq<FrameState>
    requires i < |frames|
  {
    if frames[i] == Kodi then frames[i := Free] else frames
  }

  /** Any interleaving of steps from the start. */
  function Run(trace: seq<Event>): (r: Option<Pool>)
    ensures r.Some? ==> Shape(r.value)
  {
    if trace == [] then Some(Initial()) else
      var before := Run(trace[..|trace| - 1]);
      if before.None? then None else Next(before.value, trace[|trace| - 1])
  }

  // ---- ownership --------------------------------------------------------------

  /** The frame of the picture in the decoding thread's hands. */
  function InHand(s: Pool): Option<nat> {
    match s.stage
    case Holding(j) => Some(j)
    case Wrapping(j, _) => Some(j)
    case _ => None
  }

  /** `i` is the frame of a live picture: one in a buffer, or one in hand. */
  ghost predicate Live(s: Pool, i: nat) {
    (exists id :: 0 <= id < |s.buffers| && s.buffers[id] == Showing(i)) || InHand(s) == Some(i)
  }

  /** No two live pictures on one frame. */
  ghost predicate OnePicturePerFrame(s: Pool) {
    && (forall a, b :: 0 <= a < b < |s.buffers| && s.buffers[a].Showing? ==> s.buffers[a] != s.buffers[b])
    && (forall a :: 0 <= a < |s.buffers| && s.buffers[a].Showing? ==> InHand(s) != Some(s.buffers[a].frame))
  }

  /** Live pictures are exactly on the frames marked as Kodi's. */
  ghost predicate LiveIsKodi(s: Pool)
    requires Shape(s)
  {
    && (forall i :: 0 <= i < FRAMES ==> (s.frames[i] == Kodi <==> Live(s, i)))
    && (forall i: nat :: Live(s, i) ==> i < FRAMES)
  }

  /** What the hardware has, the table shows as the decoder's - but for the frame just accepted. */
  ghost predicate HardwareIsDecoder(s: Pool)
    requires Shape(s)
  {
    forall i :: i in s.hardware ==>
      i < FRAMES
      && (s.frames[i] == Decoder || (s.stage.Answered? && s.stage.accepted && s.stage.offered == i))
  }

  ghost predicate StageIsRight(s: Pool)
    requires Shape(s)
  {
    match s.stage
    case Offering(i) => i < FRAMES && s.frames[i] == Free && i !in s.hardware
    case Answered(i, accepted, output) =>
      && i < FRAMES && s.frames[i] == Free && (!accepted ==> i !in s.hardware)
      && (output.Some? ==>
            output.value < FRAMES && output.value !in s.hardware
            && (s.frames[output.value] == Decoder || (accepted && output.value == i)))
    case Marked(Some(j)) => j < FRAMES && s.frames[j] == Decoder && j !in s.hardware
    case Sweeping => s.hardware == {}
    case _ => true
  }

  /** The pool's list holds exactly its empty buffers, once each. */
  ghost predicate ListIsRight(s: Pool) {
    && (forall a, b :: 0 <= a < b < |s.free| ==> s.free[a] != s.free[b])
    && (forall id :: id in s.free ==> id < |s.buffers| && s.buffers[id] == Empty)
    && (s.stage.Wrapping? ==> s.stage.id < |s.buffers| && s.buffers[s.stage.id] == Empty && s.stage.id !in s.free)
  }

  ghost predicate Owned(s: Pool) {
    && Shape(s) && OnePicturePerFrame(s) && LiveIsKodi(s) && HardwareIsDecoder(s)
    && StageIsRight(s) && ListIsRight(s)
  }

  ghost predicate NoneLive(s: Pool) {
    forall i: nat :: !Live(s, i)
  }

  /** Closing keeps ownership exactly when no picture is live. */
  lemma CloseOwned(s: Pool)
    requires Owned(s) && s.stage == Idle
    ensures IsClosed(AfterClose(s)) && (Owned(AfterClose(s)) <==> NoneLive(s))
  {
    SameLive(s, AfterClose(s));
    ShowingInRange(s);
    ClosedOwned(AfterClose(s));
  }

  lemma ShowingInRange(s: Pool)
    requires Owned(s)
    ensures forall id :: 0 <= id < |s.buffers| && s.buffers[id].Showing? ==> s.buffers[id].frame < FRAMES
  {
    forall id | 0 <= id < |s.buffers| && s.buffers[id].Showing?
      ensures s.buffers[id].frame < FRAMES
    {
      assert Live(s, s.buffers[id].frame);
    }
  }

  /** After a close: all frames are free, and pictures may be left without one. */
  ghost predicate IsClosed(s: Pool) {
    && s.stage == Closed && s.frames == seq(FRAMES, _ => Free) && s.next < FRAMES && s.hardware == {}
    && OnePicturePerFrame(s) && ListIsRight(s)
    && forall id :: 0 <= id < |s.buffers| && s.buffers[id].Showing? ==> s.buffers[id].frame < FRAMES
  }

  lemma ClosedOwned(s: Pool)
    requires IsClosed(s)
    ensures Owned(s) <==> NoneLive(s)
  {
  }

  /** Pictures are given back after a close as before. */
  lemma ClosedKept(s: Pool, e: Event)
    requires IsClosed(s) && Next(s, e).Some?
    ensures IsClosed(Next(s, e).value)
  {
    var t := Next(s, e).value;
    if e.ReturnBuffer? {
      assert forall a :: a in t.free <==> a in s.free || a == e.id;
    }
  }

  lemma OwnedAtStart()
    ensures Owned(Initial())
  {
  }

  lemma SameLive(s: Pool, t: Pool)
    requires InHand(s) == InHand(t) && |s.buffers| <= |t.buffers|
    requires forall a :: 0 <= a < |s.buffers| ==> t.buffers[a] == s.buffers[a]
    requires forall a :: |s.buffers| <= a < |t.buffers| ==> !t.buffers[a].Showing?
    ensures forall i: nat :: Live(s, i) <==> Live(t, i)
  {
    forall i: nat | Live(s, i)
      ensures Live(t, i)
    {
      if InHand(s) != Some(i) {
        var id :| 0 <= id < |s.buffers| && s.buffers[id] == Showing(i);
        assert t.buffers[id] == Showing(i);
      }
    }
  }

  lemma TakingBuffer(s: Pool, t: Pool)
    requires Owned(s) && Next(s, GetBuffer) == Some(t)
    ensures Owned(t)
  {
    SameLive(s, t);
    if s.free != [] {
      assert s.free[|s.free| - 1] in s.free;
      assert forall id :: id in t.free ==> id in s.free;
    }
  }

  lemma OwnedKept(s: Pool, e: Event)
    requires Owned(s) && e != Close && Next(s, e).Some?
    ensures Owned(Next(s, e).value)
  {
    var t := Next(s, e).value;
    match e
    case Claim =>
      SameLive(s, t);
    case Hardware(_, _, _) =>
      SameLive(s, t);
    case MarkDecoder =>
      SameLive(s, t);
    case MarkKodi =>
      TakingOne(s, t);
    case Discard =>
      DroppingOne(s, t);
    case GetBuffer =>
      TakingBuffer(s, t);
    case SetBuffer =>
      Wrapped(s, t);
    case ReturnFrame(id) =>
      Returned(s, t, id);
    case ReturnBuffer(id) =>
      Listed(s, t, id);
    case HardwareReset =>
      SameLive(s, t);
    case Sweep =>
      SameLive(s, t);
  }

  lemma TakingOne(s: Pool, t: Pool)
    requires Owned(s) && Next(s, MarkKodi) == Some(t)
    ensures Owned(t)
  {
    forall i: nat
      ensures Live(t, i) <==> Live(s, i) || InHand(t) == Some(i)
    {
    }
  }

  lemma DroppingOne(s: Pool, t: Pool)
    requires Owned(s) && Next(s, Discard) == Some(t)
    ensures Owned(t)
  {
    var j := s.stage.picture;
    assert InHand(s) == Some(j) && Live(s, j);
    forall i: nat
      ensures Live(t, i) <==> Live(s, i) && i != j
    {
    }
  }

  lemma Wrapped(s: Pool, t: Pool)
    requires Owned(s) && Next(s, SetBuffer) == Some(t)
    ensures Owned(t)
  {
    var j, id := s.stage.shown, s.stage.id;
    assert t.buffers[id] == Showing(j);
    forall i: nat
      ensures Live(t, i) <==> Live(s, i)
    {
      if Live(s, i) && i != j {
        var a :| 0 <= a < |s.buffers| && s.buffers[a] == Showing(i);
        assert t.buffers[a] == Showing(i);
      }
    }
  }

  lemma Returned(s: Pool, t: Pool, id: nat)
    requires Owned(s) && Next(s, ReturnFrame(id)) == Some(t)
    ensures Owned(t)
  {
    var j := s.buffers[id].frame;
    assert Live(s, j);
    forall i: nat
      ensures Live(t, i) <==> Live(s, i) && i != j
    {
      if Live(s, i) && i != j && InHand(s) != Some(i) {
        var a :| 0 <= a < |s.buffers| && s.buffers[a] == Showing(i);
        assert t.buffers[a] == Showing(i);
      }
    }
  }

  lemma Listed(s: Pool, t: Pool, id: nat)
    requires Owned(s) && Next(s, ReturnBuffer(id)) == Some(t)
    ensures Owned(t)
  {
    forall i: nat
      ensures Live(t, i) <==> Live(s, i)
    {
      if Live(s, i) && InHand(s) != Some(i) {
        var a :| 0 <= a < |s.buffers| && s.buffers[a] == Showing(i);
        assert t.buffers[a] == Showing(i);
      }
    }
    assert forall a :: a in t.free <==> a in s.free || a == id;
  }

  /** Owned up to a close, and after it exactly while no picture is live. */
  ghost predicate WellOwned(s: Pool) {
    if s.stage == Closed then IsClosed(s) && (Owned(s) <==> NoneLive(s)) else Owned(s)
  }

  lemma WellOwnedKept(s: Pool, e: Event)
    requires WellOwned(s) && Shape(s) && Next(s, e).Some?
    ensures WellOwned(Next(s, e).value)
  {
    var t := Next(s, e).value;
    assert s.stage == Closed ==> e != Close;
    assert t.stage == Closed <==> e == Close || s.stage == Closed;
    assert e == Close ==> s.stage == Idle && t == AfterClose(s);
    hide Owned, IsClosed, NoneLive, Next, AfterClose;
    if e == Close {
      CloseOwned(s);
    } else if s.stage == Closed {
      ClosedKept(s, e);
    } else {
      OwnedKept(s, e);
    }
    if t.stage == Closed {
      ClosedOwned(t);
    }
  }

  /** Over every run of every interleaving: each frame marked as Kodi's carries exactly one live
      picture, and no other frame carries any - up to a close, and after it exactly while no picture
      is live. */
  lemma {:induction false} RunsAreOwned(trace: seq<Event>)
    requires Run(trace).Some?
    ensures WellOwned(Run(trace).value)
  {
    if trace == [] {
      OwnedAtStart();
    } else {
      var before := trace[..|trace| - 1];
      assert Run(before).Some? && Run(trace) == Next(Run(before).value, trace[|trace| - 1]);
      hide Run, WellOwned, Next;
      RunsAreOwned(before);
      WellOwnedKept(Run(before).value, trace[|trace| - 1]);
    }
  }

  /** The frame offered to the decoder is never one of a live picture, nor one the hardware has. */
  lemma OfferedFrameIsNobodys(trace: seq<Event>)
    requires Run(trace).Some? && Run(trace).value.stage.Offering?
    ensures var s := Run(trace).value;
      s.stage.frame < FRAMES && s.frames[s.stage.frame] == Free
      && !Live(s, s.stage.frame) && s.stage.frame !in s.hardware
  {
    RunsAreOwned(trace);
  }

  /** The first picture, on frame 0, in the decoding thread's hands. */
  function FirstHeld(): Pool {
    Initial().(next := 1, frames := Initial().frames[0 := Kodi], stage := Holding(0))
  }

  lemma FirstDecoded()
    ensures Run([Claim, Hardware(true, Some(0), false), MarkDecoder, MarkKodi]) == Some(FirstHeld())
  {
    var i, h := Initial(), Hardware(true, Some(0), false);
    assert FirstFree(i.frames, 0, FRAMES) == Some(0) && Run([]) == Some(i);
    hide FirstFree, Run;
    assert {} + {0} - {0} == {} && i.frames[0 := Decoder][0 := Kodi] == i.frames[0 := Kodi];
    RunMore([], Claim);
    RunMore([Claim], h);
    RunMore([Claim, h], MarkDecoder);
    RunMore([Claim, h, MarkDecoder], MarkKodi);
    assert [] + [Claim] == [Claim] && [Claim] + [h] == [Claim, h];
    assert [Claim, h] + [MarkDecoder] == [Claim, h, MarkDecoder];
    assert [Claim, h, MarkDecoder] + [MarkKodi] == [Claim, h, MarkDecoder, MarkKodi];
  }

  function FirstOnShow(): Pool {
    FirstHeld().(buffers := [Showing(0)], stage := Idle)
  }

  lemma FirstWrapped()
    ensures Run([Claim, Hardware(true, Some(0), false), MarkDecoder, MarkKodi] + [GetBuffer] + [SetBuffer])
            == Some(FirstOnShow())
    ensures Live(FirstOnShow(), 0)
  {
    FirstDecoded();
    var t := [Claim, Hardware(true, Some(0), false), MarkDecoder, MarkKodi];
    var held := FirstHeld();
    hide FirstFree, Run;
    RunMore(t, GetBuffer);
    RunMore(t + [GetBuffer], SetBuffer);
    assert held.buffers + [Empty] == [Empty] && [Empty][0 := Showing(0)] == [Showing(0)];
    assert FirstOnShow().buffers[0] == Showing(0);
  }

  /** It is shown, and the next frame is on offer: runs with live pictures exist. */
  lemma FirstShown()
    ensures
      var held := [Claim, Hardware(true, Some(0), false), MarkDecoder, MarkKodi];
      var s := Run(held + [GetBuffer] + [SetBuffer] + [Claim]);
      s.Some? && s.value.stage == Offering(1) && Live(s.value, 0) && s.value.frames[0] == Kodi
  {
    var t := [Claim, Hardware(true, Some(0), false), MarkDecoder, MarkKodi] + [GetBuffer] + [SetBuffer];
    assert FirstFree(FirstOnShow().frames, 1, FRAMES) == Some(1);
    hide FirstFree, Run;
    FirstWrapped();
    RunMore(t, Claim);
  }

  /** The decoder closed while that picture is shown: its frame is free, so another owner is possible. */
  lemma ClosedWhileShown()
    ensures
      var held := [Claim, Hardware(true, Some(0), false), MarkDecoder, MarkKodi];
      var s := Run(held + [GetBuffer] + [SetBuffer] + [Close]);
      s.Some? && IsClosed(s.value) && Live(s.value, 0) && s.value.frames[0] == Free && !Owned(s.value)
  {
    hide Run, Owned, IsClosed, WellOwned, Live;
    var t := [Claim, Hardware(true, Some(0), false), MarkDecoder, MarkKodi] + [GetBuffer] + [SetBuffer];
    FirstWrapped();
    RunMore(t, Close);
    RunsAreOwned(t);
    StillOwned(FirstOnShow());
    CloseOwned(FirstOnShow());
    SameLive(FirstOnShow(), AfterClose(FirstOnShow()));
  }

  lemma StillOwned(s: Pool)
    requires WellOwned(s) && s.stage != Closed
    ensures Owned(s)
  {
  }

  lemma RunMore(trace: seq<Event>, e: Event)
    ensures Run(trace + [e]) == if Run(trace).None? then None else Next(Run(trace).value, e)
  {
    assert (trace + [e])[..|trace|] == trace;
  }

  /** Flush leaves the frame unmarked when the hardware reports a failure: that is right exactly when the
      hardware has not kept it. */
  lemma FailedFlush(s: Pool, accepted: bool)
    requires Owned(s) && s.stage.Offering?
    ensures
      var after := s.(hardware := s.hardware + (if accepted then {s.stage.frame} else {}), stage := Idle);
      Owned(after) <==> !accepted
  {
    var after := s.(hardware := s.hardware + (if accepted then {s.stage.frame} else {}), stage := Idle);
    SameLive(s, after);
    SameLive(after, s);
    assert accepted ==> s.stage.frame in after.hardware;
  }

  // ---- frames lost ------------------------------------------------------------------

  /** The frames that the hardware returned with an error since the decoder last let go of all: nobody has them. */
  ghost function Lost(trace: seq<Event>): set<nat> {
    if trace == [] then {} else LostAfter(Lost(trace[..|trace| - 1]), trace[|trace| - 1])
  }

  function LostAfter(lost: set<nat>, e: Event): set<nat> {
    if e.Hardware? && e.failed && e.output.Some? then lost + {e.output.value}
    else if e.Sweep? || e.Close? then {}
    else lost
  }

  /** A frame of the decoder's is with the hardware, or lost, or on its way to the table; and a lost frame is the
      decoder's. */
  ghost predicate DecoderIsKnown(s: Pool, lost: set<nat>)
    requires Shape(s)
  {
    && (forall i :: 0 <= i < FRAMES && s.frames[i] == Decoder ==>
          i in s.hardware || i in lost || s.stage == Sweeping || s.stage == Marked(Some(i))
          || (s.stage.Answered? && s.stage.output == Some(i)))
    && (s.stage.Answered? && s.stage.accepted ==>
          var i := s.stage.offered; i in s.hardware || i in lost || s.stage.output == Some(i))
    && (forall i :: i in lost ==>
          i < FRAMES && i !in s.hardware && s.stage != Marked(Some(i))
          && (if s.stage.Answered? then s.stage.output != Some(i) else true)
          && (s.frames[i] == Decoder || (s.stage.Answered? && s.stage.accepted && s.stage.offered == i)))
  }

  lemma DecoderKept(s: Pool, e: Event, lost: set<nat>)
    requires Owned(s) && DecoderIsKnown(s, lost) && Next(s, e).Some?
    ensures DecoderIsKnown(Next(s, e).value, LostAfter(lost, e)) && (e == Close ==> LostAfter(lost, e) == {})
    ensures Next(s, e).value.stage == Closed ==> e == Close || s.stage == Closed
  {
    hide OnePicturePerFrame, ListIsRight;
  }

  lemma NothingLostWhenClosed(s: Pool, e: Event)
    requires IsClosed(s) && DecoderIsKnown(s, {}) && Next(s, e).Some?
    ensures DecoderIsKnown(Next(s, e).value, {}) && Next(s, e).value.stage == Closed
    ensures !e.Hardware? && e != Sweep && e != Close
  {
    ClosedKept(s, e);
  }

  lemma {:induction false} DecoderKnown(trace: seq<Event>)
    requires Run(trace).Some?
    ensures DecoderIsKnown(Run(trace).value, Lost(trace)) && (Run(trace).value.stage == Closed ==> Lost(trace) == {})
  {
    if trace != [] {
      var (before, e) := (trace[..|trace| - 1], trace[|trace| - 1]);
      assert Run(before).Some? && Run(trace) == Next(Run(before).value, e);
      RunsAreOwned(before);
      hide Run, Owned, IsClosed, DecoderIsKnown, Next;
      DecoderKnown(before);
      if Run(before).value.stage == Closed {
        NothingLostWhenClosed(Run(before).value, e);
      } else {
        DecoderKept(Run(before).value, e, Lost(before));
      }
    }
  }

  /** Between calls, after any run, the decoder's frames are those that the hardware has and those lost. */
  lemma DecoderFrames(trace: seq<Event>, i: nat)
    requires Run(trace).Some? && Run(trace).value.stage == Idle && i < FRAMES
    ensures Run(trace).value.frames[i] == Decoder <==> i in Run(trace).value.hardware || i in Lost(trace)
  {
    hide Run, OnePicturePerFrame, LiveIsKodi, ListIsRight;
    DecoderKnown(trace);
    RunsAreOwned(trace);
  }

  /** A reset recovers them all. */
  lemma ResetRecovers(trace: seq<Event>, i: nat)
    requires Run(trace + [HardwareReset] + [Sweep]).Some? && i < FRAMES
    ensures Run(trace + [HardwareReset] + [Sweep]).value.frames[i] != Decoder
    ensures Lost(trace + [HardwareReset] + [Sweep]) == {}
  {
    RunMore(trace + [HardwareReset], Sweep);
    hide Run;
  }

  /** The first frame, lost at once: the hardware took it and returned it with an error. */
  lemma FirstLost()
    ensures
      var trace := [Claim, Hardware(true, Some(0), true), MarkDecoder, MarkKodi];
      var s := Run(trace);
      && s.Some? && s.value.stage == Idle && s.value.frames[0] == Decoder && s.value.hardware == {}
      && !Live(s.value, 0) && Lost(trace) == {0}
  {
    var i, h := Initial(), Hardware(true, Some(0), true);
    assert FirstFree(i.frames, 0, FRAMES) == Some(0) && Run([]) == Some(i);
    hide FirstFree, Run, Lost, Live;
    assert {} + {0} - {0} == {};
    RunMore([], Claim);
    RunMore([Claim], h);
    RunMore([Claim, h], MarkDecoder);
    RunMore([Claim, h, MarkDecoder], MarkKodi);
    assert [] + [Claim] == [Claim] && [Claim] + [h] == [Claim, h];
    assert [Claim, h] + [MarkDecoder] == [Claim, h, MarkDecoder];
    assert [Claim, h, MarkDecoder] + [MarkKodi] == [Claim, h, MarkDecoder, MarkKodi];
    FirstIsLost();
    DecoderOrLive([Claim, h, MarkDecoder, MarkKodi]);
  }

  lemma FirstIsLost()
    ensures Lost([Claim, Hardware(true, Some(0), true), MarkDecoder, MarkKodi]) == {0}
  {
    hide Lost;
    var h := Hardware(true, Some(0), true);
    NothingLost();
    LostMore([], Claim);
    LostMore([Claim], h);
    LostMore([Claim, h], MarkDecoder);
    LostMore([Claim, h, MarkDecoder], MarkKodi);
    assert [] + [Claim] == [Claim] && [Claim] + [h] == [Claim, h];
    assert [Claim, h] + [MarkDecoder] == [Claim, h, MarkDecoder];
    assert [Claim, h, MarkDecoder] + [MarkKodi] == [Claim, h, MarkDecoder, MarkKodi];
  }

  lemma NothingLost()
    ensures Lost([]) == {}
  {
  }

  lemma LostMore(trace: seq<Event>, e: Event)
    ensures Lost(trace + [e]) == LostAfter(Lost(trace), e)
  {
    assert (trace + [e])[..|trace|] == trace;
  }

  /** A frame of the decoder's shows no picture. */
  lemma DecoderOrLive(trace: seq<Event>)
    requires Run(trace).Some? && Run(trace).value.stage != Closed
    ensures forall i :: 0 <= i < FRAMES && Run(trace).value.frames[i] == Decoder ==> !Live(Run(trace).value, i)
  {
    hide Run;
    RunsAreOwned(trace);
  }

  /** Live pictures can always be released, and only releasing them or closing frees their frames: no
      other step touches a frame of Kodi's. */
  lemma OnlyReleaseFrees(trace: seq<Event>, e: Event, i: nat)
    requires Run(trace + [e]).Some? && i < FRAMES
    requires Run(trace).Some? && Run(trace).value.frames[i] == Kodi
    ensures var (s, after) := (Run(trace).value, Run(trace + [e]).value);
      after.frames[i] != Kodi ==>
        (e.ReturnFrame? && e.id < |s.buffers| && s.buffers[e.id] == Showing(i))
        || (e.Discard? && s.stage == Holding(i)) || e == Close
  {
    RunsAreOwned(trace);
    assert (trace + [e])[..|trace|] == trace;
  }
}
