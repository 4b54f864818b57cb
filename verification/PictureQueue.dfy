/**
 The pictures waiting to be taken from the codec: which buffers they are in, and which of the packets'
 timestamps they carry.
 */
module PictureQueue {
  import opened Replay
  import opened Wrappers
  import Timestamps
  import VideoDec2

  /** A queued picture: its buffer and its timestamp. */
  datatype Decoded = Decoded(buffer: nat, pts: real)

  // ---- the clock --------------------------------------------------------------------

  /** Timestamps fed and taken since the decoder last started afresh, when `first` was the latest one;
      `pictured` tells of each one taken whether a picture got it, or a unit that was dropped. */
  datatype Times = Times(events: seq<Timestamps.Event>, first: real, pictured: seq<bool>)

  ghost predicate PtsOk(t: Times, pts: seq<real>, lastPts: real, frameDuration: real) {
    var c := Timestamps.Run(t.events, t.first, frameDuration);
    c.pending == pts && c.last == lastPts && |c.given| == |t.pictured|
  }

  function Took(t: Times, picture: bool): Times {
    t.(events := t.events + [Timestamps.Shown], pictured := t.pictured + [picture])
  }

  /** A unit was dropped and took a timestamp along, or none was. */
  function Ticked(t: Times, dropped: bool): (t': Times)
    ensures |t'.events| == |t.events| + (if dropped then 1 else 0) && FedStamps(t'.events) == FedStamps(t.events)
    ensures t'.pictured == t.pictured + if dropped then [false] else []
  {
    TookNothingFed(t, false);
    if dropped then Took(t, false) else t
  }

  /** A picture got a timestamp, or there was none. */
  function Pictured(t: Times, picture: bool): (t': Times)
    ensures |t'.events| == |t.events| + (if picture then 1 else 0) && FedStamps(t'.events) == FedStamps(t.events)
    ensures t'.pictured == t.pictured + if picture then [true] else []
  {
    TookNothingFed(t, true);
    if picture then Took(t, true) else t
  }

  /** The timestamp of a packet: of its decoding when it has none of its presentation. */
  function Stamp(p: Packet): Option<real> {
    if p.pts.Some? then p.pts else p.dts
  }

  function Stamped(t: Times, p: Packet): Times {
    match Stamp(p)
    case Some(at) => t.(events := t.events + [Timestamps.Fed(at)])
    case None => t
  }

  function Afresh(lastPts: real): Times {
    Times([], lastPts, [])
  }

  lemma TookOk(t: Times, pts: seq<real>, lastPts: real, frameDuration: real, picture: bool)
    requires PtsOk(t, pts, lastPts, frameDuration)
    ensures if pts != [] then PtsOk(Took(t, picture), pts[1..], pts[0], frameDuration)
            else PtsOk(Took(t, picture), [], lastPts + frameDuration, frameDuration)
  {
    Timestamps.Appended(t.events, Timestamps.Shown, t.first, frameDuration);
    hide Timestamps.Run;
  }

  lemma StampedOk(t: Times, pts: seq<real>, lastPts: real, frameDuration: real, p: Packet)
    requires PtsOk(t, pts, lastPts, frameDuration)
    ensures PtsOk(Stamped(t, p), if Stamp(p).Some? then Timestamps.Feed(pts, Stamp(p).value) else pts, lastPts,
                  frameDuration)
  {
    if Stamp(p).Some? {
      Timestamps.Appended(t.events, Timestamps.Fed(Stamp(p).value), t.first, frameDuration);
    }
    hide Timestamps.Run, Timestamps.Feed;
  }

  lemma AfreshOk(lastPts: real, frameDuration: real)
    ensures PtsOk(Afresh(lastPts), [], lastPts, frameDuration)
  {
  }

  lemma PendingNow(t: Times, pts: seq<real>, lastPts: real, frameDuration: real)
    requires PtsOk(t, pts, lastPts, frameDuration)
    ensures Timestamps.Sorted(pts) && |pts| <= Timestamps.MAX_PENDING
    ensures pts == Timestamps.Run(t.events, t.first, frameDuration).pending
  {
    Timestamps.PendingBounded(t.events, t.first, frameDuration);
  }

  // ---- what was fed -----------------------------------------------------------------

  /** Timestamps were taken, none was fed. */
  ghost predicate OnlyTaken(t: Times, t': Times) {
    t'.first == t.first && FedStamps(t'.events) == FedStamps(t.events)
  }

  function FedStamps(events: seq<Timestamps.Event>): seq<real> {
    if events == [] then [] else
      FedStamps(events[..|events| - 1])
      + match events[|events| - 1] case Fed(t) => [t] case Shown => []
  }

  function Stamps(packets: seq<Packet>): seq<real> {
    if packets == [] then [] else
      Stamps(packets[..|packets| - 1])
      + match Stamp(packets[|packets| - 1]) case Some(t) => [t] case None => []
  }

  /** Nothing was fed but the presentation times, in order - when every packet has one; but the decoding times
      when no packet has the other. */
  ghost predicate TimesFed(fed: seq<real>, packets: seq<Packet>) {
    && ((forall p :: p in packets ==> p.pts.Some?) ==>
          |fed| == |packets| && forall i :: 0 <= i < |packets| ==> packets[i].pts == Some(fed[i]))
    && ((forall p :: p in packets ==> p.pts.None? && p.dts.Some?) ==>
          |fed| == |packets| && forall i :: 0 <= i < |packets| ==> packets[i].dts == Some(fed[i]))
    && ((forall p :: p in packets ==> p.pts.None? && p.dts.None?) ==> fed == [])
  }

  lemma {:induction false} StampsByPts(packets: seq<Packet>)
    requires forall p :: p in packets ==> p.pts.Some?
    ensures |Stamps(packets)| == |packets|
    ensures forall i :: 0 <= i < |packets| ==> packets[i].pts == Some(Stamps(packets)[i])
  {
    if packets != [] {
      StampsByPts(packets[..|packets| - 1]);
    }
  }

  lemma {:induction false} StampsByDts(packets: seq<Packet>)
    requires forall p :: p in packets ==> p.pts.None? && p.dts.Some?
    ensures |Stamps(packets)| == |packets|
    ensures forall i :: 0 <= i < |packets| ==> packets[i].dts == Some(Stamps(packets)[i])
  {
    if packets != [] {
      StampsByDts(packets[..|packets| - 1]);
    }
  }

  lemma {:induction false} NoStamps(packets: seq<Packet>)
    requires forall p :: p in packets ==> p.pts.None? && p.dts.None?
    ensures Stamps(packets) == []
  {
    if packets != [] {
      NoStamps(packets[..|packets| - 1]);
      assert packets[|packets| - 1] in packets;
    }
  }

  lemma StampsAreTimes(packets: seq<Packet>)
    ensures TimesFed(Stamps(packets), packets)
  {
    hide Stamps;
    if forall p :: p in packets ==> p.pts.Some? {
      StampsByPts(packets);
    }
    if forall p :: p in packets ==> p.pts.None? && p.dts.Some? {
      StampsByDts(packets);
    }
    if forall p :: p in packets ==> p.pts.None? && p.dts.None? {
      NoStamps(packets);
    }
  }

  /** `pts` becomes `pts'`: the presentation time joins it, or the decoding time when there is no other, and beyond
      24 the smallest are gone. */
  ghost predicate Joined(pts: seq<real>, p: Packet, pts': seq<real>) {
    match (p.pts, p.dts)
    case (Some(t), _) => Timestamps.LargestOf(multiset(pts) + multiset{t}, pts')
    case (None, Some(t)) => Timestamps.LargestOf(multiset(pts) + multiset{t}, pts')
    case (None, None) => pts' == pts
  }

  lemma TookNothingFed(t: Times, picture: bool)
    ensures OnlyTaken(t, Took(t, picture))
  {
    assert (t.events + [Timestamps.Shown])[..|t.events|] == t.events;
  }

  /** A packet more: its timestamp is fed once. */
  lemma StampsMore(t: Times, packets: seq<Packet>, p: Packet)
    requires FedStamps(t.events) == Stamps(packets)
    ensures FedStamps(Stamped(t, p).events) == Stamps(packets + [p])
  {
    assert (packets + [p])[..|packets|] == packets;
    if Stamp(p).Some? {
      var e := Timestamps.Fed(Stamp(p).value);
      assert (t.events + [e])[..|t.events|] == t.events;
    }
  }

  lemma {:induction false} FedSetOfStamps(events: seq<Timestamps.Event>)
    ensures Timestamps.FedSet(events) == multiset(FedStamps(events))
  {
    if events != [] {
      FedSetOfStamps(events[..|events| - 1]);
    }
  }

  // ---- the queue --------------------------------------------------------------------

  /** The elements marked. */
  function Select(given: seq<real>, marks: seq<bool>): seq<real>
    requires |given| == |marks|
  {
    if marks == [] then [] else
      Select(given[..|given| - 1], marks[..|marks| - 1])
      + if marks[|marks| - 1] then [given[|given| - 1]] else []
  }

  lemma SelectMore(given: seq<real>, marks: seq<bool>, x: real, mark: bool)
    requires |given| == |marks|
    ensures Select(given + [x], marks + [mark]) == Select(given, marks) + if mark then [x] else []
  {
    assert (given + [x])[..|given|] == given && (marks + [mark])[..|marks|] == marks;
  }

  predicate AllTrue(marks: seq<bool>) {
    forall i :: 0 <= i < |marks| ==> marks[i]
  }

  lemma {:induction false} SelectAll(given: seq<real>, marks: seq<bool>)
    requires |given| == |marks| && AllTrue(marks)
    ensures Select(given, marks) == given
  {
    if marks != [] {
      SelectAll(given[..|given| - 1], marks[..|marks| - 1]);
    }
  }

  function PtsOf(queue: seq<Decoded>): seq<real> {
    seq(|queue|, i requires 0 <= i < |queue| => queue[i].pts)
  }

  /** The timestamps that pictures got since the decoder started afresh. */
  ghost function PicturePts(t: Times, frameDuration: real): seq<real> {
    var given := Timestamps.Run(t.events, t.first, frameDuration).given;
    if |given| == |t.pictured| then Select(given, t.pictured) else []
  }

  /** Queued pictures are in buffers of their own, each showing its frame and not handed out; whatever
      shows a frame is queued or handed out. */
  ghost predicate QueueOk(queue: seq<Decoded>, all: seq<int>, out: set<nat>) {
    && (forall i, j :: 0 <= i < j < |queue| ==> queue[i].buffer != queue[j].buffer)
    && (forall i :: 0 <= i < |queue| ==>
          var b := queue[i].buffer; b < |all| && all[b] >= 0 && b !in out)
    && (forall id :: 0 <= id < |all| && all[id] >= 0 ==> id in out || InQueue(queue, id))
  }

  ghost predicate InQueue(queue: seq<Decoded>, id: nat) {
    exists i :: 0 <= i < |queue| && queue[i].buffer == id
  }

  /** With no picture taken yet none is handed out; and the timestamps of the pictures handed out since
      the decoder started afresh, then of those queued, are those that pictures got. */
  ghost predicate PicturesOk(queue: seq<Decoded>, all: seq<int>, out: set<nat>, picturesOut: nat,
                             t: Times, handed: seq<real>, frameDuration: real) {
    && QueueOk(queue, all, out) && (picturesOut == 0 ==> out == {})
    && handed + PtsOf(queue) == PicturePts(t, frameDuration)
  }

  lemma EmptyQueue()
    ensures QueueOk([], [], {})
  {
  }

  lemma PicturesQueue(queue: seq<Decoded>, all: seq<int>, out: set<nat>, picturesOut: nat, t: Times, handed: seq<real>,
                      frameDuration: real)
    requires PicturesOk(queue, all, out, picturesOut, t, handed, frameDuration)
    ensures QueueOk(queue, all, out) && (picturesOut == 0 ==> out == {})
  {
  }

  lemma QueueMoved(queue: seq<Decoded>, all: seq<int>, out: set<nat>, all': seq<int>, out': set<nat>)
    requires QueueOk(queue, all, out) && VideoDec2.OthersMoved(all, out, all', out')
    ensures QueueOk(queue, all', out')
  {
  }

  lemma PicturesMoved(queue: seq<Decoded>, all: seq<int>, out: set<nat>, all': seq<int>, out': set<nat>,
                      picturesOut: nat, t: Times, handed: seq<real>, frameDuration: real)
    requires PicturesOk(queue, all, out, picturesOut, t, handed, frameDuration)
    requires VideoDec2.OthersMoved(all, out, all', out')
    ensures PicturesOk(queue, all', out', picturesOut, t, handed, frameDuration)
  {
    QueueMoved(queue, all, out, all', out');
    hide QueueOk, PicturePts, PtsOf;
  }

  lemma PicturePtsTick(t: Times, dropped: bool, pts: seq<real>, lastPts: real, frameDuration: real)
    requires PtsOk(t, pts, lastPts, frameDuration)
    ensures PicturePts(Ticked(t, dropped), frameDuration) == PicturePts(t, frameDuration)
  {
    if dropped {
      TookMore(t, false, pts, lastPts, frameDuration);
    }
  }

  /** The timestamp a picture gets comes last. */
  lemma TookMore(t: Times, picture: bool, pts: seq<real>, lastPts: real, frameDuration: real)
    requires PtsOk(t, pts, lastPts, frameDuration)
    ensures var given := if pts != [] then pts[0] else lastPts + frameDuration;
      PicturePts(Took(t, picture), frameDuration)
      == PicturePts(t, frameDuration) + if picture then [given] else []
  {
    hide Timestamps.Run, Select;
    Timestamps.Appended(t.events, Timestamps.Shown, t.first, frameDuration);
    var c := Timestamps.Run(t.events, t.first, frameDuration);
    SelectMore(c.given, t.pictured, if pts != [] then pts[0] else lastPts + frameDuration, picture);
  }

  lemma PicturePtsStamp(t: Times, p: Packet, frameDuration: real)
    ensures PicturePts(Stamped(t, p), frameDuration) == PicturePts(t, frameDuration)
  {
    if Stamp(p).Some? {
      Timestamps.Appended(t.events, Timestamps.Fed(Stamp(p).value), t.first, frameDuration);
    }
    hide Timestamps.Run, Select;
  }

  /** A picture more: wrapped in a buffer that showed nothing, with the latest timestamp. */
  lemma QueueKept(queue: seq<Decoded>, all: seq<int>, out: set<nat>, all': seq<int>, out': set<nat>, id: nat, j: nat,
                  pts: real)
    requires QueueOk(queue, all, out) && VideoDec2.BufferWrapped(all, out, all', out', id, j)
    ensures QueueOk(queue + [Decoded(id, pts)], all', out')
  {
    var more := queue + [Decoded(id, pts)];
    assert more[|queue|].buffer == id && InQueue(more, id);
    forall k | 0 <= k < |all'| && all'[k] >= 0
      ensures k in out' || InQueue(more, k)
    {
      if k != id && k !in out' {
        var i :| 0 <= i < |queue| && queue[i].buffer == k;
        assert more[i].buffer == k;
      }
    }
  }

  /** The first picture goes to another thread. */
  lemma QueueHanded(queue: seq<Decoded>, all: seq<int>, out: set<nat>)
    requires QueueOk(queue, all, out) && queue != []
    ensures QueueOk(queue[1..], all, out + {queue[0].buffer})
  {
    forall id | 0 <= id < |all| && all[id] >= 0 && id !in out + {queue[0].buffer}
      ensures InQueue(queue[1..], id)
    {
      var i :| 0 <= i < |queue| && queue[i].buffer == id;
      assert queue[1..][i - 1].buffer == id;
    }
  }

  /** The first picture is given back unseen. */
  lemma QueueDropped(queue: seq<Decoded>, all: seq<int>, out: set<nat>)
    requires QueueOk(queue, all, out) && queue != []
    ensures queue[0].buffer < |all| && all[queue[0].buffer] >= 0 && queue[0].buffer !in out
    ensures QueueOk(queue[1..], all[queue[0].buffer := -1], out - {queue[0].buffer})
  {
    var (b, all') := (queue[0].buffer, all[queue[0].buffer := -1]);
    forall id | 0 <= id < |all| && all'[id] >= 0 && id !in out
      ensures InQueue(queue[1..], id)
    {
      var i :| 0 <= i < |queue| && queue[i].buffer == id;
      assert i > 0 && queue[1..][i - 1].buffer == id;
    }
  }

  lemma PtsOfMore(queue: seq<Decoded>, d: Decoded)
    ensures PtsOf(queue + [d]) == PtsOf(queue) + [d.pts]
  {
  }

  lemma PtsOfTail(queue: seq<Decoded>)
    requires queue != []
    ensures PtsOf(queue) == [queue[0].pts] + PtsOf(queue[1..])
  {
  }

  /** All together, for a picture queued ... */
  lemma PicturesKept(queue: seq<Decoded>, all: seq<int>, out: set<nat>, all': seq<int>, out': set<nat>,
                     picturesOut: nat, t: Times, handed: seq<real>, frameDuration: real,
                     id: nat, j: nat, pts: seq<real>, lastPts: real, given: real)
    requires PicturesOk(queue, all, out, picturesOut, t, handed, frameDuration)
    requires VideoDec2.BufferWrapped(all, out, all', out', id, j)
    requires PtsOk(t, pts, lastPts, frameDuration) && given == if pts != [] then pts[0] else lastPts + frameDuration
    ensures PicturesOk(queue + [Decoded(id, given)], all', out', picturesOut, Took(t, true), handed, frameDuration)
  {
    QueueKept(queue, all, out, all', out', id, j, given);
    TookMore(t, true, pts, lastPts, frameDuration);
    PtsOfMore(queue, Decoded(id, given));
    assert out' <= out;
    hide QueueOk, PicturePts, PtsOf, PtsOk, VideoDec2.BufferWrapped;
    assert handed + (PtsOf(queue) + [given]) == (handed + PtsOf(queue)) + [given];
  }

  /** ... for a timestamp gone with a dropped unit ... */
  lemma PicturesTicked(queue: seq<Decoded>, all: seq<int>, out: set<nat>, picturesOut: nat, t: Times, handed: seq<real>,
                       frameDuration: real, dropped: bool, pts: seq<real>, lastPts: real)
    requires PicturesOk(queue, all, out, picturesOut, t, handed, frameDuration) && PtsOk(t, pts, lastPts, frameDuration)
    ensures PicturesOk(queue, all, out, picturesOut, Ticked(t, dropped), handed, frameDuration)
  {
    PicturePtsTick(t, dropped, pts, lastPts, frameDuration);
    hide QueueOk, PicturePts, PtsOf, PtsOk;
  }

  /** ... for one fed ... */
  lemma PicturesStamped(queue: seq<Decoded>, all: seq<int>, out: set<nat>, picturesOut: nat, t: Times, handed: seq<real>,
                        frameDuration: real, p: Packet)
    requires PicturesOk(queue, all, out, picturesOut, t, handed, frameDuration)
    ensures PicturesOk(queue, all, out, picturesOut, Stamped(t, p), handed, frameDuration)
  {
    PicturePtsStamp(t, p, frameDuration);
    hide QueueOk, PicturePts, PtsOf;
  }

  /** ... for a picture taken ... */
  lemma PicturesHanded(queue: seq<Decoded>, all: seq<int>, out: set<nat>, picturesOut: nat, t: Times, handed: seq<real>,
                       frameDuration: real)
    requires PicturesOk(queue, all, out, picturesOut, t, handed, frameDuration) && queue != []
    ensures queue[0].buffer < |all| && all[queue[0].buffer] >= 0
    ensures PicturesOk(queue[1..], all, out + {queue[0].buffer}, picturesOut + 1, t, handed + [queue[0].pts],
                       frameDuration)
  {
    QueueHanded(queue, all, out);
    PtsOfTail(queue);
    QueueDropped(queue, all, out);
    hide QueueOk, PicturePts, PtsOf;
    assert (handed + [queue[0].pts]) + PtsOf(queue[1..]) == handed + ([queue[0].pts] + PtsOf(queue[1..]));
  }

  /** ... and for a fresh start. */
  lemma PicturesAfresh(all: seq<int>, out: set<nat>, picturesOut: nat, lastPts: real, frameDuration: real)
    requires QueueOk([], all, out) && (picturesOut == 0 ==> out == {})
    ensures PicturesOk([], all, out, picturesOut, Afresh(lastPts), [], frameDuration)
  {
  }

  /** Before the first picture is taken, and with none queued, no buffer shows a frame. */
  lemma NothingQueued(all: seq<int>, out: set<nat>, t: Times, handed: seq<real>, frameDuration: real)
    requires PicturesOk([], all, out, 0, t, handed, frameDuration)
    ensures forall id :: 0 <= id < |all| ==> all[id] < 0
  {
    forall id | 0 <= id < |all|
      ensures all[id] < 0
    {
      assert !InQueue([], id);
    }
  }

  /** When pictures come out in display order, each after its unit was fed, every picture has the timestamp
      of its place in that order; with no unit dropped, the k-th one has the k-th smallest. */
  lemma PicturesInDisplayOrder(t: Times, display: seq<real>, pts: seq<real>, lastPts: real, frameDuration: real)
    requires PtsOk(t, pts, lastPts, frameDuration)
    requires Timestamps.Sorted(display) && Timestamps.InDisplayOrder(t.events, display)
    ensures |t.pictured| <= |display| && Timestamps.FedSet(t.events) <= multiset(display)
    ensures PicturePts(t, frameDuration) == Select(display[..|t.pictured|], t.pictured)
    ensures AllTrue(t.pictured) ==> PicturePts(t, frameDuration) == display[..|t.pictured|]
  {
    Timestamps.PicturesGetTheirTimestamps(t.events, display, t.first, frameDuration);
    Timestamps.PendingBounded(t.events, t.first, frameDuration);
    assert t.events[..|t.events|] == t.events;
    if AllTrue(t.pictured) {
      SelectAll(display[..|t.pictured|], t.pictured);
    }
  }

  /** The pictures taken and queued have the timestamps of their places. */
  lemma PicturesInPlace(queue: seq<Decoded>, all: seq<int>, out: set<nat>, picturesOut: nat, t: Times, handed: seq<real>,
                        frameDuration: real, pts: seq<real>, lastPts: real, display: seq<real>)
    requires PicturesOk(queue, all, out, picturesOut, t, handed, frameDuration)
    requires PtsOk(t, pts, lastPts, frameDuration)
    requires Timestamps.Sorted(display) && Timestamps.InDisplayOrder(t.events, display)
    ensures |t.pictured| <= |display|
    ensures handed + PtsOf(queue) == Select(display[..|t.pictured|], t.pictured)
    ensures AllTrue(t.pictured) ==> handed + PtsOf(queue) == display[..|t.pictured|]
  {
    hide PtsOk, QueueOk, PicturePts, Select, AllTrue, Timestamps.InDisplayOrder, Timestamps.Sorted;
    PicturesInDisplayOrder(t, display, pts, lastPts, frameDuration);
  }
}
