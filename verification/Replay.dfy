/**
 The record of a stream's start, and how many packets each decoder has had of it: what is fed again when
 the hardware refuses the stream before it showed a picture.
 */
module Replay {
  import opened Bytes
  import opened Wrappers

  const FAILURES_BEFORE_SOFTWARE: nat := 8
  const MAX_REPLAY_PACKETS: nat := 400
  const MAX_REPLAY_BYTES: nat := 128 * 1024 * 1024

  /** A packet without data is one with no bytes. */
  datatype Packet = Packet(data: Bytes, pts: Option<real>, dts: Option<real>, recoveryPoint: bool)

  function NonEmpty(packets: seq<Packet>): seq<Packet> {
    if packets == [] then [] else
      NonEmpty(packets[..|packets| - 1])
      + if packets[|packets| - 1].data == [] then [] else [packets[|packets| - 1]]
  }

  function TotalBytes(packets: seq<Packet>): nat {
    if packets == [] then 0 else TotalBytes(packets[..|packets| - 1]) + |packets[|packets| - 1].data|
  }

  lemma NonEmptyAppend(packets: seq<Packet>, p: Packet)
    ensures NonEmpty(packets + [p]) == NonEmpty(packets) + (if p.data == [] then [] else [p])
  {
    assert (packets + [p])[..|packets|] == packets;
  }

  lemma TotalBytesAppend(packets: seq<Packet>, p: Packet)
    ensures TotalBytes(packets + [p]) == TotalBytes(packets) + |p.data|
  {
    assert (packets + [p])[..|packets|] == packets;
  }

  lemma {:induction false} NonEmptyConcat(a: seq<Packet>, b: seq<Packet>)
    ensures NonEmpty(a + b) == NonEmpty(a) + NonEmpty(b)
  {
    if b == [] {
      assert a + b == a;
    } else {
      var (front, last) := (b[..|b| - 1], b[|b| - 1]);
      assert a + b == (a + front) + [last];
      NonEmptyConcat(a, front);
      NonEmptyAppend(a + front, last);
    }
  }

  ghost predicate HaveData(packets: seq<Packet>) {
    forall p :: p in packets ==> p.data != []
  }

  lemma {:induction false} NonEmptyFixed(packets: seq<Packet>)
    ensures |NonEmpty(packets)| <= |packets|
    ensures NonEmpty(packets) == packets <==> HaveData(packets)
  {
    if packets != [] {
      var (front, last) := (packets[..|packets| - 1], packets[|packets| - 1]);
      assert packets == front + [last];
      NonEmptyFixed(front);
      NonEmptyAppend(front, last);
      hide NonEmpty;
      if last.data != [] {
        Cancel(NonEmpty(front), front, [last]);
      } else {
        assert last in packets;
      }
    }
  }

  lemma Cancel(a: seq<Packet>, b: seq<Packet>, tail: seq<Packet>)
    ensures a + tail == b + tail <==> a == b
    ensures tail + a == tail + b <==> a == b
  {
    if a + tail == b + tail {
      assert a == (a + tail)[..|a|] == (b + tail)[..|b|] == b;
    }
    if tail + a == tail + b {
      assert a == (tail + a)[|tail|..] == (tail + b)[|tail|..] == b;
    }
  }

  /** Errors, the recorded start of the stream, and how far recovery has gone. */
  datatype Recovery = Recovery(
    useSoftware: bool, softwareQueue: seq<Packet>, fatal: bool, picturesOut: nat,
    failuresBeforeFirst: nat, errorsInRow: nat, midStreamResets: nat,
    replay: seq<Packet>, replayBytes: nat, replayOverflow: bool,
    stage: nat, pending: bool)

  /** Packets AddData returned true for since open or Reset; `switchedAt` of them before the switch
      to software; `exact` unless that switch came too late to replay the stream. */
  datatype Log = Log(acknowledged: seq<Packet>, switchedAt: nat, exact: bool)

  /** What the packets returned true for amount to: the hardware has no use for empty ones. */
  function Taken(useSoftware: bool, log: Log): seq<Packet> {
    if useSoftware && log.switchedAt <= |log.acknowledged|
    then NonEmpty(log.acknowledged[..log.switchedAt]) + log.acknowledged[log.switchedAt..]
    else NonEmpty(log.acknowledged)
  }

  /** Up to the first picture the replay holds every packet taken. */
  ghost predicate Recorded(r: Recovery, taken: seq<Packet>) {
    && (!r.fatal && r.picturesOut == 0 && !r.replayOverflow ==> r.replay == taken)
    && (r.picturesOut > 0 || r.replayOverflow ==> r.replay == [])
    && r.replayBytes == TotalBytes(r.replay) <= MAX_REPLAY_BYTES && |r.replay| <= MAX_REPLAY_PACKETS
  }

  /** `accepted` is what the software decoder has accepted. */
  ghost predicate Replayed(r: Recovery, log: Log, accepted: seq<Packet>) {
    if r.useSoftware then
      && log.switchedAt <= |log.acknowledged|
      && (log.exact ==> accepted + r.softwareQueue == Taken(true, log))
    else Recorded(r, Taken(false, log))
  }

  /** The software decoder gets the recorded start of the stream. */
  function Switched(r: Recovery): Recovery {
    r.(useSoftware := true, softwareQueue := r.replay, replay := [], replayBytes := 0)
  }

  function SwitchLog(r: Recovery, log: Log): Log {
    log.(switchedAt := |log.acknowledged|, exact := r.picturesOut == 0 && !r.replayOverflow)
  }

  /** Nothing is lost or repeated at the switch. */
  lemma SwitchKeepsPackets(r: Recovery, log: Log, accepted: seq<Packet>)
    requires Replayed(r, log, accepted) && !r.useSoftware && (r.fatal ==> r.picturesOut > 0)
    ensures Replayed(Switched(r), SwitchLog(r, log), [])
  {
    assert log.acknowledged[..|log.acknowledged|] == log.acknowledged;
  }

  /** A packet the hardware path takes. */
  lemma TakesOne(r: Recovery, log: Log, p: Packet)
    requires p.data != []
    ensures Taken(false, log.(acknowledged := log.acknowledged + [p])) == Taken(false, log) + [p]
  {
    NonEmptyAppend(log.acknowledged, p);
  }

  /** A packet without data, in hardware mode. */
  lemma TakesNothing(r: Recovery, log: Log, accepted: seq<Packet>, p: Packet)
    requires Replayed(r, log, accepted) && !r.useSoftware && p.data == []
    ensures Replayed(r, log.(acknowledged := log.acknowledged + [p]), accepted)
  {
    NonEmptyAppend(log.acknowledged, p);
  }

  /** A packet the software decoder accepts once the replay is through. */
  lemma SoftwareTakes(r: Recovery, log: Log, accepted: seq<Packet>, p: Packet)
    requires Replayed(r, log, accepted) && r.useSoftware && r.softwareQueue == []
    ensures Replayed(r, log.(acknowledged := log.acknowledged + [p]), accepted + [p])
  {
    var all := log.acknowledged + [p];
    assert all[..log.switchedAt] == log.acknowledged[..log.switchedAt];
    assert all[log.switchedAt..] == log.acknowledged[log.switchedAt..] + [p];
    assert accepted + r.softwareQueue == accepted && (accepted + [p]) + r.softwareQueue == accepted + [p];
  }

  /** A packet refused after all: only after a fatal error, or in a stream that cannot be replayed. */
  lemma Retracts(r: Recovery, log: Log, accepted: seq<Packet>, before: seq<Packet>)
    requires Replayed(r, log, accepted) && r.fatal && (r.useSoftware ==> !log.exact)
    ensures Replayed(r, log.(acknowledged := before,
                             switchedAt := if log.switchedAt <= |before| then log.switchedAt else |before|), accepted)
  {
  }

  /** Decoding moves nothing of the replay, unless it ends a shown stream in software. */
  ghost predicate KeepsReplay(r: Recovery, r': Recovery, log: Log, log': Log) {
    && r'.picturesOut == r.picturesOut && r'.stage == r.stage && (r.fatal ==> r'.fatal)
    && log'.acknowledged == log.acknowledged
    && (r.useSoftware ==> r' == r && log' == log)
    && (!r'.useSoftware ==>
          log' == log && r'.replay == r.replay && r'.replayBytes == r.replayBytes
          && r'.replayOverflow == r.replayOverflow)
    && (r'.useSoftware && !r.useSoftware ==>
          r'.picturesOut > 0 && !log'.exact && log'.switchedAt == |log'.acknowledged|)
  }

  lemma KeptReplay(r: Recovery, r': Recovery, log: Log, log': Log, accepted: seq<Packet>, accepted': seq<Packet>)
    requires Replayed(r, log, accepted) && KeepsReplay(r, r', log, log')
    requires r.useSoftware ==> accepted' == accepted
    ensures Replayed(r', log', accepted')
  {
  }

  lemma KeepsErrors(r: Recovery, errors: nat, log: Log)
    requires !r.useSoftware
    ensures KeepsReplay(r, r.(errorsInRow := errors), log, log)
  {
  }

  lemma KeepsOn(r: Recovery, r': Recovery, r'': Recovery, log: Log, log': Log, log'': Log)
    requires KeepsReplay(r, r', log, log') && KeepsReplay(r', r'', log', log'')
    ensures KeepsReplay(r, r'', log, log'')
  {
  }

  lemma SamePictures(r: Recovery, r': Recovery, log: Log, log': Log)
    requires KeepsReplay(r, r', log, log')
    ensures r'.picturesOut == r.picturesOut
  {
  }

  /** There is a record only before the first picture. */
  lemma RecordIsEarly(r: Recovery, log: Log, accepted: seq<Packet>)
    requires Replayed(r, log, accepted) && !r.useSoftware
    ensures r.replay != [] ==> r.picturesOut == 0
  {
  }

  ghost predicate KeepsRecord(r: Recovery, r': Recovery) {
    && r'.replay == r.replay && r'.replayOverflow == r.replayOverflow && r'.picturesOut == r.picturesOut
  }

  /** A stream fed again is as well recorded as before. */
  lemma RecordKept(r: Recovery, r': Recovery, r'': Recovery, log: Log, log': Log, accepted: seq<Packet>,
                   accepted': seq<Packet>)
    requires Replayed(r, log, accepted) && !r.useSoftware && !r.fatal
    requires r' == r.(pending := false, stage := 1, errorsInRow := 0, failuresBeforeFirst := 0)
    requires KeepsReplay(r', r'', log, log') && !r''.useSoftware
    ensures Replayed(r'', log', accepted') && log' == log && KeepsRecord(r, r'') && r''.stage == 1
  {
  }

  /** The software decoder has, or still gets, the non-empty packets taken, once each and in order -
      unless a packet without data was handed to it after the switch, which nothing filters out. */
  lemma ReplayIsExact(r: Recovery, log: Log, accepted: seq<Packet>)
    requires Replayed(r, log, accepted) && r.useSoftware && log.exact
    ensures accepted + r.softwareQueue == NonEmpty(log.acknowledged)
            <==> HaveData(log.acknowledged[log.switchedAt..])
  {
    var (before, after) := (log.acknowledged[..log.switchedAt], log.acknowledged[log.switchedAt..]);
    assert log.acknowledged == before + after;
    NonEmptyConcat(before, after);
    NonEmptyFixed(after);
    hide NonEmpty, HaveData;
    Cancel(after, NonEmpty(after), NonEmpty(before));
  }

  /** With a picture shown the hardware has taken the stream. */
  function Shown(r: Recovery): Recovery {
    r.(picturesOut := r.picturesOut + 1, replay := [], replayBytes := 0)
  }

  lemma ShownOk(r: Recovery, vp9: bool, queued: bool, more: bool, log: Log, accepted: seq<Packet>)
    requires Replayed(r, log, accepted) && StageOk(r, vp9) && FailuresOk(r, queued) && !r.useSoftware
    ensures Replayed(Shown(r), log, accepted) && StageOk(Shown(r), vp9) && FailuresOk(Shown(r), more)
    ensures r.picturesOut > 0 ==> r.replay == [] && r.replayBytes == 0
  {
  }

  /** After a packet without data the software decoder has one packet too many. */
  lemma EmptyPacketBreaks(r: Recovery, log: Log, accepted: seq<Packet>, p: Packet)
    requires Replayed(r, log, accepted) && r.useSoftware && log.exact && p.data == []
    requires p in log.acknowledged[log.switchedAt..]
    ensures accepted + r.softwareQueue != NonEmpty(log.acknowledged)
  {
    ReplayIsExact(r, log, accepted);
  }

  lemma SwitchedBefore(r: Recovery, log: Log, accepted: seq<Packet>)
    requires Replayed(r, log, accepted) && r.useSoftware
    ensures log.switchedAt <= |log.acknowledged|
  {
  }

  /** Such a packet, for instance: one packet replayed, then one without data. */
  lemma EmptyPacketIsExtra(p: Packet, empty: Packet)
    requires p.data == [7] && empty.data == []
    ensures
      var r := Recovery(true, [], false, 0, 0, 0, 0, [], 0, false, 2, false);
      var log := Log([p, empty], 1, true);
      Replayed(r, log, [p, empty]) && NonEmpty(log.acknowledged) == [p]
  {
    assert [p, empty] == [p] + [empty] && [p] == [] + [p];
    NonEmptyAppend([p], empty);
    NonEmptyAppend([], p);
    assert [p, empty][..1] == [p] && [p, empty][1..] == [empty];
  }

  // ---- what the decoder was fed, as part of what was taken ------------------------------

  ghost predicate IsSuffix<T>(a: seq<T>, b: seq<T>) {
    |a| <= |b| && b[|b| - |a|..] == a
  }

  lemma SuffixMore<T>(a: seq<T>, b: seq<T>, x: T)
    requires IsSuffix(a, b)
    ensures IsSuffix(a + [x], b + [x])
  {
    assert (b + [x])[|b| - |a|..] == b[|b| - |a|..] + [x];
  }

  lemma EmptySuffix<T>(b: seq<T>)
    ensures IsSuffix([], b)
  {
  }

  /** A stream fed again from its record is fed what was taken, or nothing of it. */
  lemma ReplayIsSuffix(r: Recovery, taken: seq<Packet>)
    requires Recorded(r, taken) && !r.fatal
    ensures IsSuffix(r.replay, taken)
  {
    if r.picturesOut > 0 || r.replayOverflow {
      EmptySuffix(taken);
    } else {
      assert taken[0..] == taken;
    }
  }

  // ---- counters -------------------------------------------------------------------

  /** The stage only rises, to at most 2; while the hardware is in use there is one left. The decoder is reset in the
      middle of a stream only after its first picture, and not once recovery is called for. */
  ghost predicate StageOk(r: Recovery, vp9: bool) {
    && r.stage <= 2
    && (!r.useSoftware && !r.fatal ==> r.stage < 2 && (vp9 ==> r.stage == 0))
    && (r.pending ==> !r.useSoftware && !r.fatal)
    && (!r.useSoftware ==> r.softwareQueue == [])
    && (r.pending || r.picturesOut == 0 ==> r.midStreamResets == 0)
  }

  lemma PendingIsHardware(r: Recovery, vp9: bool)
    requires StageOk(r, vp9) && r.pending
    ensures !r.useSoftware && !r.fatal && r.midStreamResets == 0
  {
  }

  /** With nothing shown and nothing queued, errors in a row are failures before the first picture; and
      recovery is called for with nothing queued. */
  ghost predicate FailuresOk(r: Recovery, queued: bool) {
    && (!r.useSoftware && r.picturesOut == 0 && !queued ==> r.errorsInRow <= r.failuresBeforeFirst)
    && (r.pending && r.picturesOut == 0 ==> !queued)
    && r.failuresBeforeFirst <= FAILURES_BEFORE_SOFTWARE
    && (!r.useSoftware && !r.fatal && !r.pending ==> r.failuresBeforeFirst < FAILURES_BEFORE_SOFTWARE)
  }

  /** While units are decoded a fatal error leaves a picture behind it. */
  ghost predicate FatalIsLate(r: Recovery, queued: bool) {
    r.fatal ==> r.picturesOut > 0 || queued
  }

  /** There is something left to recover with. */
  predicate StageLeft(stage: nat, vp9: bool) {
    stage < 2 && (vp9 ==> stage == 0)
  }

  /** All of them, and a stage left. */
  ghost predicate CountersOk(r: Recovery, vp9: bool, queued: bool) {
    && StageOk(r, vp9) && FailuresOk(r, queued) && FatalIsLate(r, queued)
    && (!r.useSoftware ==> StageLeft(r.stage, vp9))
  }

  /** A unit went through, and perhaps a picture came of it. */
  lemma CountsOn(r: Recovery, vp9: bool, queued: bool, more: bool)
    requires CountersOk(r, vp9, queued) && (queued ==> more) && !r.pending
    ensures CountersOk(r.(errorsInRow := 0), vp9, more)
  {
  }

  lemma CountersNow(r: Recovery, vp9: bool, queued: bool)
    requires StageOk(r, vp9) && FailuresOk(r, queued) && !r.fatal
    ensures CountersOk(r, vp9, queued)
  {
  }

  lemma StageIsLeft(r: Recovery, vp9: bool, queued: bool)
    requires CountersOk(r, vp9, queued) && !r.useSoftware
    ensures StageLeft(r.stage, vp9)
  {
  }

  lemma CountersParts(r: Recovery, vp9: bool, queued: bool)
    requires CountersOk(r, vp9, queued)
    ensures StageOk(r, vp9) && FailuresOk(r, queued)
  {
  }

  /** Units were decoded without a picture, and recovery is called for. */
  lemma CallsForRecovery(r: Recovery, vp9: bool, log: Log, accepted: seq<Packet>)
    requires CountersOk(r, vp9, false) && Replayed(r, log, accepted) && !r.useSoftware && r.picturesOut == 0
    ensures CountersOk(r.(pending := true), vp9, false) && Replayed(r.(pending := true), log, accepted)
  {
  }

  /** All is well in software, with the record to decode there, and after a fatal error. */
  ghost predicate MaySwitchOrFail(r: Recovery, vp9: bool, queued: bool, log: Log) {
    && StageOk(Switched(r), vp9) && FailuresOk(Switched(r), queued) && Replayed(Switched(r), SwitchLog(r, log), [])
    && StageOk(r.(fatal := true), vp9) && FailuresOk(r.(fatal := true), queued)
    && forall accepted :: Replayed(r.(fatal := true), log, accepted)
  }

  /** The last stage of recovery: software gets the record, or the stream fails. */
  lemma LeavesHardware(r: Recovery, vp9: bool, queued: bool, log: Log, accepted: seq<Packet>)
    requires StageOk(r, vp9) && FailuresOk(r, queued) && Replayed(r, log, accepted) && r.pending
    requires r.stage == 1 || vp9
    ensures r.picturesOut == 0 ==> !queued
    ensures
      var r' := r.(pending := false, stage := r.stage + 1);
      MaySwitchOrFail(r', vp9, queued, log) && !StageLeft(r'.stage, vp9)
  {
    SwitchKeepsPackets(r.(pending := false, stage := r.stage + 1), log, accepted);
  }

  /** After a seek nothing is recorded, and no failure counts. */
  function Sought(r: Recovery): Recovery {
    if r.useSoftware then r.(softwareQueue := [])
    else r.(replay := [], replayBytes := 0, replayOverflow := false, failuresBeforeFirst := 0, errorsInRow := 0,
            midStreamResets := 0)
  }

  ghost predicate SoughtOk(r: Recovery, vp9: bool, queued: bool) {
    && StageOk(r, vp9) && FailuresOk(r, queued) && Replayed(r, Log([], 0, true), [])
    && (!r.useSoftware ==> forall accepted :: Replayed(r, Log([], 0, true), accepted))
  }

  lemma SeekOk(r: Recovery, vp9: bool, queued: bool)
    requires StageOk(r, vp9) && FailuresOk(r, queued)
    ensures SoughtOk(Sought(r), vp9, if r.useSoftware then queued else false)
  {
  }

  /** Nothing but the pending flag moves, and only with nothing shown. */
  lemma MayCallForRecovery(r: Recovery, vp9: bool)
    requires CountersOk(r, vp9, false) && !r.useSoftware && !r.pending && r.picturesOut == 0
    ensures forall p :: CountersOk(r.(pending := p), vp9, false)
  {
  }
}
