/**
 The codec between the player and the decoders: packets go to the hardware, or - when it refuses
 the stream before its first picture - to the hardware again with a cleaned bitstream, and at last
 to software.
 */
module HwCodec {
  import opened AccessUnits
  import opened Bytes
  import opened Cleaner
  import opened CodecState
  import opened FramePool
  import opened PictureQueue
  import opened Replay
  import opened Wrappers
  import AnnexB
  import LengthPrefixed
  import Timestamps
  import VideoDec2

  /** The software decoder: it accepts a packet, or asks for a picture to be taken first. */
  class Software {
    /** Packets accepted since it was opened or reset. */
    ghost var accepted: seq<Packet>
    /** How often it refused one. */
    ghost var refusals: nat
    /** Attempts to open it. */
    ghost var opens: seq<bool>

    constructor ()
      ensures accepted == []
    {
      accepted, refusals, opens := [], 0, [];
    }

    method Open() returns (ok: bool)
      modifies this
      ensures accepted == old(accepted) && refusals == old(refusals) && opens == old(opens) + [ok]
    {
      ok := *;
      opens := opens + [ok];
    }

    method AddData(p: Packet) returns (ok: bool)
      modifies this
      ensures accepted == old(accepted) + if ok then [p] else []
      ensures refusals == old(refusals) + if ok then 0 else 1
    {
      ok := *;
      if ok {
        accepted := accepted + [p];
      } else {
        refusals := refusals + 1;
      }
    }

    method Reset()
      modifies this
      ensures accepted == [] && opens == old(opens)
    {
      accepted := [];
    }
  }

  class HwCodec {
    const hevc: bool
    const vp9: bool
    /** A bitstream filter turns packets into access units, when the stream needs one. */
    const filter: Option<Filter>
    /** Parameter sets of the stream's header. */
    const sets: Bytes
    const frameDuration: real
    const decoder: VideoDec2.VideoDec2
    const software: Software

    var recovery: Recovery
    var screening: Screening
    var pendingAus: seq<Bytes>
    var decoded: seq<Decoded>
    var pts: seq<real>
    var lastPts: real
    var vp9PendingShown: seq<bool>
    /** A rebuilt bitstream filter has nothing of the old one's packet; one that cannot be rebuilt is gone. */
    var filterGeneration: nat
    /** Whether it could. */
    ghost var rebuilds: seq<bool>
    var feed: Feed
    /** What the filter was given since it was built. */
    var sent: seq<Bytes>
    ghost var log: Log
    ghost var acct: Account

    constructor (hevc: bool, vp9: bool, filter: Option<Filter>, sets: Bytes, frameDuration: real)
      ensures Valid() && log.acknowledged == [] && !recovery.useSoftware && recovery.picturesOut == 0
      ensures fresh(decoder) && fresh(decoder.frameState) && fresh(software)
      ensures this.hevc == hevc && this.vp9 == vp9 && this.filter == filter && this.sets == sets
      ensures this.frameDuration == frameDuration && acct == FreshAccount(0.0) && feed == FirstFeed(filter, vp9)
    {
      hide VideoDec2.VideoDec2.Valid, PtsOk, PicturesOk, QueueOk, Follows, FedOk, UnitsOk, Clean, Working;
      this.hevc, this.vp9, this.filter, this.sets, this.frameDuration := hevc, vp9, filter, sets, frameDuration;
      decoder := new VideoDec2.VideoDec2();
      software := new Software();
      recovery := Recovery(false, [], false, 0, 0, 0, 0, [], 0, false, 0, false);
      screening := Screening(sets, sets != [], false, false, 0, 0, false, hevc);
      pendingAus, decoded, pts, lastPts, vp9PendingShown, filterGeneration := [], [], [], 0.0, [], 0;
      feed, sent, rebuilds := FirstFeed(filter, vp9), [], [];
      log, acct := Log([], 0, true), FreshAccount(0.0);
      new;
      EmptyQueue();
      FeedFirst(filter, vp9);
      StartsAfresh();
      Begins();
      FreshFollows(feed, acct, recovery, []);
      FollowsIsFed(feed, acct, recovery, []);
    }

    /** Between calls. */
    ghost predicate Valid()
      reads this, decoder, decoder.frameState, software
    {
      Sound() && (!recovery.useSoftware ==> Following())
    }

    /** The same while a stream is fed again from its record. */
    ghost predicate Sound()
      reads this, decoder, decoder.frameState, software
    {
      && Working() && Accounted(pendingAus)
      && StageOk(recovery, vp9) && FailuresOk(recovery, decoded != [])
      && Replayed(recovery, log, software.accepted)
      && (!recovery.useSoftware ==> FedOk(feed, acct))
    }

    ghost predicate Working()
      reads this, decoder, decoder.frameState
    {
      && decoder.Valid() && Clocked() && StreamOk(hevc, sets, recovery.stage, screening)
      && (if recovery.useSoftware then decoder.m.stage == Closed && (recovery.picturesOut == 0 ==> AllBack(decoder.all))
          else decoder.m.stage == Idle && Pictures() && FeedIs(filter, vp9, feed, sent, acct.packets))
    }

    /** Hardware mode: the queued pictures keep their frames and have timestamps of their own. */
    ghost predicate Pictures()
      reads this, decoder
    {
      PicturesOk(decoded, decoder.all, decoder.out, recovery.picturesOut, acct.times, acct.handed, frameDuration)
    }

    /** Hardware mode: the decoder was fed packets that were acknowledged, the latest ones. */
    ghost predicate Following()
      reads this
    {
      Follows(feed, acct, recovery, log.acknowledged)
    }

    ghost function Here(): State
      reads this
    {
      State(recovery, log, screening, filterGeneration, pendingAus, acct, feed)
    }

    /** Hardware mode: the hardware got exactly the consumed units, and every unit fed is accounted for. */
    ghost predicate Accounted(pending: seq<Bytes>)
      reads this, decoder
    {
      AccountedFrom(screening, pending)
    }

    /** The same, before the checks on the first of them changed the flags `c`. */
    ghost predicate AccountedFrom(c: Screening, pending: seq<Bytes>)
      reads this, decoder
    {
      !recovery.useSoftware ==>
        && decoder.consumed == Eaten(acct.units.fates)
        && UnitsOk(hevc, vp9, recovery.midStreamResets > 0, recovery.pending, recovery.stage, c, acct.units, pendingAus,
                   pending)
    }

    ghost predicate Counting()
      reads this
    {
      CountersOk(recovery, vp9, decoded != [])
    }

    /** The clock is what the timestamps fed and taken make of it. */
    ghost predicate Clocked()
      reads this
    {
      PtsOk(acct.times, pts, lastPts, frameDuration)
    }

    // ---- timestamps ---------------------------------------------------------------

    /** The smallest pending timestamp, or one frame after the latest; for a picture or a dropped unit. */
    method NextPts(ghost picture: bool)
      requires Clocked()
      modifies this`pts, this`lastPts, this`acct
      ensures Clocked() && acct == old(acct).(times := Took(old(acct).times, picture))
      ensures lastPts == if old(pts) != [] then old(pts)[0] else old(lastPts) + frameDuration
      ensures pts == if old(pts) != [] then old(pts)[1..] else []
    {
      hide PtsOk;
      TookOk(acct.times, pts, lastPts, frameDuration, picture);
      if pts != [] {
        lastPts := pts[0];
        pts := pts[1..];
      } else {
        lastPts := lastPts + frameDuration;
      }
      acct := acct.(times := Took(acct.times, picture));
    }

    /** The timestamp of a packet is pending, and the smallest ones beyond the limit are stale. */
    method InsertPts(packet: Packet)
      requires Clocked()
      modifies this`pts, this`acct
      ensures Clocked() && acct == old(acct).(times := Stamped(old(acct).times, packet))
      ensures Joined(old(pts), packet, pts)
    {
      hide Timestamps.Insert, PtsOk, Timestamps.LargestOf, Timestamps.Sorted;
      PendingNow(acct.times, pts, lastPts, frameDuration);
      StampedOk(acct.times, pts, lastPts, frameDuration, packet);
      var t := if packet.pts.Some? then packet.pts else packet.dts;
      acct := acct.(times := Stamped(acct.times, packet));
      if t.Some? {
        Timestamps.FeedIsLargest(pts, t.value);
        pts := Timestamps.Insert(pts, t.value);
        if |pts| > Timestamps.MAX_PENDING {
          pts := pts[|pts| - Timestamps.MAX_PENDING..];
        }
      }
    }

    // ---- the checks before the hardware ---------------------------------------------

    /** After a resync: units are dropped up to a keyframe, with their timestamps. */
    method AwaitKeyframe(data: Bytes) returns (drop: bool)
      requires Clocked()
      modifies this`pts, this`lastPts, this`acct, this`screening
      ensures Clocked() && drop == MustAwaitKeyframe(hevc, old(screening), data)
      ensures drop == (old(screening).waitKeyframe && !KeyInside(hevc, data))
      ensures screening == old(screening).(waitKeyframe := drop)
      ensures acct == old(acct).(times := Ticked(old(acct).times, drop))
    {
      hide HasSlice, HasStart, Clean, AnnexB.Split, PtsOk, KeyInside, SliceInside, KeptByType;
      InsideByType(hevc, data);
      drop := false;
      if screening.waitKeyframe {
        var tmp, irap, hasSlice := CleanAccessUnit(hevc, data);
        if !irap {
          NextPts(false);
          return true;
        }
        screening := screening.(waitKeyframe := false);
      }
    }

    /** A cleaned stream: units without a slice, or before the first keyframe, are dropped; too many
        of them with nothing to show call for recovery. */
    method CleanOne(data: Bytes) returns (d: Bytes, drop: bool)
      requires Clocked() && Counting() && !recovery.useSoftware && !recovery.pending
      modifies this`pts, this`lastPts, this`acct, this`screening, this`recovery
      ensures Clocked() && Counting() && drop == MustSkipCleaned(hevc, old(screening), data)
      ensures
        var c := old(screening);
        && drop == (c.cleanStream && (!SliceInside(hevc, data) || (!c.seenIrap && !KeyInside(hevc, data))))
        && (!drop ==> if c.cleanStream then KeptByType(hevc, data, d) else d == data)
      ensures recovery == old(recovery).(pending := recovery.pending) && (recovery.pending ==> drop)
      ensures drop ==>
        var nothingShown := recovery.picturesOut == 0 && decoded == [];
        var struck := Struck(old(screening), nothingShown, HasSlice(hevc, AnnexB.Split(data)));
        && screening == struck.0 && recovery.pending == struck.1
        && (!nothingShown ==> screening == old(screening) && !recovery.pending)
      ensures !drop ==> d == Body(hevc, screening, data)
      ensures !drop ==> screening == old(screening).(seenIrap := old(screening).seenIrap || old(screening).cleanStream)
      ensures !drop && screening.cleanStream ==> HasSlice(hevc, AnnexB.Split(data))
      ensures acct == old(acct).(times := Ticked(old(acct).times, drop))
    {
      hide HasSlice, HasStart, Clean, AnnexB.Split, PtsOk, CountersOk, KeyInside, SliceInside, KeptByType;
      InsideByType(hevc, data);
      d, drop := data, false;
      if screening.cleanStream {
        var cleaned, irap, hasSlice := CleanAccessUnit(hevc, data);
        if !hasSlice || (!screening.seenIrap && !irap) {
          NextPts(false);
          if recovery.picturesOut == 0 && decoded == [] {
            CountDrop(hasSlice);
          }
          return d, true;
        }
        screening := screening.(seenIrap := true);
        d := cleaned;
      }
    }

    /** Nothing to show for yet another unit. */
    method CountDrop(hasSlice: bool)
      requires Counting() && !recovery.useSoftware && !recovery.pending
      requires recovery.picturesOut == 0 && decoded == []
      modifies this`screening, this`recovery
      ensures Counting()
      ensures recovery == old(recovery).(pending := recovery.pending)
      ensures (screening, recovery.pending) == Struck(old(screening), true, hasSlice)
      ensures
        var c := old(screening);
        && screening == (if hasSlice then c.(cleanWaitIrap := c.cleanWaitIrap + 1)
                         else c.(cleanNoSlice := c.cleanNoSlice + 1))
        && recovery.pending == if hasSlice then c.cleanWaitIrap + 1 >= 300 else c.cleanNoSlice + 1 >= 8
    {
      hide CountersOk;
      MayCallForRecovery(recovery, vp9);
      if !hasSlice {
        screening := screening.(cleanNoSlice := screening.cleanNoSlice + 1);
        recovery := recovery.(pending := screening.cleanNoSlice >= FAILURES_BEFORE_SOFTWARE);
      } else {
        screening := screening.(cleanWaitIrap := screening.cleanWaitIrap + 1);
        recovery := recovery.(pending := screening.cleanWaitIrap >= MAX_WAIT_IRAP);
      }
    }

    /** HEVC after a seek: leading pictures refer to pictures before it. */
    method SkipRasl(d: Bytes) returns (drop: bool)
      requires Clocked()
      modifies this`pts, this`lastPts, this`acct, this`screening
      ensures Clocked() && drop == MustSkipRasl(hevc, old(screening), d)
      ensures screening == old(screening).(skipRasl := old(screening).skipRasl && (!hevc || drop))
      ensures acct == old(acct).(times := Ticked(old(acct).times, drop))
    {
      hide RaslFrom, PtsOk;
      drop := false;
      if hevc && screening.skipRasl {
        var rasl := HevcAccessUnitIsRasl(d);
        if rasl {
          NextPts(false);
          return true;
        }
        screening := screening.(skipRasl := false);
      }
    }

    /** All three: a dropped unit takes its timestamp along. */
    method Screen(data: Bytes) returns (d: Bytes, drop: bool)
      requires Clocked() && Counting() && !recovery.useSoftware && !recovery.pending
      modifies this`pts, this`lastPts, this`acct, this`screening, this`recovery
      ensures Clocked() && Counting() && drop == MustDrop(hevc, old(screening), data)
      ensures recovery == old(recovery).(pending := recovery.pending) && (recovery.pending ==> drop)
      ensures Gate(screening) == Gate(Checked(hevc, old(screening), data))
      ensures !drop ==> d == Body(hevc, screening, data) && screening == Checked(hevc, old(screening), data)
      ensures acct == old(acct).(times := Ticked(old(acct).times, drop))
    {
      hide MustDrop, MustAwaitKeyframe, MustSkipCleaned, MustSkipRasl, Checked, Body, HasSlice, AnnexB.Split, PtsOk,
           CountersOk;
      ChecksInTurn(hevc, screening, data);
      d := data;
      drop := AwaitKeyframe(data);
      if drop {
        return;
      }
      d, drop := CleanOne(data);
      if drop {
        return;
      }
      drop := SkipRasl(d);
    }

    // ---- leaving the hardware, or starting it afresh ----------------------------------

    /** The queued pictures give their frames back, while other threads give back theirs. */
    method ClearQueue()
      requires decoder.Valid() && QueueOk(decoded, decoder.all, decoder.out)
      modifies this`decoded, decoder, decoder.frameState
      ensures decoder.Valid() && decoder.m.stage == old(decoder.m.stage) && decoded == []
      ensures decoder.consumed == old(decoder.consumed)
      ensures QueueOk([], decoder.all, decoder.out) && decoder.out <= old(decoder.out)
    {
      hide QueueOk;
      var i := 0;
      assert decoded[0..] == decoded;
      while i < |decoded|
        invariant i <= |decoded| && decoder.Valid() && decoder.m.stage == old(decoder.m.stage)
        invariant decoder.consumed == old(decoder.consumed)
        invariant QueueOk(decoded[i..], decoder.all, decoder.out) && decoder.out <= old(decoder.out)
        modifies decoder, decoder.frameState
      {
        ReleaseFirst(decoded[i..]);
        assert decoded[i..][1..] == decoded[i + 1..];
        i := i + 1;
      }
      assert decoded[|decoded|..] == [];
      decoded := [];
    }

    /** One of them. */
    method ReleaseFirst(queue: seq<Decoded>)
      requires decoder.Valid() && queue != [] && QueueOk(queue, decoder.all, decoder.out)
      modifies decoder, decoder.frameState
      ensures decoder.Valid() && decoder.m.stage == old(decoder.m.stage)
      ensures decoder.consumed == old(decoder.consumed)
      ensures QueueOk(queue[1..], decoder.all, decoder.out) && decoder.out <= old(decoder.out)
    {
      hide QueueOk;
      ghost var all, out := decoder.all, decoder.out;
      decoder.OtherThreads();
      QueueMoved(queue, all, out, decoder.all, decoder.out);
      QueueDropped(queue, decoder.all, decoder.out);
      decoder.GiveFrame(queue[0].buffer);
      decoder.GiveBuffer(queue[0].buffer);
    }

    /** A decoder just reset, with nothing queued or fed. */
    lemma StartsAfresh()
      requires decoder.Valid() && decoder.m.stage == Idle
      requires QueueOk([], decoder.all, decoder.out) && (recovery.picturesOut == 0 ==> decoder.out == {})
      requires StreamOk(hevc, sets, recovery.stage, screening) && !recovery.useSoftware
      requires decoded == [] && pts == [] && acct == FreshAccount(lastPts) && sent == []
      requires FeedIs(filter, vp9, feed, [], [])
      ensures Working()
    {
      hide VideoDec2.VideoDec2.Valid, PtsOk, PicturesOk, QueueOk, StreamOk, FeedIs;
      AfreshOk(lastPts, frameDuration);
      PicturesAfresh(decoder.all, decoder.out, recovery.picturesOut, lastPts, frameDuration);
    }

    /** ... and its units are counted from here. */
    lemma Begins()
      requires !recovery.useSoftware && decoder.consumed == [] && acct.units == NoUnits() && pendingAus == []
      requires Gate(screening) == Start(hevc, screening, recovery.midStreamResets > 0)
      ensures Accounted([])
    {
      hide UnitsOk, Eaten;
      UnitsBegin(hevc, vp9, recovery.midStreamResets > 0, recovery.pending, recovery.stage, screening);
    }

    /** The queue is emptied and the decoder reset. */
    method StopDecoder()
      requires decoder.Valid() && decoder.m.stage == Idle && QueueOk(decoded, decoder.all, decoder.out)
      modifies this`decoded, decoder, decoder.frameState
      ensures decoder.Valid() && decoder.m.stage == Idle && decoder.consumed == [] && decoded == []
      ensures QueueOk([], decoder.all, decoder.out) && decoder.out <= old(decoder.out)
    {
      hide VideoDec2.VideoDec2.Valid, QueueOk;
      ClearQueue();
      ghost var all, out := decoder.all, decoder.out;
      decoder.Reset();
      QueueMoved([], all, out, decoder.all, decoder.out);
    }

    /** A fresh decoder, filter and queue. */
    method ResetDecoderState()
      requires Working() && !recovery.useSoftware
      modifies this`decoded, this`pts, this`screening, this`pendingAus, this`vp9PendingShown, this`feed, this`sent,
               this`recovery, this`filterGeneration, this`rebuilds, this`acct, decoder, decoder.frameState
      ensures Working() && decoder.consumed == []
      ensures recovery == old(recovery).(errorsInRow := 0)
      ensures screening == old(screening).(skipRasl := hevc, prepend := screening.parameterSets != [])
      ensures decoded == [] && pendingAus == [] && pts == [] && acct == FreshAccount(lastPts)
      ensures filterGeneration == old(filterGeneration) + 1
      ensures exists built ::
        rebuilds == old(rebuilds) + [built] && feed == if built then old(feed) else Direct(vp9)
    {
      hide VideoDec2.VideoDec2.Valid, QueueOk, PicturesOk, StreamOk, FeedIs, PtsOk;
      StreamSame(hevc, sets, recovery.stage, recovery.stage, screening,
                 screening.(skipRasl := hevc, prepend := screening.parameterSets != []));
      PicturesQueue(decoded, decoder.all, decoder.out, recovery.picturesOut, acct.times, acct.handed, frameDuration);
      StopDecoder();
      FeedAfresh(filter, vp9, feed, sent, acct.packets);
      ForgetStream();
      StartsAfresh();
    }

    /** Nothing of the stream so far is pending or counted. A filter is built anew, or is gone. */
    method ForgetStream()
      modifies this`pts, this`screening, this`pendingAus, this`vp9PendingShown, this`recovery, this`filterGeneration,
               this`rebuilds, this`feed, this`sent, this`acct
      ensures recovery == old(recovery).(errorsInRow := 0)
      ensures screening == old(screening).(skipRasl := hevc, prepend := screening.parameterSets != [])
      ensures pendingAus == [] && pts == [] && vp9PendingShown == [] && acct == FreshAccount(lastPts)
      ensures filterGeneration == old(filterGeneration) + 1 && sent == []
      ensures exists built ::
        rebuilds == old(rebuilds) + [built] && feed == if built then old(feed) else Direct(vp9)
    {
      pts, pendingAus, vp9PendingShown := [], [], [];
      screening := screening.(skipRasl := hevc, prepend := screening.parameterSets != []);
      var built: bool := *;
      feed, sent := if built then feed else Direct(vp9), [];
      filterGeneration, rebuilds := filterGeneration + 1, rebuilds + [built];
      recovery := recovery.(errorsInRow := 0);
      acct := FreshAccount(lastPts);
    }

    /** The software decoder opens or it does not. If it does, it gets the replay and the hardware decoder
        is closed; before the first picture no frame is anybody's then. */
    method SwitchToSoftware() returns (ok: bool)
      requires decoder.Valid() && decoder.m.stage == Idle && Pictures() && Clocked()
      requires recovery.picturesOut == 0 ==> decoded == []
      modifies this`recovery, this`pendingAus, this`pts, this`acct, this`log,
               decoder, decoder.frameState, software
      ensures decoder.Valid() && Clocked() && software.opens == old(software.opens) + [ok]
      ensures !ok ==> Here() == old(Here()) && Pictures() && software.accepted == old(software.accepted)
      ensures !ok ==>
        && decoder.m.stage == Idle && decoder.consumed == old(decoder.consumed)
        && decoder.calls == old(decoder.calls) && decoder.stalled == old(decoder.stalled)
      ensures ok ==> recovery == Switched(old(recovery)) && log == SwitchLog(old(recovery), old(log))
      ensures ok ==> recovery.softwareQueue == old(recovery).replay && recovery.useSoftware
      ensures ok ==> (log.exact <==> old(recovery).picturesOut == 0 && !old(recovery).replayOverflow)
      ensures ok ==> pendingAus == [] && pts == [] && software.accepted == []
      ensures ok ==> decoder.m.stage == Closed && (recovery.picturesOut == 0 ==> AllBack(decoder.all))
    {
      hide VideoDec2.VideoDec2.Valid, PtsOk, PicturesOk;
      if recovery.picturesOut == 0 {
        NothingQueued(decoder.all, decoder.out, acct.times, acct.handed, frameDuration);
      }
      ok := software.Open();
      if ok {
        software.Reset();
        pendingAus, pts := [], [];
        acct := FreshAccount(lastPts);
        AfreshOk(lastPts, frameDuration);
        decoder.Close();
        log := SwitchLog(recovery, log);
        recovery := recovery.(useSoftware := true, softwareQueue := recovery.replay);
        recovery := recovery.(replay := [], replayBytes := 0);
      }
    }

    // ---- one access unit ----------------------------------------------------------

    /** A decoder error: counted before the first picture; later on the decoder is reset and waits for
        a keyframe, and in the end it is given up. */
    method DecodeFailed()
      requires Working() && Accounted(pendingAus) && Counting() && !recovery.useSoftware && !recovery.pending
      modifies this, decoder, decoder.frameState, software
      ensures Working() && Accounted(pendingAus) && Counting() && Onward(old(Here()), Here())
      ensures filterGeneration == old(filterGeneration) && !recovery.useSoftware ==>
        && acct == old(acct) && pendingAus == old(pendingAus) && decoded == old(decoded)
        && vp9PendingShown == old(vp9PendingShown)
        && decoder.calls == old(decoder.calls) && decoder.stalled == old(decoder.stalled)
      ensures pendingAus == [] || pendingAus == old(pendingAus)
      ensures
        var (r, nothing) := (old(recovery), old(recovery).picturesOut == 0 && old(decoded) == []);
        if r.picturesOut > 0 && r.errorsInRow + 1 >= 12 then
          filterGeneration != old(filterGeneration) || recovery.useSoftware || recovery.fatal
        else
          FailureCounted(r, nothing, recovery) && Here() == old(Here()).(recovery := recovery)
    {
      hide VideoDec2.VideoDec2.Valid, UnitsOk, StreamOk, FeedIs, PtsOk, PicturesOk, CountersOk, Onward, FailureCounted;
      ghost var s := Here();
      if recovery.picturesOut > 0 && recovery.errorsInRow + 1 >= ERRORS_BEFORE_RESYNC {
        FailsAgain(s, vp9, decoded != []);
        recovery := recovery.(errorsInRow := recovery.errorsInRow + 1);
        ghost var s' := Here();
        Resync();
        OnwardOn(s, s', Here());
      } else {
        FailsOnce(s, vp9, decoded != []);
        FailureCounts(recovery, recovery.picturesOut == 0 && decoded == []);
        CountFailure();
        UnitsCalled(hevc, vp9, recovery.midStreamResets > 0, false, recovery.pending, recovery.stage, recovery.stage,
                    screening, acct.units, pendingAus, pendingAus);
      }
    }

    /** A failure with nothing shown may call for recovery; too many in a row are fatal. */
    method CountFailure()
      modifies this`recovery
      ensures recovery == Failed(old(recovery), old(recovery).picturesOut == 0 && decoded == [])
    {
      recovery := recovery.(errorsInRow := recovery.errorsInRow + 1);
      if recovery.picturesOut == 0 && decoded == [] {
        recovery := recovery.(failuresBeforeFirst := recovery.failuresBeforeFirst + 1);
        if recovery.failuresBeforeFirst >= FAILURES_BEFORE_SOFTWARE {
          recovery := recovery.(pending := true);
          return;
        }
      }
      if recovery.errorsInRow >= MAX_ERRORS_IN_ROW {
        recovery := recovery.(fatal := true);
      }
    }

    /** The stream has shown pictures: it is decodable, so the decoder is reset, but not for ever. In the end
        it is closed, whatever pictures are live. */
    method Resync()
      requires Working() && Accounted(pendingAus) && Counting() && !recovery.useSoftware && !recovery.pending
      requires recovery.picturesOut > 0
      modifies this, decoder, decoder.frameState, software
      ensures Working() && Accounted(pendingAus) && Counting() && Onward(old(Here()), Here())
      ensures if old(recovery).midStreamResets < 6 then
                && recovery == old(recovery).(errorsInRow := 0, midStreamResets := old(recovery).midStreamResets + 1)
                && log == old(log) && filterGeneration == old(filterGeneration) + 1
                && screening.waitKeyframe && !screening.seenIrap && decoded == [] && pendingAus == []
              else if recovery.useSoftware then
                && decoder.m.stage == Closed && pendingAus == []
                && software.opens == old(software.opens) + [true]
              else
                && recovery.fatal && software.opens == old(software.opens) + [false]
                && decoded == old(decoded) && vp9PendingShown == old(vp9PendingShown)
                && Here() == old(Here()).(recovery := recovery)
                && decoder.calls == old(decoder.calls) && decoder.stalled == old(decoder.stalled)
    {
      hide VideoDec2.VideoDec2.Valid, UnitsOk, StreamOk, FeedIs, PtsOk, PicturesOk, CountersOk, Onward;
      ghost var s := Here();
      ResyncCounts(recovery, vp9, decoded != []);
      recovery := recovery.(midStreamResets := recovery.midStreamResets + 1);
      if recovery.midStreamResets > MAX_MID_STREAM_RESETS {
        GiveUp();
        GivenUp(s, vp9, decoded != [], Here());
        return;
      }
      Restart();
      StartedAfresh(s, Here());
    }

    /** In software from the next packet on, or not at all. */
    method GiveUp()
      requires Working() && Accounted(pendingAus) && !recovery.useSoftware && recovery.picturesOut > 0
      modifies this`recovery, this`pendingAus, this`pts, this`acct, this`log,
               decoder, decoder.frameState, software
      ensures Working() && Accounted(pendingAus)
      ensures software.opens == old(software.opens) + [recovery.useSoftware]
      ensures if recovery.useSoftware then
                && recovery == Switched(old(recovery)) && log == SwitchLog(old(recovery), old(log))
                && decoder.m.stage == Closed && pendingAus == []
              else
                && Here() == old(Here()).(recovery := old(recovery).(fatal := true))
                && decoder.calls == old(decoder.calls) && decoder.stalled == old(decoder.stalled)
    {
      hide VideoDec2.VideoDec2.Valid, UnitsOk, StreamOk, FeedIs, PtsOk, PicturesOk;
      var ok := SwitchToSoftware();
      if !ok {
        recovery := recovery.(fatal := true);
      }
    }

    /** The decoder starts again at the next keyframe. */
    method Restart()
      requires Working() && Counting() && !recovery.useSoftware && recovery.picturesOut > 0
      requires recovery.midStreamResets > 0
      modifies this`recovery, this`screening, this`pendingAus, this`decoded, this`pts, this`vp9PendingShown,
               this`filterGeneration, this`rebuilds, this`feed, this`sent, this`acct, decoder, decoder.frameState
      ensures Working() && Accounted(pendingAus) && Counting()
      ensures recovery == old(recovery).(errorsInRow := 0) && filterGeneration == old(filterGeneration) + 1
      ensures IsFresh(acct) && pendingAus == [] && decoded == []
      ensures SameStream(old(screening), screening) && screening.waitKeyframe && !screening.seenIrap
    {
      hide VideoDec2.VideoDec2.Valid, UnitsOk, PtsOk, PicturesOk, StreamOk, FeedIs;
      ResetDecoderState();
      ghost var all, out, c := decoder.all, decoder.out, screening;
      decoder.Reset();
      PicturesMoved([], all, out, decoder.all, decoder.out, recovery.picturesOut, acct.times, acct.handed,
                    frameDuration);
      recovery := recovery.(errorsInRow := 0);
      screening := screening.(seenIrap := false, waitKeyframe := true);
      StreamSame(hevc, sets, recovery.stage, recovery.stage, c, screening);
      Begins();
    }

    /** The picture of a decoded unit is queued with the next timestamp; a hidden frame's is not. */
    method TakePicture(shown: bool, picture: Option<nat>, immediate: bool)
      requires decoder.Valid() && Clocked() && Pictures()
      requires decoder.m.stage == if picture.Some? then Holding(picture.value) else Idle
      modifies this`decoded, this`pts, this`lastPts, this`acct, this`vp9PendingShown, decoder, decoder.frameState
      ensures decoder.Valid() && decoder.m.stage == Idle && Clocked() && Pictures()
      ensures decoder.stalled == old(decoder.stalled) && decoder.consumed == old(decoder.consumed)
      ensures decoder.calls == old(decoder.calls)
      ensures old(decoded) <= decoded
      ensures acct == old(acct).(times := Pictured(old(acct).times, decoded != old(decoded)))
      ensures var (waiting, visible) := if vp9 then Flags(old(vp9PendingShown), shown, picture.Some?, immediate)
                                        else (old(vp9PendingShown), true);
        && vp9PendingShown == waiting
        && (if picture.Some? && visible then
              && |decoded| == |old(decoded)| + 1 && decoded[|old(decoded)|].pts == lastPts
              && decoded[|old(decoded)|].buffer < |decoder.all|
              && decoder.all[decoded[|old(decoded)|].buffer] == picture.value
            else decoded == old(decoded))
      ensures var visible := !vp9 || Flags(old(vp9PendingShown), shown, picture.Some?, immediate).1;
        picture.Some? && !visible ==> picture.value < |decoder.m.frames| && decoder.m.frames[picture.value] == Free
    {
      hide VideoDec2.VideoDec2.Valid, PtsOk, PicturesOk;
      var visible := true;
      if vp9 {
        if picture.Some? && immediate {
          visible := shown;
        } else {
          vp9PendingShown := vp9PendingShown + [shown];
          if picture.Some? {
            visible := vp9PendingShown[0];
            vp9PendingShown := vp9PendingShown[1..];
          }
        }
      }
      if picture.Some? {
        if !visible {
          decoder.Drop(picture.value);
          return;
        }
        Keep(picture.value);
      }
    }

    /** Zero-copy: a buffer of the pool shows the decoder's frame and is queued with the next timestamp. */
    method Keep(frame: nat)
      requires decoder.Valid() && decoder.m.stage == Holding(frame) && Clocked() && Pictures()
      modifies this`decoded, this`pts, this`lastPts, this`acct, decoder, decoder.frameState
      ensures decoder.Valid() && decoder.m.stage == Idle && Clocked() && Pictures()
      ensures decoder.stalled == old(decoder.stalled) && decoder.consumed == old(decoder.consumed)
      ensures decoder.calls == old(decoder.calls)
      ensures acct == old(acct).(times := Took(old(acct).times, true))
      ensures lastPts == if old(pts) != [] then old(pts)[0] else old(lastPts) + frameDuration
      ensures |decoded| == |old(decoded)| + 1 && decoded[..|old(decoded)|] == old(decoded)
      ensures var d := decoded[|old(decoded)|];
        d.pts == lastPts && d.buffer < |decoder.all| && decoder.all[d.buffer] == frame
    {
      hide VideoDec2.VideoDec2.Valid, PtsOk, PicturesOk;
      ghost var all, out, t, pending, latest := decoder.all, decoder.out, acct.times, pts, lastPts;
      var buffer := decoder.Wrap(frame);
      NextPts(true);
      PicturesKept(decoded, all, out, decoder.all, decoder.out, recovery.picturesOut, t, acct.handed, frameDuration,
                   buffer, frame, pending, latest, lastPts);
      decoded := decoded + [Decoded(buffer, lastPts)];
    }

    /** Parameter sets go in front of the first unit. */
    method Prepend(ghost data: Bytes, d: Bytes) returns (au: Bytes)
      requires d == Body(hevc, screening, data)
      modifies this`screening
      ensures au == Offered(hevc, old(screening), data) && screening == old(screening).(prepend := false)
    {
      hide Clean;
      au := d;
      assert d == [] + d;
      if screening.prepend {
        screening := screening.(prepend := false);
        au := screening.parameterSets + d;
      }
    }

    /** A unit that passed the checks from the flags `c` on: the hardware has it and it has met its fate, or it is
        the first of the pending ones, as it was offered. */
    method GiveToHardware(data: Bytes, d: Bytes, ghost c: Screening)
      returns (ok: bool, picture: Option<nat>, immediate: bool)
      requires Working() && AccountedFrom(c, [data] + pendingAus) && !recovery.useSoftware && !recovery.pending
      requires StageLeft(recovery.stage, vp9) && StreamOk(hevc, sets, recovery.stage, c)
      requires d == Body(hevc, screening, data) && screening == Checked(hevc, c, data) && !MustDrop(hevc, c, data)
      modifies this`screening, this`pendingAus, this`acct, decoder, decoder.frameState
      ensures decoder.Valid() && decoder.m.stage == if picture.Some? then Holding(picture.value) else Idle
      ensures !ok || decoder.stalled ==> picture == None
      ensures Accounted(pendingAus) && Pictures()
      ensures screening == old(screening).(prepend := false) && acct == old(acct).(units := acct.units)
      ensures Settled(hevc, c, false, old(acct).units, acct.units, old(pendingAus), pendingAus, data)
      ensures |pendingAus| <= |old(pendingAus)| || (ok && decoder.stalled)
      ensures Asked(Offered(hevc, c, data), ok, decoder.stalled, picture, old(decoder.calls), decoder.calls)
    {
      hide VideoDec2.VideoDec2.Valid, UnitsOk, PtsOk, Checked, MustDrop, Eaten, Body, Offered, Settled, Met, Waiting,
           PicturesOk;
      GateDecides(hevc, c, data);
      FateOfOffered(hevc, c, data);
      var au := Prepend(data, d);
      ghost var all, out := decoder.all, decoder.out;
      ok, picture, immediate := decoder.Decode(au);
      PicturesMoved(decoded, all, out, decoder.all, decoder.out, recovery.picturesOut, acct.times, acct.handed,
                    frameDuration);
      if ok && decoder.stalled {
        UnitsWait(hevc, vp9, recovery.midStreamResets > 0, recovery.stage, c, screening, acct.units, data, pendingAus);
        pendingAus := [au] + pendingAus;
        acct := acct.(units := Waiting(acct.units));
        return;
      }
      UnitsMeet(hevc, vp9, recovery.midStreamResets > 0, false, recovery.stage, c, screening, acct.units, data,
                pendingAus);
      acct := acct.(units := Met(acct.units, FateOf(hevc, c, data)));
    }

    /** ... and what the decoder answers. */
    method OfferOne(data: Bytes, d: Bytes, ghost c: Screening)
      returns (ok: bool, ghost output: Option<nat>, ghost immediate: bool)
      requires Working() && AccountedFrom(c, [data] + pendingAus) && Counting()
      requires !recovery.useSoftware && !recovery.pending && StreamOk(hevc, sets, recovery.stage, c)
      requires d == Body(hevc, screening, data) && screening == Checked(hevc, c, data) && !MustDrop(hevc, c, data)
      modifies this, decoder, decoder.frameState, software
      ensures Working() && Accounted(pendingAus) && Counting() && Onward(old(Here()), Here())
      ensures |pendingAus| <= |old(pendingAus)| || decoder.stalled
      ensures filterGeneration == old(filterGeneration) && !recovery.useSoftware ==>
        && Settled(hevc, c, false, old(acct).units, acct.units, old(pendingAus), pendingAus, data)
        && old(decoded) <= decoded && acct.times == Pictured(old(acct).times, decoded != old(decoded))
        && Asked(Offered(hevc, c, data), ok, decoder.stalled, output, old(decoder.calls), decoder.calls)
        && Heeded(old(recovery), old(decoded) != [], ok, recovery)
        && FlagsMoved(vp9, ok && !decoder.stalled, old(vp9PendingShown), ShownByBits(d), output.Some?, immediate,
                      vp9PendingShown, decoded != old(decoded))
    {
      hide VideoDec2.VideoDec2.Valid, UnitsOk, PtsOk, CountersOk, MustDrop, StreamOk, FeedIs, Checked,
           Vp9FrameIsShown, Eaten, Body, Flags, Settled, PicturesOk, Onward, FedStamps, ShownByBits;
      ghost var s := Here();
      Vp9ByBits(d);
      StageIsLeft(recovery, vp9, decoded != []);
      var shown := !vp9 || Vp9FrameIsShown(d);
      var picture, own;
      ok, picture, own := GiveToHardware(data, d, c);
      output, immediate := picture, own;
      ghost var s' := Here();
      OfferedOn(hevc, sets, c, s, s', data);
      Answered(s, ok, shown, picture, own);
    }

    /** An error, or a picture or none. */
    method Answered(ghost s: State, ok: bool, shown: bool, picture: Option<nat>, immediate: bool)
      requires decoder.Valid() && Clocked() && Pictures() && Counting() && Accounted(pendingAus)
      requires FeedIs(filter, vp9, feed, sent, acct.packets)
      requires StreamOk(hevc, sets, recovery.stage, screening)
      requires !recovery.useSoftware && !recovery.pending && (!ok || decoder.stalled ==> picture == None)
      requires decoder.m.stage == if picture.Some? then Holding(picture.value) else Idle
      requires Onward(s, Here()) && filterGeneration == s.generation
      modifies this, decoder, decoder.frameState, software
      ensures Working() && Accounted(pendingAus) && Counting() && Onward(s, Here())
      ensures pendingAus == [] || pendingAus == old(pendingAus)
      ensures filterGeneration == s.generation && !recovery.useSoftware ==>
        && acct == old(acct).(times := Pictured(old(acct).times, decoded != old(decoded)))
        && pendingAus == old(pendingAus) && old(decoded) <= decoded
        && decoder.calls == old(decoder.calls) && decoder.stalled == old(decoder.stalled)
        && Heeded(old(recovery), old(decoded) != [], ok, recovery)
        && FlagsMoved(vp9, ok && !decoder.stalled, old(vp9PendingShown), shown || !vp9, picture.Some?, immediate,
                      vp9PendingShown, decoded != old(decoded))
      ensures ok ==> decoder.stalled == old(decoder.stalled)
    {
      hide VideoDec2.VideoDec2.Valid, UnitsOk, PtsOk, CountersOk, StreamOk, FeedIs, Eaten, Flags, PicturesOk, Onward,
           FedStamps;
      ghost var s' := Here();
      if !ok {
        DecodeFailed();
        OnwardOn(s, s', Here());
      } else {
        Succeeded(shown, picture, immediate);
        AnsweredOn(s, s', Here(), decoded != old(decoded));
      }
    }

    /** A unit that was decoded, or waits for a frame. */
    method Succeeded(shown: bool, picture: Option<nat>, immediate: bool)
      requires decoder.Valid() && Clocked() && Pictures() && Counting()
      requires !recovery.useSoftware && !recovery.pending && (decoder.stalled ==> picture == None)
      requires decoder.m.stage == if picture.Some? then Holding(picture.value) else Idle
      modifies this`recovery, this`decoded, this`pts, this`lastPts, this`acct, this`vp9PendingShown,
               decoder, decoder.frameState
      ensures decoder.Valid() && decoder.m.stage == Idle && Clocked() && Pictures() && Counting()
      ensures decoder.stalled == old(decoder.stalled) && decoder.consumed == old(decoder.consumed)
      ensures decoder.calls == old(decoder.calls)
      ensures recovery == old(recovery).(errorsInRow := 0) && old(decoded) <= decoded
      ensures acct == old(acct).(times := Pictured(old(acct).times, decoded != old(decoded)))
      ensures FlagsMoved(vp9, !decoder.stalled, old(vp9PendingShown), shown || !vp9, picture.Some?, immediate,
                         vp9PendingShown, decoded != old(decoded))
    {
      hide VideoDec2.VideoDec2.Valid, PtsOk, CountersOk, Flags, PicturesOk;
      FlagsMove(vp9PendingShown, shown, picture.Some?, immediate);
      CountsOn(recovery, vp9, decoded != [], decoded != []);
      CountsOn(recovery, vp9, decoded != [], true);
      recovery := recovery.(errorsInRow := 0);
      if !decoder.stalled {
        TakePicture(shown, picture, immediate);
      }
    }

    /** One access unit, new or retried. It is dropped unseen in software mode, and when recovery is called for,
        which will feed its packet again. */
    method DecodeOne(data: Bytes) returns (ok: bool)
      requires Working() && Accounted([data] + pendingAus) && Counting()
      modifies this, decoder, decoder.frameState, software
      ensures Working() && Accounted(pendingAus) && Counting() && Onward(old(Here()), Here())
      ensures old(recovery.useSoftware) ==> Here() == old(Here()) && software.accepted == old(software.accepted)
      ensures |pendingAus| <= |old(pendingAus)| || decoder.stalled
      ensures filterGeneration == old(filterGeneration) && !recovery.useSoftware ==>
        var dropped := !old(recovery).pending && MustDrop(hevc, old(screening), data);
        && Settled(hevc, old(screening), old(recovery).pending, old(acct).units, acct.units, old(pendingAus), pendingAus,
                   data)
        && old(decoded) <= decoded && acct.times == Ticked(Pictured(old(acct).times, decoded != old(decoded)), dropped)
    {
      hide VideoDec2.VideoDec2.Valid, UnitsOk, PtsOk, CountersOk, MustDrop, StreamOk, FeedIs, Eaten, Settled, Met,
           PicturesOk, Onward;
      ghost var s := Here();
      Stays(s);
      if recovery.useSoftware || recovery.pending {
        if !recovery.useSoftware {
          UnitsUnseen(hevc, vp9, recovery.midStreamResets > 0, recovery.stage, screening, acct.units, data, pendingAus);
          acct := acct.(units := Met(acct.units, Unseen));
          Moves(s, Here());
        }
        return true;
      }
      ok := ScreenAndOffer(data);
    }

    /** ... and otherwise it goes through the checks first. */
    method ScreenAndOffer(data: Bytes) returns (ok: bool)
      requires Working() && Accounted([data] + pendingAus) && Counting() && !recovery.useSoftware && !recovery.pending
      modifies this, decoder, decoder.frameState, software
      ensures Working() && Accounted(pendingAus) && Counting() && Onward(old(Here()), Here())
      ensures |pendingAus| <= |old(pendingAus)| || decoder.stalled
      ensures filterGeneration == old(filterGeneration) && !recovery.useSoftware ==>
        var dropped := MustDrop(hevc, old(screening), data);
        && Settled(hevc, old(screening), false, old(acct).units, acct.units, old(pendingAus), pendingAus, data)
        && old(decoded) <= decoded && acct.times == Ticked(Pictured(old(acct).times, decoded != old(decoded)), dropped)
    {
      hide VideoDec2.VideoDec2.Valid, UnitsOk, PtsOk, CountersOk, MustDrop, StreamOk, FeedIs, Checked, Eaten, Body,
           Settled, Met, PicturesOk, Onward, FedStamps;
      ghost var s := Here();
      StageIsLeft(recovery, vp9, decoded != []);
      GateDecides(hevc, screening, data);
      DroppedGate(hevc, screening, data);
      var d, drop := ScreenOne(data);
      ghost var s' := Here();
      if drop {
        DropUnit(data, s.screening);
        DroppedOn(s, s');
        ok := true;
      } else {
        ghost var output, immediate;
        ok, output, immediate := OfferOne(data, d, s.screening);
        OnwardOn(s, s', Here());
      }
    }

    /** The checks, with what they leave of the rest. */
    method ScreenOne(data: Bytes) returns (d: Bytes, drop: bool)
      requires Working() && Counting() && !recovery.useSoftware && !recovery.pending
      modifies this`pts, this`lastPts, this`acct, this`screening, this`recovery
      ensures Working() && Counting() && drop == MustDrop(hevc, old(screening), data)
      ensures recovery == old(recovery).(pending := recovery.pending) && (recovery.pending ==> drop)
      ensures Gate(screening) == Gate(Checked(hevc, old(screening), data)) && SameStream(old(screening), screening)
      ensures !drop ==> d == Body(hevc, screening, data) && screening == Checked(hevc, old(screening), data)
      ensures acct == old(acct).(times := Ticked(old(acct).times, drop)) && Onward(old(Here()), Here())
    {
      hide VideoDec2.VideoDec2.Valid, PtsOk, CountersOk, MustDrop, StreamOk, FeedIs, Checked, Body, PicturesOk, Onward,
           FedStamps;
      ghost var s := Here();
      GateDecides(hevc, screening, data);
      d, drop := Screen(data);
      PicturesTicked(decoded, decoder.all, decoder.out, recovery.picturesOut, s.acct.times, acct.handed, frameDuration,
                     drop, old(pts), old(lastPts));
      ScreenedOn(hevc, sets, s, Here(), drop);
    }

    /** The checks dropped the unit in hand, from the flags `c` on. */
    ghost method DropUnit(data: Bytes, c: Screening)
      requires !recovery.useSoftware && StageLeft(recovery.stage, vp9) && decoder.consumed == Eaten(acct.units.fates)
      requires UnitsOk(hevc, vp9, recovery.midStreamResets > 0, false, recovery.stage, c, acct.units, pendingAus,
                       [data] + pendingAus)
      requires FateOf(hevc, c, data) == Screened && Gate(screening) == Gate(GateAfter(hevc, c, data))
      modifies this`acct
      ensures Accounted(pendingAus) && acct == old(acct).(units := Met(old(acct).units, Screened))
      ensures Settled(hevc, c, false, old(acct).units, acct.units, pendingAus, pendingAus, data)
    {
      hide UnitsOk, Eaten, FateOf, GateAfter, Gate, Settled, Met;
      UnitsMeet(hevc, vp9, recovery.midStreamResets > 0, recovery.pending, recovery.stage, c, screening, acct.units,
                data, pendingAus);
      acct := acct.(units := Met(acct.units, Screened));
    }

    /** The queue in order, for as long as frames are free. */
    method RetryPending() returns (ok: bool)
      requires Working() && Accounted(pendingAus) && Counting() && !recovery.useSoftware
      modifies this, decoder, decoder.frameState, software
      ensures Working() && Accounted(pendingAus) && Counting() && Onward(old(Here()), Here())
      ensures ok <==> pendingAus == []
      ensures !ok ==> NoneFree(decoder.m) || decoder.stalled
      ensures recovery.useSoftware ==> pendingAus == []
    {
      hide VideoDec2.VideoDec2.Valid, UnitsOk, PtsOk, CountersOk, StreamOk, FeedIs, MustDrop, Settled, PicturesOk,
           Onward;
      ghost var s := Here();
      Stays(s);
      while pendingAus != []
        invariant Working() && Accounted(pendingAus) && Counting() && Onward(s, Here())
        invariant filterGeneration != s.generation || recovery.useSoftware ==> pendingAus == []
        decreases |pendingAus|
      {
        var free := decoder.HasFreeFrame();
        if !free {
          return false;
        }
        RetryFirst(s);
        if pendingAus != [] && decoder.stalled {
          return false;
        }
      }
      return true;
    }

    /** The first of them. */
    method RetryFirst(ghost s: State)
      requires Working() && Accounted(pendingAus) && Counting() && !recovery.useSoftware
      requires pendingAus != [] && Onward(s, Here()) && filterGeneration == s.generation && !s.recovery.useSoftware
      modifies this, decoder, decoder.frameState, software
      ensures Working() && Accounted(pendingAus) && Counting() && Onward(s, Here())
      ensures filterGeneration != s.generation || recovery.useSoftware ==> pendingAus == []
      ensures |pendingAus| < |old(pendingAus)| || decoder.stalled
    {
      hide VideoDec2.VideoDec2.Valid, UnitsOk, PtsOk, CountersOk, StreamOk, FeedIs, MustDrop, Settled, PicturesOk,
           Onward;
      var au := pendingAus[0];
      UnitsRetry(hevc, vp9, recovery.midStreamResets > 0, recovery.pending, recovery.stage, screening, acct.units,
                 pendingAus);
      OnwardPending(s, Here(), pendingAus[1..]);
      pendingAus := pendingAus[1..];
      ghost var s' := Here();
      var done := DecodeOne(au);
      OnwardOn(s, s', Here());
      FreshOrSame(s, Here());
    }

    // ---- packets ------------------------------------------------------------------

    /** One access unit more: behind the waiting ones, or to the decoder at once. */
    method FeedUnit(au: Bytes) returns (ok: bool)
      requires Working() && Accounted(pendingAus) && Counting()
      modifies this, decoder, decoder.frameState, software
      ensures Working() && Accounted(pendingAus) && Counting()
      ensures Onward(old(Here()).(acct := FedWith(old(acct), [au])), Here())
      ensures old(recovery.useSoftware) ==>
        software.accepted == old(software.accepted) && (old(pendingAus) == [] ==> pendingAus == [])
    {
      hide VideoDec2.VideoDec2.Valid, UnitsOk, PtsOk, CountersOk, StreamOk, FeedIs, MustDrop, Settled, PicturesOk,
           Onward;
      if !recovery.useSoftware {
        UnitsQueue(hevc, vp9, recovery.midStreamResets > 0, recovery.pending, recovery.stage, screening, acct.units,
                   pendingAus, au);
      }
      acct := FedWith(acct, [au]);
      if pendingAus != [] {
        ghost var s := Here();
        Stays(s);
        OnwardPending(s, s, pendingAus + [au]);
        pendingAus := pendingAus + [au];
        return true;
      }
      assert [au] + pendingAus == pendingAus + [au];
      ok := DecodeOne(au);
    }

    /** What the filter made of a packet; a rebuilt filter has none of it left. */
    method FeedAll(made: seq<Bytes>)
      requires Working() && Accounted(pendingAus) && Counting()
      modifies this, decoder, decoder.frameState, software
      ensures Working() && Accounted(pendingAus) && Counting()
      ensures Onward(old(Here()).(acct := FedWith(old(acct), made)), Here())
      ensures old(recovery.useSoftware) ==>
        software.accepted == old(software.accepted) && (old(pendingAus) == [] ==> pendingAus == [])
    {
      hide VideoDec2.VideoDec2.Valid, UnitsOk, PtsOk, CountersOk, StreamOk, FeedIs, PicturesOk, Onward;
      ghost var s := Here();
      var generation, i := filterGeneration, 0;
      NothingMore(s);
      assert made[..0] == [];
      while i < |made| && filterGeneration == generation
        invariant i <= |made|
        invariant Working() && Accounted(pendingAus) && Counting()
        invariant Onward(s.(acct := FedWith(s.acct, made[..i])), Here())
        invariant if s.recovery.useSoftware then recovery.useSoftware
                  else recovery.useSoftware ==> pendingAus == []
        invariant s.recovery.useSoftware ==>
          software.accepted == old(software.accepted) && (s.pending == [] ==> pendingAus == [])
      {
        ghost var s' := Here();
        var done := FeedUnit(made[i]);
        if s'.recovery.useSoftware {
          SoftwareStays(s'.(acct := FedWith(s'.acct, [made[i]])), Here());
        } else {
          FreshOrSame(s'.(acct := FedWith(s'.acct, [made[i]])), Here());
        }
        FedOneMore(s, made, i, s', Here());
        i := i + 1;
      }
      if filterGeneration != generation {
        OnwardAfresh(s.(acct := FedWith(s.acct, made[..i])), Here(), FedWith(s.acct, made));
      }
      assert made[..|made|] == made;
    }

    /** A packet's access units: what the filter makes of it after those before, or the packet itself. */
    method FeedHardware(packet: Packet) returns (ok: bool)
      requires Working() && Accounted(pendingAus) && Counting()
      modifies this, decoder, decoder.frameState, software
      ensures Working() && Accounted(pendingAus) && Counting()
      ensures
        var aus := MadeOf(old(feed), old(acct).packets, packet);
        Onward(old(Here()).(acct := FedBy(old(acct), packet, aus)), Here())
      ensures old(recovery.useSoftware) ==> software.accepted == old(software.accepted)
      ensures !ok ==> recovery.fatal
    {
      hide VideoDec2.VideoDec2.Valid, UnitsOk, PtsOk, CountersOk, StreamOk, FeedIs, LengthPrefixed.Decode, AnnexB.Join,
           PicturesOk, Onward, Datas, Joined;
      ghost var a, s := acct, Here();
      InsertPts(packet);
      if !recovery.useSoftware {
        PicturesStamped(decoded, decoder.all, decoder.out, recovery.picturesOut, a.times, a.handed, frameDuration,
                        packet);
      }
      if !recovery.useSoftware {
        FeedGoesOn(filter, vp9, feed, sent, a.packets, packet);
      }
      acct := acct.(packets := acct.packets + [packet]);
      match feed {
        case Direct(_) =>
          var au := packet.data;
          if !vp9 {
            var converted, out := LengthPrefixed.ToAnnexB(au);
            if converted {
              au := out;
            }
          }
          ghost var t := Here();
          ok := FeedUnit(au);
          if s.recovery.useSoftware {
            OnwardInSoftware(t.(acct := FedWith(t.acct, [au])), Here(),
                             FedBy(a, packet, MadeOf(s.feed, a.packets, packet)));
          }
          ok := ok || !recovery.fatal;
        case Filtered(filter) =>
          var made := filter(sent, packet.data);
          sent := sent + [packet.data];
          ghost var t := Here();
          FeedAll(made);
          if s.recovery.useSoftware {
            OnwardInSoftware(t.(acct := FedWith(t.acct, made)), Here(),
                             FedBy(a, packet, MadeOf(s.feed, a.packets, packet)));
          }
          ok := !recovery.fatal;
      }
    }

    /** Records a packet; nothing is recorded once a picture was taken, or after too many packets. */
    method BufferForReplay(packet: Packet, ghost taken: seq<Packet>)
      requires packet.data != [] && (recovery.useSoftware ==> recovery.picturesOut > 0)
      requires !recovery.useSoftware ==> Recorded(recovery, taken)
      modifies this`recovery
      ensures !recovery.useSoftware ==> Recorded(recovery, taken + [packet])
      ensures recovery == old(recovery).(replay := recovery.replay, replayBytes := recovery.replayBytes,
                                         replayOverflow := recovery.replayOverflow)
      ensures old(recovery).picturesOut > 0 || old(recovery).replayOverflow ==> recovery == old(recovery)
      ensures old(recovery).picturesOut == 0 && !old(recovery).replayOverflow ==>
        (recovery.replayOverflow <==>
           |old(recovery).replay| == 400 || TotalBytes(old(recovery).replay) + |packet.data| > 0x800_0000)
    {
      if recovery.picturesOut > 0 || recovery.replayOverflow {
        return;
      }
      if |recovery.replay| >= MAX_REPLAY_PACKETS || recovery.replayBytes + |packet.data| > MAX_REPLAY_BYTES {
        recovery := recovery.(replayOverflow := true, replay := [], replayBytes := 0);
        return;
      }
      TotalBytesAppend(recovery.replay, packet);
      recovery := recovery.(replay := recovery.replay + [packet],
                            replayBytes := recovery.replayBytes + |packet.data|);
    }

    /** The stream was refused with nothing shown: it starts again, cleaned the first time, then in
        software, which gets the whole record. */
    method RunRecovery() returns (ok: bool)
      requires Sound() && Counting() && recovery.pending && !recovery.useSoftware
      modifies this, decoder, decoder.frameState, software
      decreases 2 - recovery.stage, 1
      ensures Valid() && log.acknowledged == old(log.acknowledged)
      ensures recovery.stage > old(recovery.stage) && !recovery.pending
      ensures ok || (recovery.fatal && !recovery.useSoftware)
      ensures ok && !recovery.useSoftware ==>
        old(recovery).stage == 0 && !vp9 && recovery.stage == 1 && screening.cleanStream
        && recovery.replay == acct.packets == old(recovery).replay
      ensures recovery.useSoftware ==>
        && recovery.softwareQueue == old(recovery).replay && software.accepted == [] && pendingAus == []
        && log == SwitchLog(old(recovery), old(log)) && recovery.stage == (if vp9 then 1 else 2)
        && (log.exact <==> old(recovery).picturesOut == 0 && !old(recovery).replayOverflow)
      ensures old(recovery).stage == 1 || vp9 ==>
        recovery.stage == old(recovery).stage + 1 && (ok <==> recovery.useSoftware)
      ensures old(filterGeneration) <= filterGeneration
      ensures !recovery.useSoftware ==> HandedOn(old(acct), acct)
    {
      hide VideoDec2.VideoDec2.Valid, UnitsOk, StreamOk, FeedIs, PtsOk, FedOk, PicturesOk, Replayed, StageOk,
           FailuresOk, CountersOk, Working, Accounted;
      StageIsLeft(recovery, vp9, decoded != []);
      if recovery.stage == 0 && !vp9 {
        ok := StartCleaned();
        return;
      }
      ok := LeaveHardware();
    }

    /** No other way is left: software, or nothing. */
    method LeaveHardware() returns (ok: bool)
      requires Sound() && Counting() && recovery.pending && !recovery.useSoftware
      requires recovery.stage == 1 || vp9
      modifies this, decoder, decoder.frameState, software
      ensures Valid() && log.acknowledged == old(log.acknowledged)
      ensures ok == recovery.useSoftware && (!ok ==> recovery.fatal && acct == old(acct))
      ensures software.opens == old(software.opens) + [ok]
      ensures recovery.stage == old(recovery).stage + 1 && !recovery.pending
      ensures ok ==>
        && recovery.softwareQueue == old(recovery).replay && software.accepted == [] && pendingAus == []
        && log == SwitchLog(old(recovery), old(log))
      ensures filterGeneration == old(filterGeneration)
    {
      hide VideoDec2.VideoDec2.Valid, UnitsOk, StreamOk, FeedIs, PtsOk, FedOk, PicturesOk, CountersOk, Replayed,
           StageOk, FailuresOk, MaySwitchOrFail;
      StageIsLeft(recovery, vp9, decoded != []);
      UnitsCalled(hevc, vp9, recovery.midStreamResets > 0, true, false, recovery.stage, recovery.stage + 1, screening,
                  acct.units, pendingAus, pendingAus);
      StreamSame(hevc, sets, recovery.stage, recovery.stage + 1, screening, screening);
      LeavesHardware(recovery, vp9, decoded != [], log, software.accepted);
      recovery := recovery.(pending := false, stage := recovery.stage + 1);
      ok := SwitchOrFail();
    }

    /** The stream goes on in software, or not at all. */
    method SwitchOrFail() returns (ok: bool)
      requires Working() && Accounted(pendingAus) && FedOk(feed, acct) && !recovery.useSoftware
      requires MaySwitchOrFail(recovery, vp9, decoded != [], log) && (recovery.picturesOut == 0 ==> decoded == [])
      modifies this, decoder, decoder.frameState, software
      ensures Valid() && filterGeneration == old(filterGeneration) && software.opens == old(software.opens) + [ok]
      ensures if ok then recovery == Switched(old(recovery)) && software.accepted == [] && pendingAus == []
              else recovery == old(recovery).(fatal := true) && acct == old(acct)
      ensures log == if ok then SwitchLog(old(recovery), old(log)) else old(log)
    {
      hide VideoDec2.VideoDec2.Valid, UnitsOk, StreamOk, FeedIs, PtsOk, FedOk, PicturesOk, Replayed, StageOk,
           FailuresOk, Follows;
      ok := SwitchToSoftware();
      if !ok {
        recovery := recovery.(fatal := true);
        FollowsFatal(feed, acct, recovery, log.acknowledged);
      }
    }

    /** From here on the bitstream is cleaned, and its parameter sets are. */
    method CleanFromHere()
      requires Working() && !recovery.useSoftware && recovery.stage == 0 && !vp9
      requires Counting() && recovery.pending && !screening.waitKeyframe && recovery.midStreamResets == 0
      modifies this, decoder, decoder.frameState
      ensures Working() && Accounted(pendingAus) && Counting()
      ensures recovery == old(recovery).(pending := false, stage := 1, errorsInRow := 0, failuresBeforeFirst := 0)
      ensures log == old(log) && pendingAus == [] && screening.cleanStream
      ensures screening.parameterSets == Clean(hevc, old(screening).parameterSets)
      ensures screening.prepend == (screening.parameterSets != [])
      ensures !screening.seenIrap && screening.cleanNoSlice == screening.cleanWaitIrap == 0
      ensures filterGeneration == old(filterGeneration) + 1 && IsFresh(acct)
    {
      hide VideoDec2.VideoDec2.Valid, UnitsOk, Clean, HasStart, HasSlice, AnnexB.Split, PtsOk, PicturesOk, StreamOk,
           FeedIs;
      ghost var c := screening;
      StreamSame(hevc, sets, 0, 1, c, c);
      recovery := recovery.(pending := false, stage := 1);
      ResetDecoderState();
      recovery := recovery.(failuresBeforeFirst := 0);
      StreamCleaned(hevc, sets, c, screening);
      var cleaned, irap, hasSlice := CleanAccessUnit(hevc, screening.parameterSets);
      screening := screening.(cleanStream := true, seenIrap := false, cleanNoSlice := 0, cleanWaitIrap := 0,
                              parameterSets := cleaned, prepend := cleaned != []);
      Begins();
    }

    /** Once more in hardware, from the recorded start; refused again, in software. */
    method StartCleaned() returns (ok: bool)
      requires Sound() && Counting() && recovery.pending && recovery.stage == 0 && !vp9
      modifies this, decoder, decoder.frameState, software
      decreases 2 - recovery.stage, 0
      ensures Valid() && log.acknowledged == old(log.acknowledged)
      ensures recovery.stage > old(recovery.stage) && !recovery.pending
      ensures ok || (recovery.fatal && !recovery.useSoftware)
      ensures ok && !recovery.useSoftware ==>
        recovery.stage == 1 && screening.cleanStream && recovery.replay == acct.packets == old(recovery).replay
      ensures recovery.useSoftware ==>
        && recovery.softwareQueue == old(recovery).replay && software.accepted == [] && pendingAus == []
        && log == SwitchLog(old(recovery), old(log)) && recovery.stage == 2
      ensures old(filterGeneration) <= filterGeneration
      ensures !recovery.useSoftware ==> acct.handed == []
    {
      hide VideoDec2.VideoDec2.Valid, UnitsOk, StreamOk, FeedIs, PtsOk, PicturesOk, Follows, FedOk, Replayed, StageOk,
           FailuresOk, CountersOk, Accounted;
      FeedFromStart();
      ok := true;
      if recovery.pending {
        ok := RunRecovery();
      } else {
        ReplayFollows(feed, acct, recovery, log, software.accepted);
      }
    }

    /** The record once more, cleaned. */
    method FeedFromStart()
      requires Sound() && Counting() && recovery.pending && recovery.stage == 0 && !vp9
      modifies this, decoder, decoder.frameState, software
      ensures Sound() && Counting() && !recovery.useSoftware && recovery.stage == 1 && screening.cleanStream
      ensures KeepsRecord(old(recovery), recovery) && log == old(log) && acct.handed == []
      ensures !recovery.pending ==> acct.packets == recovery.replay
      ensures old(filterGeneration) <= filterGeneration
    {
      hide VideoDec2.VideoDec2.Valid, UnitsOk, StreamOk, FeedIs, PtsOk, PicturesOk, Follows, FedOk, Replayed, StageOk,
           FailuresOk, CountersOk, KeepsReplay, Clean;
      ghost var r, l, accepted := recovery, log, software.accepted;
      PendingIsHardware(r, vp9);
      RecordIsEarly(r, l, accepted);
      UnitsNotWaiting(hevc, vp9, recovery.pending, recovery.stage, screening, acct.units, pendingAus, pendingAus);
      CleanFromHere();
      ghost var r' := recovery;
      FeedReplay(recovery.replay);
      RecordKept(r, r', recovery, l, log, accepted, software.accepted);
      CountersParts(recovery, vp9, decoded != []);
    }

    /** The recorded packets again, from a copy, until one of them calls for recovery. */
    method FeedReplay(replay: seq<Packet>)
      requires Working() && Accounted(pendingAus) && Counting() && !recovery.pending && !recovery.useSoftware
      requires IsFresh(acct) && screening.cleanStream && (replay != [] ==> recovery.picturesOut == 0)
      modifies this, decoder, decoder.frameState, software
      ensures Working() && Accounted(pendingAus) && Counting() && screening.cleanStream
      ensures KeepsReplay(old(recovery), recovery, old(log), log) && !recovery.useSoftware
      ensures FedOk(feed, acct) && acct.handed == [] && acct.packets <= replay
      ensures !recovery.pending ==> acct.packets == replay
      ensures old(filterGeneration) <= filterGeneration
    {
      hide VideoDec2.VideoDec2.Valid, UnitsOk, CountersOk, StreamOk, FeedIs, PtsOk, Clean, PicturesOk, FedOk,
           KeepsReplay, Accounted;
      FreshIsFed(feed, acct);
      assert replay[..|replay|] == replay;
      ghost var s := Here();
      KeepsErrors(recovery, recovery.errorsInRow, log);
      var i := 0;
      while i < |replay|
        invariant i <= |replay| && Working() && Accounted(pendingAus) && Counting()
        invariant KeepsReplay(s.recovery, recovery, s.log, log) && !recovery.pending && !recovery.useSoftware
        invariant screening.cleanStream && s.generation == filterGeneration
        invariant recovery.picturesOut == s.recovery.picturesOut && FedOk(feed, acct)
        invariant acct.handed == [] && acct.packets == replay[..i]
      {
        ghost var r, l := recovery, log;
        FeedAgain(replay[i]);
        KeepsOn(s.recovery, r, recovery, s.log, l, log);
        SamePictures(s.recovery, recovery, s.log, log);
        i := i + 1;
        if recovery.pending {
          return;
        }
      }
    }

    /** One of them: with no picture shown the decoder is not started afresh meanwhile. */
    method FeedAgain(packet: Packet)
      requires Working() && Accounted(pendingAus) && Counting() && !recovery.pending && !recovery.useSoftware
      requires recovery.picturesOut == 0 && FedOk(feed, acct)
      modifies this, decoder, decoder.frameState, software
      ensures Working() && Accounted(pendingAus) && Counting() && SameStream(old(screening), screening)
      ensures KeepsReplay(old(recovery), recovery, old(log), log) && !recovery.useSoftware
      ensures filterGeneration == old(filterGeneration) && FedOk(feed, acct)
      ensures acct.packets == old(acct).packets + [packet] && acct.handed == old(acct).handed
    {
      hide VideoDec2.VideoDec2.Valid, UnitsOk, CountersOk, StreamOk, FeedIs, PtsOk, PicturesOk, FedOk, AsAnnexB,
           FedStamps, Onward, KeepsReplay, Accounted;
      ghost var s := Here();
      var fed := FeedHardware(packet);
      s := s.(acct := FedBy(s.acct, packet, MadeOf(s.feed, s.acct.packets, packet)));
      StaysOnward(s, Here());
      OnwardParts(s, Here());
      FedPacketOnward(s.feed, old(acct), packet, s, Here());
    }

    // ---- the software decoder -------------------------------------------------------

    /** Hands the record to the software decoder, until it is empty or a packet is refused. */
    method SendReplay() returns (ok: bool)
      requires Valid() && recovery.useSoftware
      modifies this`recovery, software
      ensures Valid() && recovery == old(recovery).(softwareQueue := recovery.softwareQueue)
      ensures ok <==> recovery.softwareQueue == []
      ensures software.refusals == old(software.refusals) + if ok then 0 else 1
    {
      hide VideoDec2.VideoDec2.Valid, UnitsOk, Clean, Taken, StreamOk, FeedIs, PtsOk, PicturesOk, Follows, FedOk;
      while recovery.softwareQueue != []
        invariant Valid() && recovery == old(recovery).(softwareQueue := recovery.softwareQueue)
        invariant software.refusals == old(software.refusals)
        decreases |recovery.softwareQueue|
      {
        var p := recovery.softwareQueue[0];
        assert recovery.softwareQueue == [p] + recovery.softwareQueue[1..];
        ghost var before := software.accepted;
        var accepted := software.AddData(p);
        assert before + [] == before;
        if !accepted {
          return false;
        }
        assert (before + [p]) + recovery.softwareQueue[1..] == before + recovery.softwareQueue;
        recovery := recovery.(softwareQueue := recovery.softwareQueue[1..]);
      }
      return true;
    }

    /** Software mode: the replay first, then the new packets. One without data is a packet too many. */
    method AddToSoftware(packet: Packet) returns (ok: bool)
      requires Valid() && recovery.useSoftware
      modifies this`recovery, this`log, software
      ensures Valid() && recovery == old(recovery).(softwareQueue := recovery.softwareQueue)
      ensures log == old(log).(acknowledged := old(log.acknowledged) + if ok then [packet] else [])
      ensures ok ==> recovery.softwareQueue == []
      ensures software.refusals == old(software.refusals) + if ok then 0 else 1
      ensures ok && log.exact && packet.data == [] ==>
        software.accepted + recovery.softwareQueue != NonEmpty(log.acknowledged)
    {
      hide VideoDec2.VideoDec2.Valid, UnitsOk, Clean, Replayed, StreamOk, FeedIs, PtsOk, PicturesOk, Follows, FedOk,
           NonEmpty;
      assert log.acknowledged + [] == log.acknowledged;
      ok := SendReplay();
      if ok {
        ghost var before := software.accepted;
        ok := software.AddData(packet);
        assert before + [] == before;
        if ok {
          SoftwareTakes(recovery, log, before, packet);
          SwitchedBefore(recovery, log, before);
          log := log.(acknowledged := log.acknowledged + [packet]);
          assert packet == log.acknowledged[log.switchedAt..][|log.acknowledged| - 1 - log.switchedAt];
          if log.exact && packet.data == [] {
            EmptyPacketBreaks(recovery, log, software.accepted, packet);
          }
        }
      }
    }

    // ---- requests -----------------------------------------------------------------

    /** A packet that is taken: kept for a replay, and fed. If that calls for recovery, the replay
        includes it. */
    method TakePacket(packet: Packet) returns (ok: bool)
      requires Working() && Accounted(pendingAus) && Counting() && Replayed(recovery, log, software.accepted)
      requires !recovery.useSoftware ==> Following()
      requires packet.data != [] && (recovery.useSoftware ==> recovery.picturesOut > 0 && !log.exact)
      modifies this, decoder, decoder.frameState, software
      decreases 2 - recovery.stage, 3
      ensures Valid() && Gave(old(Here()), Here(), packet, ok)
      ensures !ok ==> recovery.fatal
      ensures old(recovery).useSoftware ==> recovery.useSoftware
    {
      hide VideoDec2.VideoDec2.Valid, UnitsOk, Clean, Taken, StreamOk, FeedIs, PtsOk, TotalBytes, PicturesOk, Follows,
           AsAnnexB, Replayed, Onward, Gave, FedBy, CountersOk;
      ghost var s := Here();
      Record(packet);
      ghost var t, accepted := Here(), software.accepted;
      var fed := FeedHardware(packet);
      t := t.(acct := FedBy(s.acct, packet, MadeOf(s.feed, s.acct.packets, packet)));
      OnwardParts(t, Here());
      KeptReplay(t.recovery, recovery, t.log, log, accepted, software.accepted);
      if !recovery.useSoftware {
        FollowsPacket(s.acct, s.recovery, s.log.acknowledged, packet, t, Here());
      }
      ghost var s' := Here();
      ok := Conclude(packet, fed, s.log.acknowledged);
      GavePacket(s, packet, t, s', Here(), ok);
    }

    /** A packet counts as taken, and is kept for a replay. */
    method Record(packet: Packet)
      requires Counting() && Replayed(recovery, log, software.accepted)
      requires packet.data != [] && (recovery.useSoftware ==> recovery.picturesOut > 0 && !log.exact)
      modifies this`recovery, this`log
      ensures Counting() && Replayed(recovery, log, software.accepted)
      ensures log == old(log).(acknowledged := old(log).acknowledged + [packet])
      ensures recovery == old(recovery).(replay := recovery.replay, replayBytes := recovery.replayBytes,
                                         replayOverflow := recovery.replayOverflow)
      ensures old(recovery).replayOverflow ==> recovery.replayOverflow
    {
      hide Taken, TotalBytes;
      TakesOne(recovery, log, packet);
      BufferForReplay(packet, Taken(false, log));
      log := log.(acknowledged := log.acknowledged + [packet]);
    }

    /** What feeding it set off. */
    method Conclude(ghost packet: Packet, fed: bool, ghost before: seq<Packet>) returns (ok: bool)
      requires Working() && Accounted(pendingAus) && Counting() && Replayed(recovery, log, software.accepted)
      requires !recovery.useSoftware ==> Following()
      requires log.acknowledged == before + [packet] && (recovery.useSoftware ==> !log.exact)
      requires !fed ==> recovery.fatal
      modifies this, decoder, decoder.frameState, software
      decreases 2 - recovery.stage, 2
      ensures Valid() && log.acknowledged == before + if ok then [packet] else []
      ensures !ok ==> recovery.fatal
      ensures old(recovery).useSoftware ==> recovery.useSoftware
      ensures old(filterGeneration) <= filterGeneration
      ensures if old(recovery).pending then recovery.stage > old(recovery).stage
              else recovery == old(recovery) && acct == old(acct) && filterGeneration == old(filterGeneration)
      ensures !recovery.useSoftware ==> HandedOn(old(acct), acct)
    {
      hide VideoDec2.VideoDec2.Valid, UnitsOk, Clean, StreamOk, FeedIs, PtsOk, StageOk, FailuresOk, Replayed,
           PicturesOk, FedOk, NonEmpty, IsSuffix;
      ok := fed;
      if recovery.pending {
        PendingIsHardware(recovery, vp9);
        ok := RunRecovery();
        ok := ok || !recovery.fatal;
      }
      if !ok {
        Retracts(recovery, log, software.accepted, before);
        assert before + [] == before;
        log := log.(acknowledged := before,
                    switchedAt := if log.switchedAt <= |before| then log.switchedAt else |before|);
      }
    }

    /** What a packet has to wait for: two pictures are queued, no frame is free, or none was for a unit that waits. */
    ghost predicate Held()
      reads this, decoder
    {
      |decoded| >= 2 || NoneFree(decoder.m) || (pendingAus != [] && decoder.stalled)
    }

    /** Decodes failed and nothing was ever shown: no picture will come that could be given back. */
    ghost predicate Hopeless()
      reads this
    {
      recovery.picturesOut == 0 && decoded == [] && recovery.failuresBeforeFirst > 0
    }

    /** A packet is taken now (true), or offered again later. */
    method AddData(packet: Packet) returns (ok: bool)
      requires Valid()
      modifies this, decoder, decoder.frameState, software
      decreases 2 - recovery.stage, 4
      ensures Valid() && log.acknowledged == old(log.acknowledged) + if ok then [packet] else []
      ensures !old(recovery).useSoftware && old(recovery).fatal ==> !ok && recovery == old(recovery)
      ensures !old(recovery).useSoftware && !old(recovery).fatal && packet.data == [] ==>
        ok && recovery == old(recovery) && acct == old(acct)
      ensures !old(recovery).useSoftware && packet.data != [] && |old(decoded)| >= 2 ==>
        !ok && recovery == old(recovery) && acct == old(acct)
      ensures !ok && !recovery.useSoftware && !recovery.fatal ==> Held() && !Hopeless()
      ensures ok && recovery.useSoftware && old(recovery).useSoftware ==> recovery.softwareQueue == []
      ensures old(recovery).useSoftware ==> software.refusals == old(software.refusals) + if ok then 0 else 1
      ensures ok && old(recovery).useSoftware && log.exact && packet.data == [] ==>
        software.accepted + recovery.softwareQueue != NonEmpty(log.acknowledged)
      ensures !recovery.useSoftware && recovery.stage == old(recovery).stage
              && filterGeneration == old(filterGeneration) ==>
        if ok && packet.data != [] then FedPacket(old(feed), old(acct), packet, acct)
        else recovery.fatal || SameFeed(old(acct), acct)
      ensures recovery.stage >= old(recovery).stage && filterGeneration >= old(filterGeneration)
      ensures !recovery.useSoftware ==> HandedOn(old(acct), acct)
      ensures old(recovery).useSoftware ==> recovery.useSoftware
    {
      hide VideoDec2.VideoDec2.Valid, UnitsOk, Clean, Taken, StreamOk, FeedIs, PtsOk, TotalBytes, PicturesOk, Follows,
           FedOk, NonEmpty, FedPacket, FedStamps;
      if recovery.useSoftware {
        ok := AddToSoftware(packet);
        return;
      }
      if recovery.fatal {
        return false;
      }
      if packet.data == [] {
        TakesNothing(recovery, log, software.accepted, packet);
        FollowsNothing(feed, acct, recovery, log.acknowledged, packet);
        log := log.(acknowledged := log.acknowledged + [packet]);
        return true;
      }
      if |decoded| >= 2 {
        return false;
      }
      ok := AddToHardware(packet);
    }

    /** Hardware mode, with data: once the waiting units are through and a frame is free. */
    method AddToHardware(packet: Packet) returns (ok: bool)
      requires Valid() && !recovery.useSoftware && !recovery.fatal && packet.data != []
      modifies this, decoder, decoder.frameState, software
      decreases 2 - recovery.stage, 3, 1
      ensures Valid() && Gave(old(Here()), Here(), packet, ok)
      ensures !ok && !recovery.useSoftware && !recovery.fatal ==> Held() && !Hopeless()
    {
      hide VideoDec2.VideoDec2.Valid, UnitsOk, StreamOk, FeedIs, PtsOk, PicturesOk, Follows, FedOk, Replayed, StageOk,
           FailuresOk, CountersOk, Onward, Gave;
      ghost var s, accepted := Here(), software.accepted;
      CountersNow(recovery, vp9, decoded != []);
      ok := RetryPending();
      ghost var s' := Here();
      KeptNow(s, accepted);
      GaveNothing(s, s', packet);
      // the frames of a closed decoder all count as free
      if ok && !recovery.useSoftware {
        ok := decoder.HasFreeFrame();
      }
      if ok {
        ok := TakePacket(packet);
        GaveAfter(s, s', Here(), packet, ok);
        return;
      }
      if recovery.picturesOut == 0 && decoded == [] && recovery.failuresBeforeFirst > 0 {
        HardwareStays(s, Here());
        ok := RecoverStalled(packet);
        GaveAfter(s, s', Here(), packet, ok);
      }
    }

    /** No picture ever came and no frame is free: the hardware will not go on with this stream. */
    method RecoverStalled(packet: Packet) returns (ok: bool)
      requires Sound() && Counting() && !recovery.useSoftware && Hopeless()
      requires packet.data != []
      modifies this, decoder, decoder.frameState, software
      decreases 2 - recovery.stage, 3, 0
      ensures Valid() && Gave(old(Here()), Here(), packet, ok)
      ensures !ok && !recovery.useSoftware && !recovery.fatal ==> Held() && !Hopeless()
    {
      hide VideoDec2.VideoDec2.Valid, UnitsOk, StreamOk, FeedIs, PtsOk, PicturesOk, Follows, FedOk, Replayed, StageOk,
           FailuresOk, CountersOk, FedPacket, SameFeed;
      ghost var s := Here();
      CallsForRecovery(recovery, vp9, log, software.accepted);
      UnitsCalled(hevc, vp9, recovery.midStreamResets > 0, recovery.pending, true, recovery.stage, recovery.stage,
                  screening, acct.units, pendingAus, pendingAus);
      recovery := recovery.(pending := true);
      CountersParts(recovery, vp9, false);
      ok := RunRecovery();
      ghost var s' := Here();
      if ok {
        ok := AddData(packet);
      }
      assert Gave(s, Here(), packet, ok);
    }

    /** Between the waiting units and the packet. */
    lemma KeptNow(s: State, accepted: seq<Packet>)
      requires Working() && Accounted(pendingAus) && Counting() && Onward(s, Here())
      requires Replayed(s.recovery, s.log, accepted) && !s.recovery.useSoftware
      requires Follows(s.feed, s.acct, s.recovery, s.log.acknowledged)
      ensures Sound() && (!recovery.useSoftware ==> Following())
      ensures recovery.useSoftware ==> recovery.picturesOut > 0 && !log.exact
      ensures recovery.stage == s.recovery.stage
    {
      hide VideoDec2.VideoDec2.Valid, UnitsOk, StreamOk, FeedIs, PtsOk, PicturesOk, Follows, FedOk, Replayed, StageOk,
           FailuresOk, CountersOk, Onward, KeepsReplay, SameFeed;
      OnwardParts(s, Here());
      CountersParts(recovery, vp9, decoded != []);
      KeptReplay(s.recovery, recovery, s.log, log, accepted, software.accepted);
      if !recovery.useSoftware {
        FollowsOnward(s, Here());
        FollowsIsFed(feed, acct, recovery, log.acknowledged);
      }
    }

    // ---- pictures -----------------------------------------------------------------

    /** A picture the decoder held back goes to the queue, with the next timestamp. */
    method Drain() returns (picture: Option<nat>)
      requires Working() && Accounted(pendingAus) && decoded == [] && !recovery.useSoftware
      modifies this`decoded, this`pts, this`lastPts, this`acct, decoder, decoder.frameState
      ensures Working() && Accounted(pendingAus)
      ensures acct == old(acct).(times := Pictured(old(acct).times, picture.Some?))
      ensures VideoDec2.Flushed(old(decoder.m), old(decoder.calls), decoder.calls, picture)
      ensures picture.None? ==> decoded == [] && lastPts == old(lastPts)
      ensures picture.Some? ==>
        && |decoded| == 1 && decoded[0].pts == lastPts
        && decoded[0].buffer < |decoder.all| && decoder.all[decoded[0].buffer] == picture.value
      ensures picture.Some? ==> lastPts == if old(pts) != [] then old(pts)[0] else old(lastPts) + frameDuration
    {
      hide VideoDec2.VideoDec2.Valid, UnitsOk, StreamOk, FeedIs, PtsOk, PicturesOk;
      ghost var all, out := decoder.all, decoder.out;
      picture := decoder.Flush();
      PicturesMoved(decoded, all, out, decoder.all, decoder.out, recovery.picturesOut, acct.times, acct.handed,
                    frameDuration);
      if picture.Some? {
        Keep(picture.value);
      }
    }

    /** The next picture in the queue, or when draining one the decoder held back. */
    method GetPicture(drain: bool) returns (answer: Answer)
      requires Valid()
      modifies this`decoded, this`pts, this`lastPts, this`acct, this`recovery, decoder, decoder.frameState
      ensures Valid()
      ensures answer == FromSoftware <==> recovery.useSoftware
      ensures answer == Broken <==> !recovery.useSoftware && recovery.fatal
      ensures answer == NeedsData ==> old(decoded) == [] && !drain
      ensures answer == EndOfStream ==>
        old(decoded) == [] && drain && VideoDec2.Flushed(old(decoder.m), old(decoder.calls), decoder.calls, None)
      ensures !answer.Picture? ==> recovery == old(recovery) && acct == old(acct) && decoded == old(decoded)
      ensures answer.Picture? ==>
        && recovery == Shown(old(recovery)) && recovery.picturesOut == old(recovery).picturesOut + 1
        && acct == old(acct).(times := Pictured(old(acct).times, old(decoded) == []),
                              handed := old(acct).handed + [answer.picture.pts])
        && (if old(decoded) != [] then [answer.picture] + decoded == old(decoded)
            else drain && decoded == [] && answer.picture.pts == lastPts)
        && decoder.ShowsFrame(answer.picture.buffer) && answer.picture.buffer in decoder.out
    {
      hide VideoDec2.VideoDec2.Valid, UnitsOk, StreamOk, FeedIs, PtsOk, Replayed, StageOk, FailuresOk, PicturesOk,
           Follows, FedOk;
      if recovery.useSoftware {
        return FromSoftware;
      }
      if recovery.fatal {
        return Broken;
      }
      answer := NextPicture(drain);
    }

    /** ... from the hardware. */
    method NextPicture(drain: bool) returns (answer: Answer)
      requires Valid() && !recovery.useSoftware && !recovery.fatal
      modifies this`decoded, this`pts, this`lastPts, this`acct, this`recovery, decoder, decoder.frameState
      ensures Valid() && (answer.Picture? || answer.NeedsData? || answer.EndOfStream?)
      ensures answer.NeedsData? ==> old(decoded) == [] && !drain
      ensures answer.EndOfStream? ==>
        old(decoded) == [] && drain && VideoDec2.Flushed(old(decoder.m), old(decoder.calls), decoder.calls, None)
      ensures !answer.Picture? ==> recovery == old(recovery) && acct == old(acct) && decoded == old(decoded)
      ensures answer.Picture? ==>
        && recovery == Shown(old(recovery)) && recovery.picturesOut == old(recovery).picturesOut + 1
        && acct == old(acct).(times := Pictured(old(acct).times, old(decoded) == []),
                              handed := old(acct).handed + [answer.picture.pts])
        && (if old(decoded) != [] then [answer.picture] + decoded == old(decoded)
            else drain && decoded == [] && answer.picture.pts == lastPts)
        && decoder.ShowsFrame(answer.picture.buffer) && answer.picture.buffer in decoder.out
    {
      hide VideoDec2.VideoDec2.Valid, UnitsOk, StreamOk, FeedIs, PtsOk, Replayed, StageOk, FailuresOk, PicturesOk,
           Follows, FedOk;
      ghost var s := Here();
      ShownOk(recovery, vp9, decoded != [], |decoded| > 1, log, software.accepted);
      if decoded == [] && drain {
        var picture := Drain();
        if picture.None? {
          return EndOfStream;
        }
      }
      if decoded == [] {
        return NeedsData;
      }
      TakesOrNot(s.acct.times, old(decoded) == []);
      var d := TakeFirst();
      FollowsShown(feed, s.acct, acct, s.recovery, log.acknowledged);
      answer := Picture(d);
    }

    /** The first picture of the queue goes to the player. With it the hardware has taken the stream. */
    method TakeFirst() returns (d: Decoded)
      requires Working() && !recovery.useSoftware && decoded != []
      requires recovery.picturesOut > 0 ==> recovery.replay == [] && recovery.replayBytes == 0
      modifies this`decoded, this`acct, this`recovery, decoder`out
      ensures Working() && [d] + decoded == old(decoded) && recovery == Shown(old(recovery))
      ensures acct == old(acct).(handed := old(acct).handed + [d.pts])
      ensures decoder.ShowsFrame(d.buffer) && d.buffer in decoder.out
    {
      hide VideoDec2.VideoDec2.Valid, PtsOk, PicturesOk, StreamOk, FeedIs;
      PicturesHanded(decoded, decoder.all, decoder.out, recovery.picturesOut, acct.times, acct.handed, frameDuration);
      d := decoded[0];
      decoder.Shows(d.buffer);
      decoder.HandOut(d.buffer);
      decoded := decoded[1..];
      var r := if recovery.picturesOut == 0 then recovery.(replay := [], replayBytes := 0) else recovery;
      recovery := r.(picturesOut := r.picturesOut + 1);
      acct := acct.(handed := acct.handed + [d.pts]);
    }

    /** A seek: what was taken before it is not wanted any more. */
    method Reset()
      requires Valid()
      modifies this, decoder, decoder.frameState, software
      ensures Valid() && log == Log([], 0, true) && recovery == Sought(old(recovery))
      ensures !recovery.useSoftware ==>
        recovery == old(recovery).(replay := [], replayBytes := 0, replayOverflow := false, failuresBeforeFirst := 0,
                                   errorsInRow := 0, midStreamResets := 0)
      ensures !recovery.useSoftware ==>
        decoded == [] && pendingAus == [] && pts == [] && recovery.replay == [] && acct == FreshAccount(lastPts)
      ensures recovery.useSoftware ==> software.accepted == recovery.softwareQueue == []
      ensures !recovery.useSoftware ==>
        screening == old(screening).(skipRasl := hevc, prepend := screening.parameterSets != [], seenIrap := false,
                                     cleanNoSlice := 0, cleanWaitIrap := 0, waitKeyframe := false)
    {
      hide VideoDec2.VideoDec2.Valid, UnitsOk, Clean, PtsOk, PicturesOk, Follows, FedOk, StreamOk, FeedIs, Replayed,
           StageOk, FailuresOk;
      SeekOk(recovery, vp9, decoded != []);
      log := Log([], 0, true);
      if recovery.useSoftware {
        recovery := recovery.(softwareQueue := []);
        software.Reset();
      } else {
        SeekInHardware();
      }
    }

    /** ... in hardware mode: a fresh decoder, and nothing held against the stream. */
    method SeekInHardware()
      requires Working() && !recovery.useSoftware && log == Log([], 0, true) && SoughtOk(Sought(recovery), vp9, false)
      modifies this, decoder, decoder.frameState
      ensures Valid() && log == old(log) && recovery == Sought(old(recovery))
      ensures decoded == [] && pendingAus == [] && pts == [] && acct == FreshAccount(lastPts)
      ensures screening == old(screening).(skipRasl := hevc, prepend := screening.parameterSets != [], seenIrap := false,
                                           cleanNoSlice := 0, cleanWaitIrap := 0, waitKeyframe := false)
    {
      hide VideoDec2.VideoDec2.Valid, UnitsOk, Clean, PtsOk, PicturesOk, Follows, FedOk, StreamOk, FeedIs, Replayed,
           StageOk, FailuresOk, FedFromStart;
      ResetDecoderState();
      ForgetFailures();
      FreshFollows(feed, acct, recovery, []);
      FollowsIsFed(feed, acct, recovery, []);
    }

    /** A new stream, as far as recovery and the checks are concerned. */
    method ForgetFailures()
      requires Working() && !recovery.useSoftware && acct.units == NoUnits() && pendingAus == []
      requires decoder.consumed == [] && screening.skipRasl == hevc
      requires screening.prepend == (screening.parameterSets != [])
      modifies this`recovery, this`screening
      ensures Working() && Accounted([])
      ensures recovery == old(recovery).(replay := [], replayBytes := 0, replayOverflow := false,
                                         failuresBeforeFirst := 0, midStreamResets := 0)
      ensures screening == old(screening).(seenIrap := false, cleanNoSlice := 0, cleanWaitIrap := 0,
                                           waitKeyframe := false)
    {
      hide VideoDec2.VideoDec2.Valid, UnitsOk, PtsOk, PicturesOk, StreamOk, FeedIs;
      ghost var c := screening;
      recovery := recovery.(replay := [], replayBytes := 0, replayOverflow := false,
                            failuresBeforeFirst := 0, midStreamResets := 0);
      screening := screening.(seenIrap := false, cleanNoSlice := 0, cleanWaitIrap := 0, waitKeyframe := false);
      StreamSame(hevc, sets, recovery.stage, recovery.stage, c, screening);
      Begins();
    }

    /** Other threads give back pictures handed out to them. */
    method OtherThreads()
      requires Valid()
      modifies decoder, decoder.frameState
      ensures Valid()
    {
      hide VideoDec2.VideoDec2.Valid, UnitsOk, PtsOk, PicturesOk, Follows, FedOk, StreamOk, FeedIs, Replayed;
      ghost var all, out := decoder.all, decoder.out;
      decoder.OtherThreads();
      if recovery.useSoftware {
        if recovery.picturesOut == 0 {
          AllBackStays(all, out, decoder.all, decoder.out);
        }
      } else {
        PicturesMoved(decoded, all, out, decoder.all, decoder.out, recovery.picturesOut, acct.times, acct.handed,
                      frameDuration);
      }
    }
  }

  // ---- whole runs -------------------------------------------------------------------

  datatype Request = Give(packet: Packet) | Take(drain: bool) | Seek | Others

  /** What holds after any run: `acknowledged` are the packets taken since the latest seek, `answered` the
      timestamps of all pictures given out. */
  ghost predicate RunOk(c: HwCodec, acknowledged: seq<Packet>, answered: seq<real>)
    reads c, c.decoder, c.decoder.frameState, c.software
  {
    && OwnershipOk(c) && TimestampsOk(c)
    && (!c.recovery.useSoftware ==>
          HardwareOk(c, acknowledged) && NothingMissing(c) && PicturesSeen(c, answered))
    && (c.recovery.useSoftware && c.log.exact ==> SoftwareOk(c, acknowledged))
  }

  /** No frame has two owners. A closed decoder owns none: that fits the pictures exactly when none is live,
      as when it was closed before the first picture. */
  ghost predicate OwnershipOk(c: HwCodec)
    reads c, c.decoder
  {
    var m := c.decoder.m;
    if c.recovery.useSoftware then
      IsClosed(m) && (Owned(m) <==> NoneLive(m)) && (c.recovery.picturesOut == 0 ==> NoneLive(m))
    else m.stage == Idle && Owned(m)
  }

  /** Every queued picture has a frame of its own. The pictures given out since the decoder last started afresh,
      then those queued, have the timestamps that the clock gave to pictures. */
  ghost predicate PicturesSeen(c: HwCodec, answered: seq<real>)
    reads c, c.decoder
  {
    && (forall i :: 0 <= i < |c.decoded| ==> c.decoder.ShowsFrame(c.decoded[i].buffer))
    && (forall i, j :: 0 <= i < j < |c.decoded| ==> c.decoded[i].buffer != c.decoded[j].buffer)
    && IsSuffix(c.acct.handed, answered)
    && c.acct.handed + PtsOf(c.decoded) == PicturePts(c.acct.times, c.frameDuration)
  }

  /** The clock's state is what feeding and taking timestamps leaves. */
  ghost predicate TimestampsOk(c: HwCodec)
    reads c
  {
    && Timestamps.Sorted(c.pts) && |c.pts| <= Timestamps.MAX_PENDING
    && c.pts == Timestamps.Run(c.acct.times.events, c.acct.times.first, c.frameDuration).pending
  }

  /** What was fed are the latest packets taken - all of them until the decoder is started afresh, and before the
      first picture - and so are the timestamps. Every unit fed met the fate that the checks give it in stream order,
      or waits, or is unseen because recovery was called for; the hardware got those consumed. */
  ghost predicate HardwareOk(c: HwCodec, acknowledged: seq<Packet>)
    reads c, c.decoder
  {
    var (u, resync) := (c.acct.units, c.recovery.midStreamResets > 0);
    && (c.feed == FirstFeed(c.filter, c.vp9) || c.feed == Direct(c.vp9))
    && u.fed == FedUnits(c.feed, c.acct.packets) && FedStamps(c.acct.times.events) == Stamps(c.acct.packets)
    && TimesFed(FedStamps(c.acct.times.events), c.acct.packets)
    && (!c.recovery.fatal ==>
          && IsSuffix(c.acct.packets, NonEmpty(acknowledged))
          && (FedFromStart(c.recovery) ==> c.acct.packets == NonEmpty(acknowledged)))
    && c.decoder.consumed == Eaten(u.fates) && Ordered(c.hevc, resync, c.screening, u, c.pendingAus)
    && (SomeUnseen(u.fates) ==> c.recovery.pending || !StageLeft(c.recovery.stage, c.vp9))
    && SetsFrom(c.hevc, c.sets, c.screening) && (c.screening.cleanStream ==> c.recovery.stage > 0)
    && (resync ==> ResumesAtKey(c.hevc, u, c.decoder.consumed))
  }

  /** With recovery not called for the hardware got the stream as it should be since the decoder started afresh: all
      units but those before the first keyframe of a cleaned or resynchronised stream, leading pictures at its start
      and, when it is cleaned, units without a slice; the parameter sets in front; in order, up to those that wait.
      Only units of an unfit size are left out. */
  ghost predicate NothingMissing(c: HwCodec)
    reads c, c.decoder
  {
    !c.recovery.pending && (c.recovery.stage == 0 || (c.recovery.stage == 1 && !c.vp9)) ==>
      var (u, clean, resync) := (c.acct.units, c.screening.cleanStream, c.recovery.midStreamResets > 0);
      var sets := if clean then Clean(c.hevc, c.sets) else c.sets;
      && StreamEaten(c.hevc, sets, clean, resync, u, c.pendingAus)
      && c.decoder.consumed == Fitting(Stream(c.hevc, sets, clean, resync, u.fed[..|u.fates|]))
  }

  /** After an exact switch the software decoder gets what was taken, once each and in order - unless a packet
      without data came after it. */
  ghost predicate SoftwareOk(c: HwCodec, acknowledged: seq<Packet>)
    reads c, c.software
  {
    && c.log.switchedAt <= |acknowledged|
    && (c.software.accepted + c.recovery.softwareQueue == NonEmpty(acknowledged)
        <==> HaveData(acknowledged[c.log.switchedAt..]))
  }

  /** Every run from open on, whatever is asked, whatever the hardware and the other threads do. */
  method EveryRun(requests: seq<Request>, hevc: bool, vp9: bool, filter: Option<Filter>, sets: Bytes,
                  frameDuration: real)
    returns (c: HwCodec, ghost acknowledged: seq<Packet>, ghost answered: seq<real>)
    ensures c.Valid() && c.log.acknowledged == acknowledged && RunOk(c, acknowledged, answered)
    ensures c.hevc == hevc && c.vp9 == vp9 && c.filter == filter && c.sets == sets
            && c.frameDuration == frameDuration
  {
    hide HwCodec.Valid, RunOk;
    c := new HwCodec(hevc, vp9, filter, sets, frameDuration);
    acknowledged, answered := [], [];
    var i := 0;
    while i < |requests|
      invariant i <= |requests| && c.Valid() && c.log.acknowledged == acknowledged
      invariant c.hevc == hevc && c.vp9 == vp9 && c.filter == filter && c.sets == sets
                && c.frameDuration == frameDuration
      invariant fresh(c) && fresh(c.decoder) && fresh(c.decoder.frameState) && fresh(c.software)
      invariant !c.recovery.useSoftware ==> IsSuffix(c.acct.handed, answered)
    {
      ghost var handed := c.acct.handed;
      match requests[i] {
        case Give(packet) =>
          var ok := c.AddData(packet);
          acknowledged := acknowledged + if ok then [packet] else [];
        case Take(drain) =>
          var answer := c.GetPicture(drain);
          if answer.Picture? {
            SuffixMore(handed, answered, answer.picture.pts);
            answered := answered + [answer.picture.pts];
          }
        case Seek =>
          c.Reset();
          acknowledged := [];
        case Others =>
          c.OtherThreads();
      }
      i := i + 1;
    }
    RunIsOk(c, answered);
  }

  lemma RunIsOk(c: HwCodec, answered: seq<real>)
    requires c.Valid() && (!c.recovery.useSoftware ==> IsSuffix(c.acct.handed, answered))
    ensures RunOk(c, c.log.acknowledged, answered)
  {
    hide VideoDec2.VideoDec2.Valid, UnitsOk, PtsOk, PicturesOk, Follows, FedOk, StreamOk, FeedIs, Replayed, StageOk,
         FailuresOk, OwnershipOk, PicturesSeen, SoftwareOk, HardwareOk, NothingMissing;
    PendingNow(c.acct.times, c.pts, c.lastPts, c.frameDuration);
    OwnershipHolds(c);
    if c.recovery.useSoftware {
      if c.log.exact {
        SoftwareHolds(c);
      }
    } else {
      PicturesHold(c, answered);
      HardwareHolds(c);
      NothingIsMissing(c);
    }
  }

  lemma HardwareHolds(c: HwCodec)
    requires c.Valid() && !c.recovery.useSoftware
    ensures HardwareOk(c, c.log.acknowledged)
  {
    hide VideoDec2.VideoDec2.Valid, Ordered, PtsOk, PicturesOk, Follows, FedOk, Replayed, StageOk, FailuresOk, SetsOk,
         SetsFrom, Started, SomeUnseen, TimesFed, ResumesAtKey, Eaten, FedUnits, Stamps, FedStamps, NonEmpty, IsSuffix,
         FirstFeed, Datas, Clean;
    StampsAreTimes(c.acct.packets);
    if c.recovery.midStreamResets > 0 {
      UnitsResume(c.hevc, c.vp9, c.recovery.pending, c.recovery.stage, c.screening, c.acct.units, c.pendingAus,
                  c.pendingAus);
    }
    FollowsParts(c.feed, c.acct, c.recovery, c.log.acknowledged);
  }

  lemma NothingIsMissing(c: HwCodec)
    requires c.Valid() && !c.recovery.useSoftware
    ensures NothingMissing(c)
  {
    hide VideoDec2.VideoDec2.Valid, UnitsOk, PtsOk, PicturesOk, Follows, FedOk, Replayed, StageOk, FailuresOk,
         FeedIs, Stream, Fitting, SetsOk, Clean, Eaten;
    if !c.recovery.pending && (c.recovery.stage == 0 || (c.recovery.stage == 1 && !c.vp9)) {
      UnitsStream(c.hevc, c.vp9, c.recovery.midStreamResets > 0, c.recovery.stage, c.screening, c.acct.units,
                  c.pendingAus);
    }
  }

  lemma OwnershipHolds(c: HwCodec)
    requires c.Valid()
    ensures OwnershipOk(c)
  {
    hide VideoDec2.VideoDec2.Valid, UnitsOk, PtsOk, PicturesOk, Follows, FedOk, StreamOk, FeedIs, Replayed, StageOk,
         FailuresOk, Owned, IsClosed, NoneLive;
    OwnedNow(c.decoder);
    if c.recovery.useSoftware {
      c.decoder.NothingShows();
    }
  }

  lemma OwnedNow(d: VideoDec2.VideoDec2)
    requires d.Valid()
    ensures if d.m.stage == Closed then IsClosed(d.m) else Owned(d.m)
  {
    hide FramePool.Run, Owned, IsClosed;
    RunsAreOwned(d.trace);
  }

  lemma PicturesHold(c: HwCodec, answered: seq<real>)
    requires c.Valid() && !c.recovery.useSoftware && IsSuffix(c.acct.handed, answered)
    ensures PicturesSeen(c, answered)
  {
    hide VideoDec2.VideoDec2.Valid, UnitsOk, PtsOk, Follows, FedOk, StreamOk, FeedIs, Replayed, StageOk, FailuresOk,
         PicturePts;
    forall i | 0 <= i < |c.decoded|
      ensures c.decoder.ShowsFrame(c.decoded[i].buffer)
    {
      c.decoder.Shows(c.decoded[i].buffer);
    }
  }

  lemma SoftwareHolds(c: HwCodec)
    requires c.Valid() && c.recovery.useSoftware && c.log.exact
    ensures SoftwareOk(c, c.log.acknowledged)
  {
    hide VideoDec2.VideoDec2.Valid, UnitsOk, PtsOk, PicturesOk, Follows, FedOk, StreamOk, FeedIs, Replayed, StageOk,
         FailuresOk, NonEmpty, HaveData;
    SwitchedBefore(c.recovery, c.log, c.software.accepted);
    ReplayIsExact(c.recovery, c.log, c.software.accepted);
  }

  /** If pictures come out in display order, each after its unit was fed, the k-th one since the decoder last
      started afresh has the k-th smallest timestamp of the stream; a unit dropped takes its place. */
  lemma PicturesGetTheirPlaces(c: HwCodec, display: seq<real>)
    requires c.Valid() && !c.recovery.useSoftware
    requires Timestamps.Sorted(display) && Timestamps.InDisplayOrder(c.acct.times.events, display)
    ensures Timestamps.FedSet(c.acct.times.events) == multiset(Stamps(c.acct.packets)) <= multiset(display)
    ensures TimesFed(Stamps(c.acct.packets), c.acct.packets)
    ensures
      var (shown, marks) := (c.acct.handed + PtsOf(c.decoded), c.acct.times.pictured);
      && |marks| <= |display| && shown == Select(display[..|marks|], marks)
      && (AllTrue(marks) ==> shown == display[..|marks|])
  {
    hide VideoDec2.VideoDec2.Valid, UnitsOk, PtsOk, PicturesOk, Follows, FedOk, StreamOk, FeedIs, Replayed, StageOk,
         FailuresOk, PtsOf, Select, AllTrue, Timestamps.InDisplayOrder, Timestamps.Sorted, Timestamps.FedSet, Stamps,
         TimesFed;
    StampsAreTimes(c.acct.packets);
    PlacesOfPackets(c.feed, c.acct, c.recovery, c.log.acknowledged, display, c.pts, c.lastPts, c.frameDuration);
    PicturesInPlace(c.decoded, c.decoder.all, c.decoder.out, c.recovery.picturesOut, c.acct.times, c.acct.handed,
                    c.frameDuration, c.pts, c.lastPts, display);
  }

  lemma PlacesOfPackets(feed: Feed, a: Account, r: Recovery, acknowledged: seq<Packet>, display: seq<real>,
                        pts: seq<real>, lastPts: real, frameDuration: real)
    requires Follows(feed, a, r, acknowledged) && PtsOk(a.times, pts, lastPts, frameDuration)
    requires Timestamps.Sorted(display) && Timestamps.InDisplayOrder(a.times.events, display)
    ensures Timestamps.FedSet(a.times.events) == multiset(Stamps(a.packets)) <= multiset(display)
  {
    hide PtsOk, Follows, Timestamps.InDisplayOrder, Timestamps.Sorted, Timestamps.FedSet, Stamps, FedStamps, PicturePts,
         Select, AllTrue;
    FollowsParts(feed, a, r, acknowledged);
    FedSetOfStamps(a.times.events);
    PicturesInDisplayOrder(a.times, display, pts, lastPts, frameDuration);
  }
}
