/**
 The codec's members as values: what its counters and accounts say, and what any amount of decoding
 leaves of them.
 */
module CodecState {
  import opened AccessUnits
  import opened Bytes
  import opened FramePool
  import opened PictureQueue
  import opened Replay
  import opened Wrappers
  import AnnexB
  import Cleaner
  import LengthPrefixed
  import Timestamps
  import VideoDec2

  const MAX_ERRORS_IN_ROW: nat := 60
  const ERRORS_BEFORE_RESYNC: nat := 12
  const MAX_MID_STREAM_RESETS: nat := 6
  const MAX_WAIT_IRAP: nat := 300

  /** What GetPicture answers. */
  datatype Answer = Picture(picture: Decoded) | NeedsData | EndOfStream | Broken | FromSoftware

  /** A unit dropped from a cleaned stream is counted while nothing is shown: the counters, and whether
      they call for recovery. */
  function Struck(c: Screening, nothingShown: bool, hasSlice: bool): (Screening, bool) {
    if !nothingShown then (c, false)
    else if hasSlice then
      (c.(cleanWaitIrap := c.cleanWaitIrap + 1), c.cleanWaitIrap + 1 >= MAX_WAIT_IRAP)
    else
      (c.(cleanNoSlice := c.cleanNoSlice + 1), c.cleanNoSlice + 1 >= FAILURES_BEFORE_SOFTWARE)
  }

  /** A stream that has shown pictures fails again and again. */
  predicate NeedsResync(r: Recovery) {
    r.picturesOut > 0 && r.errorsInRow + 1 >= ERRORS_BEFORE_RESYNC
  }

  /** One failure more, short of that. */
  function Failed(r: Recovery, nothingShown: bool): Recovery {
    var failures := r.failuresBeforeFirst + if nothingShown then 1 else 0;
    var refused := nothingShown && failures >= FAILURES_BEFORE_SOFTWARE;
    r.(errorsInRow := r.errorsInRow + 1, failuresBeforeFirst := failures,
       pending := r.pending || refused,
       fatal := r.fatal || (!refused && r.errorsInRow + 1 >= MAX_ERRORS_IN_ROW))
  }

  /** In numbers: the eighth failure with nothing shown calls for recovery, the sixtieth in a row is fatal. */
  predicate FailureCounted(r: Recovery, nothingShown: bool, r': Recovery) {
    var refused := nothingShown && r.failuresBeforeFirst + 1 >= 8;
    r' == r.(errorsInRow := r.errorsInRow + 1, pending := refused,
             failuresBeforeFirst := r.failuresBeforeFirst + if nothingShown then 1 else 0,
             fatal := r.fatal || (!refused && r.errorsInRow + 1 >= 60))
  }

  lemma FailureCounts(r: Recovery, nothingShown: bool)
    requires !r.pending
    ensures FailureCounted(r, nothingShown, Failed(r, nothingShown))
  {
  }

  /** Without a filter: length-prefixed NAL units are rewritten, anything else passes as it is. */
  function AsAnnexB(vp9: bool, data: Bytes): Bytes {
    if !vp9 && data != [] && LengthPrefixed.Decode(data).Some? then AnnexB.Join(LengthPrefixed.Decode(data).value)
    else data
  }

  /** Length-prefixed units are rewritten with start codes, unless the stream is VP9; nothing else is. */
  lemma PacketRewritten(vp9: bool, nals: seq<Bytes>)
    requires LengthPrefixed.AllReadable(nals)
    ensures AsAnnexB(vp9, LengthPrefixed.Encode(nals)) == if vp9 then LengthPrefixed.Encode(nals) else AnnexB.Join(nals)
  {
    LengthPrefixed.DecodeIsInverse(LengthPrefixed.Encode(nals), nals);
  }

  lemma PacketKept(vp9: bool, data: Bytes)
    requires forall nals :: LengthPrefixed.AllReadable(nals) ==> data != LengthPrefixed.Encode(nals)
    ensures AsAnnexB(vp9, data) == data
  {
    if LengthPrefixed.Decode(data).Some? {
      LengthPrefixed.EncodeDecode(data);
    }
  }

  /** A bitstream filter: the units it makes of a packet's data, when it was given those before. */
  type Filter = (seq<Bytes>, Bytes) -> seq<Bytes>

  /** How packets become units. */
  datatype Feed = Direct(vp9: bool) | Filtered(made: Filter)

  /** As the codec is opened. */
  function FirstFeed(filter: Option<Filter>, vp9: bool): Feed {
    if filter.Some? then Filtered(filter.value) else Direct(vp9)
  }

  function Datas(packets: seq<Packet>): seq<Bytes> {
    seq(|packets|, i requires 0 <= i < |packets| => packets[i].data)
  }

  /** The units of a packet that comes after others. */
  function MadeOf(feed: Feed, before: seq<Packet>, p: Packet): seq<Bytes> {
    match feed
    case Direct(vp9) => [AsAnnexB(vp9, p.data)]
    case Filtered(made) => made(Datas(before), p.data)
  }

  /** What packets are to the decoder, one after the other. */
  function FedUnits(feed: Feed, packets: seq<Packet>): seq<Bytes> {
    if packets == [] then [] else
      FedUnits(feed, packets[..|packets| - 1])
      + MadeOf(feed, packets[..|packets| - 1], packets[|packets| - 1])
  }

  lemma FedUnitsMore(feed: Feed, packets: seq<Packet>, p: Packet)
    ensures FedUnits(feed, packets + [p]) == FedUnits(feed, packets) + MadeOf(feed, packets, p)
  {
    hide MadeOf;
    assert (packets + [p])[..|packets|] == packets;
  }

  /** The filter is the one the codec was opened with, or is gone; it was given the packets fed. */
  ghost predicate FeedIs(filter: Option<Filter>, vp9: bool, feed: Feed, sent: seq<Bytes>, packets: seq<Packet>) {
    && (feed == FirstFeed(filter, vp9) || feed == Direct(vp9))
    && (feed.Filtered? ==> sent == Datas(packets))
  }

  lemma FeedFirst(filter: Option<Filter>, vp9: bool)
    ensures FeedIs(filter, vp9, FirstFeed(filter, vp9), [], [])
  {
  }

  lemma FeedAfresh(filter: Option<Filter>, vp9: bool, feed: Feed, sent: seq<Bytes>, packets: seq<Packet>)
    requires FeedIs(filter, vp9, feed, sent, packets)
    ensures FeedIs(filter, vp9, feed, [], []) && FeedIs(filter, vp9, Direct(vp9), [], [])
  {
  }

  lemma FeedGoesOn(filter: Option<Filter>, vp9: bool, feed: Feed, sent: seq<Bytes>, packets: seq<Packet>, p: Packet)
    requires FeedIs(filter, vp9, feed, sent, packets)
    ensures feed.Direct? ==> feed.vp9 == vp9 && FeedIs(filter, vp9, feed, sent, packets + [p])
    ensures feed.Filtered? ==> sent == Datas(packets) && FeedIs(filter, vp9, feed, sent + [p.data], packets + [p])
  {
    assert Datas(packets + [p]) == Datas(packets) + [p.data];
  }

  ghost predicate AllBack(all: seq<int>) {
    forall id :: 0 <= id < |all| ==> all[id] < 0
  }

  lemma AllBackStays(all: seq<int>, out: set<nat>, all': seq<int>, out': set<nat>)
    requires AllBack(all) && VideoDec2.OthersMoved(all, out, all', out')
    ensures AllBack(all')
  {
  }

  ghost predicate NoneFree(p: Pool) {
    forall i :: 0 <= i < FRAMES && i < |p.frames| ==> p.frames[i] != Free
  }

  /** VP9: whose picture came out - the unit's own, or that of the oldest one waiting. */
  function Flags(waiting: seq<bool>, shown: bool, picture: bool, immediate: bool): (seq<bool>, bool) {
    if picture && immediate then (waiting, shown)
    else if picture then ((waiting + [shown])[1..], (waiting + [shown])[0])
    else (waiting + [shown], true)
  }

  /** The hardware was called for a unit unless that is unfit or found no frame free, and gave that answer. */
  ghost predicate Asked(au: Bytes, ok: bool, stalled: bool, output: Option<nat>, before: seq<VideoDec2.Call>,
                        after: seq<VideoDec2.Call>) {
    if !(0 < |au| <= 0x80_0000) then !ok && after == before
    else if stalled then ok && after == before
    else after == before + [VideoDec2.Call(false, !ok, output)]
  }

  /** A failure was counted - the twelfth in a row of a shown stream ends it, when the decoder is not started afresh;
      or there was none, and those before are forgotten. */
  predicate Heeded(r: Recovery, queued: bool, ok: bool, r': Recovery) {
    if ok then r' == r.(errorsInRow := 0)
    else if r.picturesOut > 0 && r.errorsInRow + 1 >= 12 then r'.fatal
    else FailureCounted(r, r.picturesOut == 0 && !queued, r')
  }

  /** Whose picture is queued, when the hardware took a unit whose header says `shown`: an immediate one is the unit's
      own, any other that of the oldest unit waiting for its picture; without VP9 every picture is queued. */
  predicate FlagsMoved(vp9: bool, taken: bool, waiting: seq<bool>, shown: bool, picture: bool, immediate: bool,
                       waiting': seq<bool>, queued: bool) {
    if !taken then waiting' == waiting && !queued
    else if !vp9 then waiting' == waiting && queued == picture
    else if picture && immediate then waiting' == waiting && queued == shown
    else if picture then [queued] + waiting' == waiting + [shown]
    else waiting' == waiting + [shown] && !queued
  }

  lemma FlagsMove(waiting: seq<bool>, shown: bool, picture: bool, immediate: bool)
    ensures var (waiting', visible) := Flags(waiting, shown, picture, immediate);
      FlagsMoved(true, true, waiting, shown, picture, immediate, waiting', picture && visible)
  {
    assert waiting + [shown] == [(waiting + [shown])[0]] + (waiting + [shown])[1..];
  }

  /** A unit the hardware took: its flag, whether a picture came out with it, and whether that was its own. */
  datatype Decoding = Decoding(shown: bool, picture: bool, immediate: bool)

  /** The flags that wait after units, and the verdicts on pictures that were not immediate. */
  function FlagRun(units: seq<Decoding>): (seq<bool>, seq<bool>) {
    if units == [] then ([], []) else
      var ((waiting, verdicts), u) := (FlagRun(units[..|units| - 1]), units[|units| - 1]);
      var (waiting', visible) := Flags(waiting, u.shown, u.picture, u.immediate);
      (waiting', verdicts + if u.picture && !u.immediate then [visible] else [])
  }

  /** The flags of the units whose picture did not come out at once. */
  function LateFlags(units: seq<Decoding>): seq<bool> {
    if units == [] then [] else
      var u := units[|units| - 1];
      LateFlags(units[..|units| - 1]) + if u.picture && u.immediate then [] else [u.shown]
  }

  /** Over any run pictures that come out late get the flags of those units, in order and once each. */
  lemma {:induction false} FlagsInOrder(units: seq<Decoding>)
    ensures var (waiting, verdicts) := FlagRun(units); verdicts + waiting == LateFlags(units)
  {
    if units != [] {
      var (front, u) := (units[..|units| - 1], units[|units| - 1]);
      FlagsInOrder(front);
      var (waiting, verdicts) := FlagRun(front);
      FlagsMove(waiting, u.shown, u.picture, u.immediate);
    }
  }

  // ---- what the decoder was fed ------------------------------------------------------

  /** Since the decoder last started afresh: access units and their fates, the clock, the packets fed,
      and the timestamps of the pictures taken. */
  datatype Account = Account(units: Units, times: Times, packets: seq<Packet>, handed: seq<real>)

  function FreshAccount(lastPts: real): Account {
    Account(NoUnits(), Afresh(lastPts), [], [])
  }

  ghost predicate IsFresh(a: Account) {
    a == FreshAccount(a.times.first)
  }

  /** Units were fed. */
  function FedWith(a: Account, aus: seq<Bytes>): Account {
    a.(units := a.units.(fed := a.units.fed + aus))
  }

  /** A packet was fed, as those units. */
  function FedBy(a: Account, p: Packet, aus: seq<Bytes>): Account {
    Account(a.units.(fed := a.units.fed + aus), Stamped(a.times, p), a.packets + [p], a.handed)
  }

  /** Nothing more was fed, and no picture taken. */
  ghost predicate SameFeed(a: Account, a': Account) {
    a'.units.fed == a.units.fed && OnlyTaken(a.times, a'.times) && a'.packets == a.packets && a'.handed == a.handed
  }

  /** What was fed are the packets: their units and their timestamps. */
  ghost predicate FedOk(feed: Feed, a: Account) {
    a.units.fed == FedUnits(feed, a.packets) && FedStamps(a.times.events) == Stamps(a.packets)
  }

  /** The decoder was not started afresh since the stream began, or was fed the stream again from its start. */
  predicate FedFromStart(r: Recovery) {
    (r.stage == 0 && r.midStreamResets == 0) || (r.picturesOut == 0 && !r.replayOverflow)
  }

  /** ... and they are the latest of those acknowledged, or all of them. */
  ghost predicate Follows(feed: Feed, a: Account, r: Recovery, acknowledged: seq<Packet>) {
    && FedOk(feed, a)
    && (!r.fatal ==>
          && IsSuffix(a.packets, NonEmpty(acknowledged))
          && (FedFromStart(r) ==> a.packets == NonEmpty(acknowledged)))
  }

  lemma FreshFollows(feed: Feed, a: Account, r: Recovery, acknowledged: seq<Packet>)
    requires IsFresh(a) && (!FedFromStart(r) || acknowledged == [])
    ensures Follows(feed, a, r, acknowledged)
  {
    EmptySuffix(NonEmpty(acknowledged));
  }

  /** A packet was fed, and perhaps timestamps were taken. */
  ghost predicate FedPacket(feed: Feed, a: Account, p: Packet, a': Account) {
    && a'.packets == a.packets + [p] && a'.handed == a.handed && OnlyTaken(Stamped(a.times, p), a'.times)
    && a'.units.fed == a.units.fed + MadeOf(feed, a.packets, p)
  }

  lemma FedMore(feed: Feed, a: Account, p: Packet)
    requires FedOk(feed, a)
    ensures FedOk(feed, FedBy(a, p, MadeOf(feed, a.packets, p)))
  {
    hide FedUnits, MadeOf, FedStamps, Stamps;
    StampsMore(a.times, a.packets, p);
    FedUnitsMore(feed, a.packets, p);
  }

  // ---- what became of it ---------------------------------------------------------------

  /** The parameter sets are those the stream was opened with, cleaned with it. */
  ghost predicate SetsFrom(hevc: bool, sets: Bytes, c: Screening) {
    c.parameterSets == if c.cleanStream then Cleaner.Clean(hevc, sets) else sets
  }

  /** A cleaned stream has cleaned parameter sets, and only recovery cleans a stream. */
  ghost predicate StreamOk(hevc: bool, sets: Bytes, stage: nat, c: Screening) {
    SetsOk(hevc, c) && SetsFrom(hevc, sets, c) && (c.cleanStream ==> stage > 0)
  }

  lemma StreamSame(hevc: bool, sets: Bytes, stage: nat, stage': nat, c: Screening, c': Screening)
    requires StreamOk(hevc, sets, stage, c) && SameStream(c, c') && stage <= stage'
    ensures StreamOk(hevc, sets, stage', c')
  {
    hide Cleaner.Clean;
  }

  /** The units are in order; those unseen are so because recovery is called for, or there is none left; and what
      waits waits behind a unit that passed the checks. `resync`: the decoder was reset in the middle of the stream. */
  ghost predicate UnitsOk(hevc: bool, vp9: bool, resync: bool, called: bool, stage: nat,
                          c: Screening, u: Units, waiting: seq<Bytes>, pending: seq<Bytes>) {
    && Ordered(hevc, resync, c, u, pending)
    && (SomeUnseen(u.fates) ==> called || !StageLeft(stage, vp9)) && (waiting != [] ==> Started(u))
  }

  lemma UnitsBegin(hevc: bool, vp9: bool, resync: bool, called: bool, stage: nat, c: Screening)
    requires Gate(c) == Start(hevc, c, resync)
    ensures UnitsOk(hevc, vp9, resync, called, stage, c, NoUnits(), [], []) && Eaten(NoUnits().fates) == []
  {
    NothingFed(hevc, resync, c);
  }

  /** A unit meets the fate that the checks give it. */
  lemma UnitsMeet(hevc: bool, vp9: bool, resync: bool, called: bool, stage: nat, c: Screening,
                  c': Screening, u: Units, data: Bytes, queue: seq<Bytes>)
    requires UnitsOk(hevc, vp9, resync, false, stage, c, u, queue, [data] + queue) && StageLeft(stage, vp9)
    requires Gate(c') == Gate(GateAfter(hevc, c, data))
    ensures
      var f := FateOf(hevc, c, data);
      var u' := Met(u, f);
      && UnitsOk(hevc, vp9, resync, called, stage, c', u', queue, queue) && u'.fed == u.fed
      && Eaten(u'.fates) == Eaten(u.fates) + (if f.Consumed? then [f.au] else [])
      && Settled(hevc, c, false, u, u', queue, queue, data)
  {
    hide Ordered, GateAfter, FateOf, Eaten, Started, Settled;
    GateDecides(hevc, c, data);
    MeetsFate(hevc, resync, c, c', u, data, queue);
  }

  lemma UnitsUnseen(hevc: bool, vp9: bool, resync: bool, stage: nat, c: Screening, u: Units, data: Bytes,
                    queue: seq<Bytes>)
    requires UnitsOk(hevc, vp9, resync, true, stage, c, u, queue, [data] + queue)
    ensures
      var u' := Met(u, Unseen);
      && UnitsOk(hevc, vp9, resync, true, stage, c, u', queue, queue) && u'.fed == u.fed
      && Eaten(u'.fates) == Eaten(u.fates) && Settled(hevc, c, true, u, u', queue, queue, data)
  {
    hide Ordered, Eaten, Started, Settled;
    GoesUnseen(hevc, resync, c, u, data, queue);
  }

  /** A unit passes the checks and waits. */
  lemma UnitsWait(hevc: bool, vp9: bool, resync: bool, stage: nat, c: Screening, c': Screening, u: Units,
                  data: Bytes, queue: seq<Bytes>)
    requires UnitsOk(hevc, vp9, resync, false, stage, c, u, queue, [data] + queue) && StageLeft(stage, vp9)
    requires SetsOk(hevc, c) && c' == GateAfter(hevc, c, data) && FateOf(hevc, c, data).Consumed?
    ensures
      var (u', queue') := (Waiting(u), [FateOf(hevc, c, data).au] + queue);
      && UnitsOk(hevc, vp9, resync, false, stage, c', u', queue', queue') && u'.fed == u.fed
      && u'.fates == u.fates && Settled(hevc, c, false, u, u', queue, queue', data)
  {
    hide Ordered, GateAfter, FateOf, Eaten, Started, Settled, SetsOk;
    GateDecides(hevc, c, data);
    Waits(hevc, resync, c, c', u, data, queue);
  }

  /** A unit more, behind those that wait, or in hand. */
  lemma UnitsQueue(hevc: bool, vp9: bool, resync: bool, called: bool, stage: nat, c: Screening, u: Units,
                   queue: seq<Bytes>, au: Bytes)
    requires UnitsOk(hevc, vp9, resync, called, stage, c, u, queue, queue)
    ensures
      var u' := u.(fed := u.fed + [au]);
      && UnitsOk(hevc, vp9, resync, called, stage, c, u', queue, queue + [au])
      && (queue != [] ==> UnitsOk(hevc, vp9, resync, called, stage, c, u', queue + [au], queue + [au]))
  {
    hide Ordered;
    Queues(hevc, resync, c, u, queue, au);
  }

  /** The first that waits comes in hand. */
  lemma UnitsRetry(hevc: bool, vp9: bool, resync: bool, called: bool, stage: nat, c: Screening, u: Units,
                   queue: seq<Bytes>)
    requires UnitsOk(hevc, vp9, resync, called, stage, c, u, queue, queue) && queue != []
    ensures UnitsOk(hevc, vp9, resync, called, stage, c, u, queue[1..], [queue[0]] + queue[1..])
  {
    hide Ordered, Started;
    assert [queue[0]] + queue[1..] == queue;
  }

  /** Recovery may be called for, and what was unseen is so because it is, or because there is none left. */
  lemma UnitsCalled(hevc: bool, vp9: bool, resync: bool, called: bool, called': bool, stage: nat,
                    stage': nat, c: Screening, u: Units, queue: seq<Bytes>, pending: seq<Bytes>)
    requires UnitsOk(hevc, vp9, resync, called, stage, c, u, queue, pending) && stage <= stage'
    requires called ==> called' || !StageLeft(stage', vp9)
    ensures UnitsOk(hevc, vp9, resync, called', stage', c, u, queue, pending)
  {
    hide Ordered, Started;
  }

  /** Only after a resync are units kept back up to a keyframe. */
  lemma UnitsNotWaiting(hevc: bool, vp9: bool, called: bool, stage: nat, c: Screening, u: Units, waiting: seq<Bytes>,
                        pending: seq<Bytes>)
    requires UnitsOk(hevc, vp9, false, called, stage, c, u, waiting, pending)
    ensures !c.waitKeyframe
  {
    hide Ordered, Started;
    NoResyncNoWait(hevc, c, u, pending);
  }

  /** Recovery cleans a stream that was not cleaned, and its sets. */
  lemma StreamCleaned(hevc: bool, sets: Bytes, c: Screening, c': Screening)
    requires StreamOk(hevc, sets, 0, c) && SameStream(c, c')
    ensures
      var c'' := c'.(cleanStream := true, seenIrap := false, cleanNoSlice := 0, cleanWaitIrap := 0,
                    parameterSets := Cleaner.Clean(hevc, c'.parameterSets),
                    prepend := Cleaner.Clean(hevc, c'.parameterSets) != []);
      StreamOk(hevc, sets, 1, c'')
  {
    hide Cleaner.Clean;
    Cleaner.CleanIdempotent(hevc, sets, []);
  }

  /** With recovery not called for nothing is missing, and what waits is the rest of the stream. */
  lemma UnitsStream(hevc: bool, vp9: bool, resync: bool, stage: nat, c: Screening, u: Units, pending: seq<Bytes>)
    requires UnitsOk(hevc, vp9, resync, false, stage, c, u, pending, pending) && StageLeft(stage, vp9)
    ensures StreamEaten(hevc, c.parameterSets, c.cleanStream, resync, u, pending)
  {
    hide Ordered, Started, Stream, Eaten, Fitting;
    StreamOrder(hevc, resync, c, u, pending);
  }

  /** The units consumed are the fitting ones of the stream, in order, up to those that wait; and these are the rest of
      it - in a cleaned stream a unit that passed the checks and waits in front is its next. */
  ghost predicate StreamEaten(hevc: bool, sets: Bytes, clean: bool, resync: bool, u: Units, pending: seq<Bytes>) {
    && |u.fates| <= |u.fed|
    && var through := Stream(hevc, sets, clean, resync, u.fed[..|u.fates|]);
       && Eaten(u.fates) == Fitting(through)
       && (!clean ==> Stream(hevc, sets, clean, resync, u.fed) == through + pending)
       && (clean && Prepared(u) ==>
             |u.fates| < |u.fed| && pending != []
             && Stream(hevc, sets, clean, resync, u.fed[..|u.fates| + 1]) == through + [pending[0]])
  }

  /** Decoding resumes at a keyframe. */
  lemma UnitsResume(hevc: bool, vp9: bool, called: bool, stage: nat, c: Screening, u: Units, waiting: seq<Bytes>,
                    pending: seq<Bytes>)
    requires UnitsOk(hevc, vp9, true, called, stage, c, u, waiting, pending)
    ensures ResumesAtKey(hevc, u, Eaten(u.fates))
  {
    hide Ordered, Started, Eaten, ResumesAtKey;
    Resumes(hevc, c, u, pending);
  }

  // ---- any amount of decoding --------------------------------------------------------

  datatype State = State(recovery: Recovery, log: Log, screening: Screening, generation: nat, pending: seq<Bytes>,
                         acct: Account, feed: Feed)

  /** Units were decoded: the replay, the stream and what was fed are as before - unless the decoder was
      started afresh, or given up, which takes pictures shown. */
  ghost predicate Onward(s: State, s': State) {
    && KeepsReplay(s.recovery, s'.recovery, s.log, s'.log) && SameStream(s.screening, s'.screening)
    && s.generation <= s'.generation && s.recovery.midStreamResets <= s'.recovery.midStreamResets
    && (s'.recovery.picturesOut == 0 || s'.recovery.midStreamResets == 0 ==> s'.generation == s.generation)
    && (s'.recovery.useSoftware && !s.recovery.useSoftware ==> s'.pending == [])
    && (if s'.generation != s.generation then IsFresh(s'.acct) && s'.pending == []
        else !s'.recovery.useSoftware ==> s'.feed == s.feed && SameFeed(s.acct, s'.acct))
  }

  lemma Stays(s: State)
    ensures Onward(s, s)
  {
  }

  /** A unit met its fate, or waits; an error may be counted, and recovery called for. */
  lemma Moves(s: State, s': State)
    requires s'.log == s.log && s'.generation == s.generation && !s.recovery.useSoftware
    requires s'.recovery == s.recovery.(pending := s'.recovery.pending, errorsInRow := s'.recovery.errorsInRow)
    requires SameStream(s.screening, s'.screening) && SameFeed(s.acct, s'.acct) && s'.feed == s.feed
    ensures Onward(s, s')
  {
  }

  /** An error more, counted. */
  lemma FailsOnce(s: State, vp9: bool, queued: bool)
    requires CountersOk(s.recovery, vp9, queued) && !s.recovery.useSoftware && !s.recovery.pending
    requires !NeedsResync(s.recovery)
    ensures
      var r := Failed(s.recovery, s.recovery.picturesOut == 0 && !queued);
      CountersOk(r, vp9, queued) && Onward(s, s.(recovery := r))
  {
  }

  /** ... and one too many. */
  lemma FailsAgain(s: State, vp9: bool, queued: bool)
    requires CountersOk(s.recovery, vp9, queued) && !s.recovery.useSoftware && !s.recovery.pending
    requires s.recovery.picturesOut > 0
    ensures
      var r := s.recovery.(errorsInRow := s.recovery.errorsInRow + 1);
      CountersOk(r, vp9, queued) && Onward(s, s.(recovery := r))
  {
  }

  lemma ResyncCounts(r: Recovery, vp9: bool, queued: bool)
    requires CountersOk(r, vp9, queued) && r.picturesOut > 0 && !r.pending
    ensures CountersOk(r.(midStreamResets := r.midStreamResets + 1), vp9, queued)
  {
  }

  /** In the end the stream goes on in software, or not at all. */
  lemma GivenUp(s: State, vp9: bool, queued: bool, s': State)
    requires CountersOk(s.recovery, vp9, queued) && !s.recovery.useSoftware && !s.recovery.pending
    requires s.recovery.picturesOut > 0 && s'.screening == s.screening && s'.generation == s.generation
    requires var r := s.recovery.(midStreamResets := s.recovery.midStreamResets + 1);
      if s'.recovery.useSoftware then
        s'.recovery == Switched(r) && s'.log == SwitchLog(r, s.log) && s'.pending == []
      else s' == s.(recovery := r.(fatal := true))
    ensures CountersOk(s'.recovery, vp9, queued) && Onward(s, s')
  {
  }

  lemma StartedAfresh(s: State, s': State)
    requires !s.recovery.useSoftware && s.recovery.picturesOut > 0
    requires s'.recovery == s.recovery.(errorsInRow := 0, midStreamResets := s.recovery.midStreamResets + 1)
    requires s'.log == s.log && SameStream(s.screening, s'.screening) && s'.generation == s.generation + 1
    requires IsFresh(s'.acct) && s'.pending == []
    ensures Onward(s, s')
  {
  }

  lemma TakesOrNot(t: Times, took: bool)
    ensures OnlyTaken(t, Ticked(t, took)) && OnlyTaken(t, Pictured(t, took))
  {
    TookNothingFed(t, false);
    TookNothingFed(t, true);
  }

  lemma SettledFed(hevc: bool, c: Screening, unseen: bool, u: Units, u': Units, queue: seq<Bytes>, queue': seq<Bytes>,
                   data: Bytes)
    requires Settled(hevc, c, unseen, u, u', queue, queue', data)
    ensures u'.fed == u.fed
  {
  }

  /** A unit was offered to the hardware. */
  lemma OfferedOn(hevc: bool, sets: Bytes, c: Screening, s: State, s': State, data: Bytes)
    requires !s.recovery.useSoftware && StreamOk(hevc, sets, s.recovery.stage, s.screening)
    requires s' == s.(screening := s.screening.(prepend := false), pending := s'.pending,
                      acct := s.acct.(units := s'.acct.units))
    requires Settled(hevc, c, false, s.acct.units, s'.acct.units, s.pending, s'.pending, data)
    ensures Onward(s, s') && StreamOk(hevc, sets, s'.recovery.stage, s'.screening)
  {
    hide Settled, StreamOk, Onward, FedStamps;
    SettledFed(hevc, c, false, s.acct.units, s'.acct.units, s.pending, s'.pending, data);
    StreamSame(hevc, sets, s.recovery.stage, s'.recovery.stage, s.screening, s'.screening);
    Moves(s, s');
  }

  /** ... and answered, perhaps with a picture. */
  lemma AnsweredOn(s: State, s': State, s'': State, picture: bool)
    requires Onward(s, s') && s'.generation == s.generation && !s'.recovery.useSoftware
    requires s'' == s'.(recovery := s'.recovery.(errorsInRow := 0),
                        acct := s'.acct.(times := Pictured(s'.acct.times, picture)))
    ensures Onward(s, s'')
  {
    TakesOrNot(s'.acct.times, picture);
    hide FedStamps, Onward;
    Moves(s', s'');
    OnwardOn(s, s', s'');
  }

  /** A unit went through the checks ... */
  lemma ScreenedOn(hevc: bool, sets: Bytes, s: State, s': State, drop: bool)
    requires !s.recovery.useSoftware && StreamOk(hevc, sets, s.recovery.stage, s.screening)
    requires SameStream(s.screening, s'.screening)
    requires s' == s.(recovery := s.recovery.(pending := s'.recovery.pending), screening := s'.screening,
                      acct := s.acct.(times := Ticked(s.acct.times, drop)))
    ensures Onward(s, s') && StreamOk(hevc, sets, s'.recovery.stage, s'.screening)
  {
    hide FedStamps, Onward, StreamOk;
    StreamSame(hevc, sets, s.recovery.stage, s'.recovery.stage, s.screening, s'.screening);
    TakesOrNot(s.acct.times, drop);
    Moves(s, s');
  }

  /** ... and was dropped. */
  lemma DroppedOn(s: State, s': State)
    requires Onward(s, s') && s'.generation == s.generation
    ensures Onward(s, s'.(acct := s'.acct.(units := Met(s'.acct.units, Screened))))
  {
    hide FedStamps, KeepsReplay;
  }

  lemma OnwardOn(s: State, s': State, s'': State)
    requires Onward(s, s') && Onward(s', s'') && s'.generation == s.generation
    requires s'.recovery.useSoftware && !s.recovery.useSoftware ==> s''.pending == []
    ensures Onward(s, s'')
  {
    hide FedStamps;
  }

  /** After a fresh start it does not matter what was fed before. */
  lemma OnwardAfresh(s: State, s': State, a: Account)
    requires Onward(s, s') && s'.generation != s.generation
    ensures Onward(s.(acct := a), s')
  {
  }

  /** The queue of waiting units is nothing of that. */
  lemma OnwardPending(s: State, s': State, pending: seq<Bytes>)
    requires Onward(s, s') && s'.generation == s.generation && (s'.recovery.useSoftware ==> s.recovery.useSoftware)
    ensures Onward(s, s'.(pending := pending))
  {
  }

  /** What is fed on top is. */
  lemma OnwardFed(s: State, s': State, aus: seq<Bytes>)
    requires Onward(s, s') && s'.generation == s.generation
    ensures Onward(s.(acct := FedWith(s.acct, aus)), s'.(acct := FedWith(s'.acct, aus)))
  {
  }

  lemma NothingMore(s: State)
    ensures Onward(s.(acct := FedWith(s.acct, [])), s)
  {
    assert s.acct.units.fed + [] == s.acct.units.fed;
  }

  /** One unit more of those made of a packet. */
  lemma FedOneMore(s: State, made: seq<Bytes>, i: nat, s': State, s'': State)
    requires i < |made| && s'.generation == s.generation
    requires Onward(s.(acct := FedWith(s.acct, made[..i])), s')
    requires Onward(s'.(acct := FedWith(s'.acct, [made[i]])), s'')
    requires s'.recovery.useSoftware && !s.recovery.useSoftware ==> s''.pending == []
    ensures Onward(s.(acct := FedWith(s.acct, made[..i + 1])), s'')
  {
    var a := FedWith(s.acct, made[..i]);
    assert (s.acct.units.fed + made[..i]) + [made[i]] == s.acct.units.fed + made[..i + 1];
    assert FedWith(a, [made[i]]) == FedWith(s.acct, made[..i + 1]);
    OnwardFed(s.(acct := a), s', [made[i]]);
    hide Onward;
    OnwardOn(s.(acct := FedWith(s.acct, made[..i + 1])), s'.(acct := FedWith(s'.acct, [made[i]])), s'');
  }

  /** A fresh start leaves nothing waiting, nor does giving the decoder up. */
  lemma FreshOrSame(s: State, s': State)
    requires Onward(s, s') && !s.recovery.useSoftware
    ensures s'.generation != s.generation || s'.recovery.useSoftware ==> s'.pending == []
  {
  }

  /** Before the first picture the hardware is not given up, nor started afresh. */
  lemma HardwareStays(s: State, s': State)
    requires Onward(s, s') && !s.recovery.useSoftware && s'.recovery.picturesOut == 0
    ensures !s'.recovery.useSoftware
  {
  }

  /** What decoding units tells of the replay, the stream and the account. */
  lemma OnwardParts(s: State, s': State)
    requires Onward(s, s')
    ensures KeepsReplay(s.recovery, s'.recovery, s.log, s'.log) && s.generation <= s'.generation
    ensures s'.recovery.stage == s.recovery.stage && s'.log.acknowledged == s.log.acknowledged
    ensures s.recovery.useSoftware ==> s'.recovery.useSoftware
    ensures s'.recovery.useSoftware && !s.recovery.useSoftware ==> s'.recovery.picturesOut > 0 && !s'.log.exact
    ensures s'.generation == s.generation && !s'.recovery.useSoftware ==>
      s'.feed == s.feed && SameFeed(s.acct, s'.acct)
    ensures !s'.recovery.useSoftware ==> HandedOn(s.acct, s'.acct)
  {
  }

  lemma FedAfter(feed: Feed, a: Account, a': Account, p: Packet, a'': Account)
    requires SameFeed(a, a') && FedPacket(feed, a', p, a'')
    ensures FedPacket(feed, a, p, a'')
  {
    StampedSame(a.times, a'.times, p);
    hide FedStamps, MadeOf;
  }

  lemma StampedSame(t: Times, t': Times, p: Packet)
    requires OnlyTaken(t, t')
    ensures OnlyTaken(Stamped(t, p), Stamped(t', p))
  {
    StampedFed(t, p);
    StampedFed(t', p);
  }

  lemma StampedFed(t: Times, p: Packet)
    ensures FedStamps(Stamped(t, p).events)
            == FedStamps(t.events) + match Stamp(p) case Some(at) => [at] case None => []
    ensures Stamped(t, p).first == t.first
  {
    if Stamp(p).Some? {
      var e := Timestamps.Fed(Stamp(p).value);
      assert (t.events + [e])[..|t.events|] == t.events;
    }
  }

  lemma StaysOnward(s: State, s': State)
    requires Onward(s, s') && !s.recovery.useSoftware && s.recovery.picturesOut == 0
    ensures KeepsReplay(s.recovery, s'.recovery, s.log, s'.log) && SameStream(s.screening, s'.screening)
    ensures !s'.recovery.useSoftware && s'.generation == s.generation
  {
  }

  lemma FreshIsFed(feed: Feed, a: Account)
    requires IsFresh(a)
    ensures FedOk(feed, a)
  {
  }

  /** The hardware was given a packet that is taken, or refused it. While the decoder is the same and not
      started afresh, that packet was fed and no other. */
  ghost predicate Gave(s: State, s': State, p: Packet, ok: bool) {
    && s'.log.acknowledged == s.log.acknowledged + (if ok then [p] else [])
    && s'.recovery.stage >= s.recovery.stage && s'.generation >= s.generation
    && (!s'.recovery.useSoftware ==> HandedOn(s.acct, s'.acct))
    && (!s'.recovery.useSoftware && s'.recovery.stage == s.recovery.stage && s'.generation == s.generation ==>
          if ok then FedPacket(s.feed, s.acct, p, s'.acct) else s'.recovery.fatal || SameFeed(s.acct, s'.acct))
  }

  lemma GaveNothing(s: State, s': State, p: Packet)
    requires Onward(s, s')
    ensures Gave(s, s', p, false)
  {
    OnwardParts(s, s');
    assert s.log.acknowledged + [] == s.log.acknowledged;
    hide Onward, SameFeed, KeepsReplay;
  }

  lemma GaveAfter(s: State, s': State, s'': State, p: Packet, ok: bool)
    requires Onward(s, s') && Gave(s', s'', p, ok)
    requires s'.recovery.useSoftware ==> s''.recovery.useSoftware
    ensures Gave(s, s'', p, ok)
  {
    hide Onward, SameFeed, KeepsReplay, FedPacket;
    OnwardParts(s, s');
    if !s''.recovery.useSoftware && s''.recovery.stage == s.recovery.stage && s''.generation == s.generation {
      if ok {
        FedAfter(s.feed, s.acct, s'.acct, p, s''.acct);
      } else if !s''.recovery.fatal {
        SameFeedTwice(s.acct, s'.acct, s''.acct);
      }
    }
  }

  lemma SameFeedTwice(a: Account, a': Account, a'': Account)
    requires SameFeed(a, a') && SameFeed(a', a'')
    ensures SameFeed(a, a'')
  {
    hide FedStamps;
  }

  /** A packet was taken and fed, and then recovery ran or not. */
  lemma GavePacket(s: State, p: Packet, t: State, s': State, s'': State, ok: bool)
    requires t.acct == FedBy(s.acct, p, MadeOf(s.feed, s.acct.packets, p)) && t.feed == s.feed
    requires t.recovery.stage == s.recovery.stage && t.generation == s.generation
    requires t.log.acknowledged == s.log.acknowledged + [p] && Onward(t, s')
    requires s''.log.acknowledged == s.log.acknowledged + (if ok then [p] else [])
    requires s'.recovery.useSoftware ==> s''.recovery.useSoftware
    requires s''.generation >= s'.generation && (!ok ==> s''.recovery.fatal)
    requires if s'.recovery.pending then s''.recovery.stage > s'.recovery.stage
             else s''.recovery == s'.recovery && s''.acct == s'.acct && s''.generation == s'.generation
    requires !s''.recovery.useSoftware ==> HandedOn(s'.acct, s''.acct)
    ensures Gave(s, s'', p, ok)
  {
    hide Onward, SameFeed, KeepsReplay, FedPacket, MadeOf;
    OnwardParts(t, s');
    if !s''.recovery.useSoftware && s''.recovery.stage == s.recovery.stage && s''.generation == s.generation {
      FedPacketOnward(s.feed, s.acct, p, t, s');
    }
  }

  lemma FollowsFatal(feed: Feed, a: Account, r: Recovery, acknowledged: seq<Packet>)
    requires FedOk(feed, a) && r.fatal
    ensures Follows(feed, a, r, acknowledged)
  {
    hide FedOk;
  }

  lemma FollowsShown(feed: Feed, a: Account, a': Account, r: Recovery, acknowledged: seq<Packet>)
    requires Follows(feed, a, r, acknowledged)
    requires a'.units == a.units && OnlyTaken(a.times, a'.times) && a'.packets == a.packets
    ensures Follows(feed, a', Shown(r), acknowledged) && FedOk(feed, a')
  {
    hide FedUnits, FedStamps, Stamps, NonEmpty, IsSuffix;
  }

  lemma FollowsParts(feed: Feed, a: Account, r: Recovery, acknowledged: seq<Packet>)
    requires Follows(feed, a, r, acknowledged)
    ensures a.units.fed == FedUnits(feed, a.packets) && FedStamps(a.times.events) == Stamps(a.packets)
    ensures !r.fatal ==>
      && IsSuffix(a.packets, NonEmpty(acknowledged))
      && (FedFromStart(r) ==> a.packets == NonEmpty(acknowledged))
  {
  }

  lemma SoftwareStays(s: State, s': State)
    requires Onward(s, s') && s.recovery.useSoftware
    ensures s'.recovery.useSoftware
  {
  }

  lemma FollowsIsFed(feed: Feed, a: Account, r: Recovery, acknowledged: seq<Packet>)
    requires Follows(feed, a, r, acknowledged)
    ensures FedOk(feed, a)
  {
  }

  /** The pictures taken are counted on, or anew. */
  predicate HandedOn(a: Account, a': Account) {
    a'.handed == a.handed || a'.handed == []
  }

  /** A stream fed again from its whole record. */
  lemma ReplayFollows(feed: Feed, a: Account, r: Recovery, log: Log, accepted: seq<Packet>)
    requires Replayed(r, log, accepted) && !r.useSoftware && r.stage > 0
    requires FedOk(feed, a) && a.packets == r.replay
    ensures Follows(feed, a, r, log.acknowledged)
  {
    if !r.fatal {
      ReplayIsSuffix(r, Taken(false, log));
    }
  }

  /** A packet without data is taken and not fed. */
  lemma FollowsNothing(feed: Feed, a: Account, r: Recovery, acknowledged: seq<Packet>, p: Packet)
    requires Follows(feed, a, r, acknowledged) && p.data == []
    ensures Follows(feed, a, r, acknowledged + [p])
  {
    NonEmptyAppend(acknowledged, p);
  }

  lemma FollowsOnward(s: State, s': State)
    requires Follows(s.feed, s.acct, s.recovery, s.log.acknowledged)
    requires Onward(s, s') && !s'.recovery.useSoftware
    ensures Follows(s'.feed, s'.acct, s'.recovery, s'.log.acknowledged)
  {
    hide FedUnits, FedStamps, Stamps, NonEmpty, IsSuffix;
    if s'.generation != s.generation {
      FreshFollows(s'.feed, s'.acct, s'.recovery, s'.log.acknowledged);
    }
  }

  /** A packet taken and fed. */
  lemma FollowsPacket(a: Account, r: Recovery, acknowledged: seq<Packet>, p: Packet, s: State, s': State)
    requires Follows(s.feed, a, r, acknowledged) && p.data != []
    requires s.acct == FedBy(a, p, MadeOf(s.feed, a.packets, p)) && s.log.acknowledged == acknowledged + [p]
    requires s.recovery.fatal == r.fatal && s.recovery.picturesOut == r.picturesOut
    requires s.recovery.stage == r.stage && s.recovery.midStreamResets == r.midStreamResets
    requires r.picturesOut == 0 && r.replayOverflow ==> s.recovery.replayOverflow
    requires Onward(s, s') && !s'.recovery.useSoftware
    ensures Follows(s'.feed, s'.acct, s'.recovery, s'.log.acknowledged)
  {
    hide FedOk, NonEmpty, IsSuffix, Onward, MadeOf;
    FedMore(s.feed, a, p);
    NonEmptyAppend(acknowledged, p);
    if !r.fatal {
      SuffixMore(a.packets, NonEmpty(acknowledged), p);
    }
    assert Follows(s.feed, s.acct, s.recovery, s.log.acknowledged);
    FollowsOnward(s, s');
  }

  lemma FedPacketOnward(feed: Feed, a: Account, p: Packet, s: State, s': State)
    requires s.acct == FedBy(a, p, MadeOf(feed, a.packets, p)) && Onward(s, s')
    requires s'.generation == s.generation && !s'.recovery.useSoftware
    ensures FedPacket(feed, a, p, s'.acct)
    ensures FedOk(feed, a) ==> FedOk(feed, s'.acct)
  {
    hide FedUnits, FedStamps, Stamps, MadeOf;
    if FedOk(feed, a) {
      FedMore(feed, a, p);
    }
  }

  /** In software mode the account says nothing. */
  lemma OnwardInSoftware(s: State, s': State, a: Account)
    requires Onward(s, s') && s.recovery.useSoftware
    ensures Onward(s.(acct := a), s')
  {
  }
}
