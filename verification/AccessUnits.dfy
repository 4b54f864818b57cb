/**
 What happens to access units on their way to the hardware: the checks that drop one, the bytes that
 replace one, and the queue of those for which no frame was free.
 */
module AccessUnits {
  import opened Bytes
  import opened Cleaner
  import AnnexB
  import ExpGolomb
  import VideoDec2

  /** What became of an access unit: the hardware got these bytes; they were too many for it, or none; the checks
      dropped it; or nobody looked at it, recovery being called for. */
  datatype Fate = Consumed(au: Bytes) | Misfit(au: Bytes) | Screened | Unseen

  /** The bytes the hardware got, in order. */
  function Eaten(fates: seq<Fate>): seq<Bytes> {
    if fates == [] then [] else
      Eaten(fates[..|fates| - 1])
      + match fates[|fates| - 1] case Consumed(au) => [au] case _ => []
  }

  lemma EatenAppend(fates: seq<Fate>, f: Fate)
    ensures Eaten(fates + [f]) == Eaten(fates) + (match f case Consumed(au) => [au] case _ => [])
  {
    assert (fates + [f])[..|fates|] == fates;
  }

  /** HEVC: the first slice NAL unit is a RASL picture's; `i` scans for start codes. */
  function RaslFrom(d: Bytes, i: nat): bool
    decreases |d| - i
  {
    if i + 3 >= |d| then false
    else if d[i] == 0 && d[i + 1] == 0 && d[i + 2] == 1 then
      var t := d[i + 3] / 2 % 64;
      if t <= 31 then t == 8 || t == 9 else RaslFrom(d, i + 3)
    else RaslFrom(d, i + 1)
  }

  method HevcAccessUnitIsRasl(d: Bytes) returns (rasl: bool)
    ensures rasl == RaslFrom(d, 0)
  {
    var i := 0;
    while i + 3 < |d|
      invariant RaslFrom(d, 0) == RaslFrom(d, i)
      decreases |d| - i
    {
      if d[i] == 0 && d[i + 1] == 0 && d[i + 2] == 1 {
        var t := d[i + 3] / 2 % 64;
        if t <= 31 {
          return t == 8 || t == 9;
        }
        i := i + 2;
      }
      i := i + 1;
    }
    return false;
  }

  /** The same over NAL units: the first slice decides. */
  predicate FirstSliceIsRasl(nals: seq<Bytes>) {
    nals != []
    && if nals[0] == [] || nals[0][0] / 2 % 64 >= 32 then FirstSliceIsRasl(nals[1..])
       else nals[0][0] / 2 % 64 in {8, 9}
  }

  lemma {:induction false} RaslSkips(d: Bytes, a: nat, b: nat)
    requires a <= b && forall k :: a <= k < b ==> !AnnexB.ShortCodeAt(d, k)
    ensures RaslFrom(d, a) == RaslFrom(d, b)
    decreases b - a
  {
    if a < b {
      assert !AnnexB.ShortCodeAt(d, a);
      RaslSkips(d, a + 1, b);
    }
  }

  /** No start code begins inside a unit. */
  lemma NoCodeBefore(d: Bytes, from: nat, nal: Bytes, tail: Bytes)
    requires AnnexB.StartCodeFree(nal) && from <= |d| && d[from..] == nal + tail
    requires tail == [] || AnnexB.START_CODE <= tail
    ensures forall k :: from <= k < from + |nal| ==> !AnnexB.ShortCodeAt(d, k)
  {
    var all := nal + tail;
    assert forall k :: 0 <= k < |all| ==> d[from + k] == all[k];
    forall k | from <= k < from + |nal|
      ensures !AnnexB.ShortCodeAt(d, k)
    {
      assert !AnnexB.ShortCodeAt(nal, k - from);
      if k + 3 <= |d| {
        assert d[k + 2] == all[k + 2 - from] && d[k + 1] == all[k + 1 - from] && d[k] == all[k - from];
      }
    }
  }

  /** On the streams the codec writes the scan sees the NAL units. */
  lemma {:induction false} RaslOfJoined(nals: seq<Bytes>, before: Bytes)
    requires AnnexB.WellFormedNals(nals)
    ensures RaslFrom(before + AnnexB.Join(nals), |before|) == FirstSliceIsRasl(nals)
    decreases |nals|
  {
    var d, i := before + AnnexB.Join(nals), |before|;
    if nals != [] {
      var nal, tail := nals[0], AnnexB.Join(nals[1..]);
      assert nal in nals && AnnexB.WellFormedNal(nal);
      var next := before + AnnexB.START_CODE + nal;
      assert d == next + tail;
      assert d[i] == 0 && d[i + 1] == 0 && d[i + 2] == 0 && d[i + 3] == 1 && d[i + 4] == nal[0];
      if !IsSlice(true, nal) {
        RaslOfJoined(nals[1..], next);
        assert d[i + 4..] == nal + tail;
        NoCodeBefore(d, i + 4, nal, tail);
        RaslSkips(d, i + 4, |next|);
      }
    }
  }

  /** VP9: the eight bits of the first byte hold frame_marker, profile, show_existing_frame,
      frame_type and show_frame; profile 3 has a reserved bit more. */
  function Vp9FrameIsShown(d: Bytes): bool {
    if d == [] || ExpGolomb.Value(ExpGolomb.BitString(d)[..2]) != 2 then true else
      var bits := ExpGolomb.BitString(d);
      var at := if bits[2] == 1 && bits[3] == 1 then 5 else 4;
      bits[at] == 1 || bits[at + 2] == 1
  }

  /** The same by the first byte: no frame header (its two top bits are 2), or in profile 3 the bits 2 or 0, in the
      others 3 or 1: show_existing_frame or show_frame. */
  predicate ShownByBits(d: Bytes) {
    d == [] || d[0] / 64 != 2
    || if d[0] / 16 % 4 == 3 then d[0] / 4 % 2 == 1 || d[0] % 2 == 1 else d[0] / 8 % 2 == 1 || d[0] / 2 % 2 == 1
  }

  lemma Vp9ByBits(d: Bytes)
    ensures Vp9FrameIsShown(d) == ShownByBits(d)
  {
    hide ExpGolomb.Value, ExpGolomb.BitString;
    if d != [] {
      BitsOfFirst(d);
      TwoBits(ExpGolomb.BitString(d)[..2]);
      TopBits(d[0]);
    }
  }

  lemma TopBits(b: Byte)
    ensures b / 64 == 2 * (b / 128 % 2) + b / 64 % 2 && b / 16 % 4 == 2 * (b / 32 % 2) + b / 16 % 2
  {
    assert b / 128 < 2 && b / 64 / 2 == b / 128 && b / 16 / 2 == b / 32;
  }

  lemma TwoBits(bits: seq<ExpGolomb.Bit>)
    requires |bits| == 2
    ensures ExpGolomb.Value(bits) == 2 * bits[0] as int + bits[1] as int
  {
    assert bits[..1][..0] == [];
    assert ExpGolomb.Value(bits[..1]) == bits[0] as int;
  }

  lemma BitsOfFirst(d: Bytes)
    requires d != []
    ensures
      var bits := ExpGolomb.BitString(d);
      && bits[0] == d[0] / 128 % 2 && bits[1] == d[0] / 64 % 2 && bits[2] == d[0] / 32 % 2 && bits[3] == d[0] / 16 % 2
      && bits[4] == d[0] / 8 % 2 && bits[5] == d[0] / 4 % 2 && bits[6] == d[0] / 2 % 2 && bits[7] == d[0] % 2
  {
    assert ExpGolomb.Pow2(2) == 4 && ExpGolomb.Pow2(4) == 16 && ExpGolomb.Pow2(6) == 64 && ExpGolomb.Pow2(7) == 128;
  }

  /** What units go through on their way to the hardware. */
  datatype Screening = Screening(
    parameterSets: Bytes, prepend: bool, cleanStream: bool, seenIrap: bool,
    cleanNoSlice: nat, cleanWaitIrap: nat, waitKeyframe: bool, skipRasl: bool)

  ghost predicate SetsOk(hevc: bool, c: Screening) {
    c.cleanStream ==> Clean(hevc, c.parameterSets) == c.parameterSets
  }

  /** The same bytes come of a unit in both. */
  predicate SameStream(c: Screening, c': Screening) {
    c'.cleanStream == c.cleanStream && c'.parameterSets == c.parameterSets
  }

  /** An access unit as the hardware gets it, but for parameter sets in front. */
  function Body(hevc: bool, c: Screening, raw: Bytes): Bytes {
    if c.cleanStream then Clean(hevc, raw) else raw
  }

  /** What the hardware gets for a unit that passed the checks. */
  function Offered(hevc: bool, c: Screening, data: Bytes): Bytes {
    (if c.prepend then c.parameterSets else []) + Body(hevc, c, data)
  }

  predicate Unfit(au: Bytes) {
    au == [] || |au| > VideoDec2.INPUT_SIZE
  }

  /** Without a keyframe to start from, without a slice, or a leading picture after a seek. */
  ghost predicate MustDrop(hevc: bool, c: Screening, data: Bytes) {
    MustAwaitKeyframe(hevc, c, data) || MustSkipCleaned(hevc, c, data) || MustSkipRasl(hevc, c, Body(hevc, c, data))
  }

  ghost predicate MustAwaitKeyframe(hevc: bool, c: Screening, data: Bytes) {
    c.waitKeyframe && !HasStart(hevc, AnnexB.Split(data))
  }

  ghost predicate MustSkipCleaned(hevc: bool, c: Screening, data: Bytes) {
    c.cleanStream && (!HasSlice(hevc, AnnexB.Split(data)) || (!c.seenIrap && !HasStart(hevc, AnnexB.Split(data))))
  }

  predicate MustSkipRasl(hevc: bool, c: Screening, body: Bytes) {
    hevc && c.skipRasl && RaslFrom(body, 0)
  }

  // ---- what the checks make of a stream --------------------------------------------

  /** The flags, without the counters of dropped units. */
  function Gate(c: Screening): Screening {
    c.(cleanNoSlice := 0, cleanWaitIrap := 0)
  }

  /** The flags after the checks on a unit. */
  ghost function Checked(hevc: bool, c: Screening, data: Bytes): Screening {
    if MustAwaitKeyframe(hevc, c, data) then c
    else if MustSkipCleaned(hevc, c, data) then c.(waitKeyframe := false)
    else if MustSkipRasl(hevc, c, Body(hevc, c, data)) then
      c.(waitKeyframe := false, seenIrap := c.seenIrap || c.cleanStream)
    else c.(waitKeyframe := false, seenIrap := c.seenIrap || c.cleanStream, skipRasl := c.skipRasl && !hevc)
  }

  /** ... and once it was offered, if it passed them. */
  ghost function GateAfter(hevc: bool, c: Screening, data: Bytes): Screening {
    if MustDrop(hevc, c, data) then Checked(hevc, c, data) else Checked(hevc, c, data).(prepend := false)
  }

  ghost function FateOf(hevc: bool, c: Screening, data: Bytes): Fate {
    if MustDrop(hevc, c, data) then Screened
    else if Unfit(Offered(hevc, c, data)) then Misfit(Offered(hevc, c, data))
    else Consumed(Offered(hevc, c, data))
  }

  datatype Outcome = Outcome(gate: Screening, fates: seq<Fate>)

  /** What becomes of units that come one after the other, from the flags `c` on. */
  ghost function Through(hevc: bool, c: Screening, fed: seq<Bytes>): (o: Outcome)
    ensures |o.fates| == |fed|
  {
    if fed == [] then Outcome(c, []) else
      var (before, data) := (Through(hevc, c, fed[..|fed| - 1]), fed[|fed| - 1]);
      Outcome(GateAfter(hevc, before.gate, data), before.fates + [FateOf(hevc, before.gate, data)])
  }

  /** The flags with which a stream starts: after opening or a seek, or after an error in its middle. */
  function Start(hevc: bool, c: Screening, resync: bool): Screening {
    Screening(c.parameterSets, c.parameterSets != [], c.cleanStream, false, 0, 0, resync, hevc)
  }

  lemma ThroughLast(hevc: bool, c: Screening, fed: seq<Bytes>)
    requires fed != []
    ensures
      var before := Through(hevc, c, fed[..|fed| - 1]);
      Through(hevc, c, fed) == Outcome(GateAfter(hevc, before.gate, fed[|fed| - 1]),
                                       before.fates + [FateOf(hevc, before.gate, fed[|fed| - 1])])
  {
    hide GateAfter, FateOf;
  }

  lemma ThroughMore(hevc: bool, c: Screening, fed: seq<Bytes>, n: nat)
    requires n < |fed|
    ensures
      var before := Through(hevc, c, fed[..n]);
      Through(hevc, c, fed[..n + 1])
      == Outcome(GateAfter(hevc, before.gate, fed[n]), before.fates + [FateOf(hevc, before.gate, fed[n])])
  {
    hide GateAfter, FateOf;
    assert fed[..n + 1][..n] == fed[..n];
  }

  /** The counters decide nothing. */
  lemma GateDecides(hevc: bool, c: Screening, data: Bytes)
    ensures MustDrop(hevc, Gate(c), data) == MustDrop(hevc, c, data)
    ensures Offered(hevc, Gate(c), data) == Offered(hevc, c, data)
    ensures FateOf(hevc, Gate(c), data) == FateOf(hevc, c, data)
    ensures Checked(hevc, Gate(c), data) == Gate(Checked(hevc, c, data))
    ensures GateAfter(hevc, Gate(c), data) == Gate(GateAfter(hevc, c, data))
    ensures SameStream(c, GateAfter(hevc, c, data)) && SameStream(c, Checked(hevc, c, data))
    ensures Offered(hevc, Checked(hevc, c, data), data) == Offered(hevc, c, data)
  {
    hide Clean, HasSlice, HasStart, AnnexB.Split, RaslFrom;
  }

  /** One check after the other. */
  lemma ChecksInTurn(hevc: bool, c: Screening, data: Bytes)
    ensures MustAwaitKeyframe(hevc, c, data) ==> MustDrop(hevc, c, data) && Checked(hevc, c, data) == c && c.waitKeyframe
    ensures
      var c1 := c.(waitKeyframe := false);
      var c2 := c1.(seenIrap := c.seenIrap || c.cleanStream);
      var c3 := c2.(skipRasl := c.skipRasl && !hevc);
      !MustAwaitKeyframe(hevc, c, data) ==>
        if MustSkipCleaned(hevc, c1, data) then MustDrop(hevc, c, data) && Checked(hevc, c, data) == c1
        else if MustSkipRasl(hevc, c2, Body(hevc, c2, data)) then MustDrop(hevc, c, data) && Checked(hevc, c, data) == c2
        else !MustDrop(hevc, c, data) && Checked(hevc, c, data) == c3 && Body(hevc, c2, data) == Body(hevc, c3, data)
  {
    hide Clean, HasSlice, HasStart, AnnexB.Split, RaslFrom;
  }

  lemma FateOfOffered(hevc: bool, c: Screening, data: Bytes)
    requires !MustDrop(hevc, c, data)
    ensures
      var au := Offered(hevc, c, data);
      FateOf(hevc, c, data) == (if Unfit(au) then Misfit(au) else Consumed(au))
    ensures GateAfter(hevc, c, data) == Checked(hevc, c, data).(prepend := false)
  {
    hide MustDrop, Offered, Unfit, Checked;
  }

  lemma DroppedGate(hevc: bool, c: Screening, data: Bytes)
    ensures MustDrop(hevc, c, data) ==>
      FateOf(hevc, c, data) == Screened && GateAfter(hevc, c, data) == Checked(hevc, c, data)
  {
    hide MustDrop, Offered, Unfit, Checked;
  }

  /** What passed the checks once passes them again, offered as it was. */
  lemma PassesAgain(hevc: bool, c: Screening, data: Bytes)
    requires SetsOk(hevc, c) && !MustDrop(hevc, c, data)
    ensures
      var (c', au) := (GateAfter(hevc, c, data), Offered(hevc, c, data));
      !MustDrop(hevc, c', au) && GateAfter(hevc, c', au) == c' && Offered(hevc, c', au) == au
  {
    OfferedIsClean(hevc, c, data);
    hide Clean, HasSlice, HasStart, AnnexB.Split, RaslFrom;
    var c', au := GateAfter(hevc, c, data), Offered(hevc, c, data);
    assert c.cleanStream ==> HasSlice(hevc, AnnexB.Split(data));
    assert [] + au == au;
  }

  lemma OfferedIsClean(hevc: bool, c: Screening, data: Bytes)
    requires SetsOk(hevc, c)
    ensures c.cleanStream && HasSlice(hevc, AnnexB.Split(data)) ==>
      var au := Offered(hevc, c, data);
      Clean(hevc, au) == au && HasSlice(hevc, AnnexB.Split(au))
  {
    hide Clean, HasSlice, AnnexB.Split;
    if c.cleanStream && HasSlice(hevc, AnnexB.Split(data)) {
      CleanIdempotent(hevc, c.parameterSets, data);
      CleanKeepsVerdict(hevc, data);
      SlicesBehindSets(hevc, c.parameterSets, data);
      if c.prepend {
        assert Offered(hevc, c, data) == Clean(hevc, c.parameterSets) + Clean(hevc, data);
      } else {
        CleanIdempotent(hevc, data, data);
        assert Offered(hevc, c, data) == Clean(hevc, data);
      }
    }
  }

  // ---- order under stalls ---------------------------------------------------------

  /** Access units since the decoder last started afresh, and the fates of the first ones; the others wait.
      `passed` of them went through the checks: one that did and still waits is as it was offered. */
  datatype Units = Units(fed: seq<Bytes>, fates: seq<Fate>, passed: nat)

  function NoUnits(): Units {
    Units([], [], 0)
  }

  predicate Prepared(u: Units) {
    u.passed > |u.fates|
  }

  /** Once a unit is unseen all the later ones are. */
  ghost predicate UnseenLast(fates: seq<Fate>) {
    forall i, j :: 0 <= i < j < |fates| && fates[i] == Unseen ==> fates[j] == Unseen
  }

  predicate SomeUnseen(fates: seq<Fate>) {
    Unseen in fates
  }

  /** The fates are those that the checks gave, `fates`, but for units unseen. */
  ghost predicate FatesOk(u: Units, fates: seq<Fate>) {
    && |fates| == u.passed <= |u.fates| + 1 && UnseenLast(u.fates)
    && forall i :: 0 <= i < |u.fates| && u.fates[i] != Unseen ==> i < |fates| && u.fates[i] == fates[i]
  }

  /** The bytes a unit has as it was offered. */
  predicate IsOffered(f: Fate, au: Bytes) {
    f == Consumed(au) || f == Misfit(au)
  }

  /** What waits are the units fed that met no fate yet, in order. */
  ghost predicate InLine(u: Units, pending: seq<Bytes>) {
    && |u.fates| + |pending| == |u.fed| && u.passed <= |u.fed|
    && forall j :: (if Prepared(u) then 1 else 0) <= j < |pending| ==> pending[j] == u.fed[|u.fates| + j]
  }

  /** Every unit fed has met the fate that the checks gave it, or is unseen, or waits, in stream order. */
  ghost predicate Ordered(hevc: bool, resync: bool, c: Screening, u: Units, pending: seq<Bytes>) {
    && InLine(u, pending)
    && var o := Through(hevc, Start(hevc, c, resync), u.fed[..u.passed]);
       && Gate(c) == o.gate && FatesOk(u, o.fates)
       && (Prepared(u) ==> IsOffered(o.fates[|u.fates|], pending[0]) && PassedAsIs(hevc, c, pending[0]))
  }

  /** The flags would let the bytes pass, unchanged, and stay. */
  ghost predicate PassedAsIs(hevc: bool, c: Screening, au: Bytes) {
    !MustDrop(hevc, c, au) && GateAfter(hevc, c, au) == c && Offered(hevc, c, au) == au
  }

  /** Some unit got past the checks. */
  predicate Started(u: Units) {
    Prepared(u) || exists i :: 0 <= i < |u.fates| && u.fates[i] != Screened
  }

  lemma NothingFed(hevc: bool, resync: bool, c: Screening)
    requires Gate(c) == Start(hevc, c, resync)
    ensures Ordered(hevc, resync, c, NoUnits(), []) && Eaten(NoUnits().fates) == [] && !SomeUnseen(NoUnits().fates)
  {
  }

  /** The unit in hand is what the checks saw, or sees them now. */
  lemma InHand(hevc: bool, resync: bool, c: Screening, u: Units, data: Bytes, pending: seq<Bytes>)
    requires Ordered(hevc, resync, c, u, [data] + pending)
    ensures |u.fates| < |u.fed|
    ensures if Prepared(u) then PassedAsIs(hevc, c, data) else data == u.fed[|u.fates|]
  {
    hide Through, PassedAsIs, Gate;
    assert ([data] + pending)[0] == data;
  }

  /** A retried unit is not dropped, and offered as it was. */
  lemma RetriedUnchanged(hevc: bool, resync: bool, c: Screening, u: Units, data: Bytes, pending: seq<Bytes>)
    requires Ordered(hevc, resync, c, u, [data] + pending) && Prepared(u)
    ensures !MustDrop(hevc, c, data) && Offered(hevc, c, data) == data && Checked(hevc, c, data) == c
  {
    InHand(hevc, resync, c, u, data, pending);
    hide Ordered, Clean, HasSlice, HasStart, AnnexB.Split, RaslFrom;
  }

  function Met(u: Units, f: Fate): Units {
    Units(u.fed, u.fates + [f], if f == Unseen then u.passed else |u.fates| + 1)
  }

  function Waiting(u: Units): Units {
    u.(passed := |u.fates| + 1)
  }

  /** What becomes of the unit in hand: unseen, dropped by the checks, of an unfit size, given to the hardware, or
      kept waiting in front of the others. */
  ghost predicate Settled(hevc: bool, c: Screening, unseen: bool, u: Units, u': Units,
                          queue: seq<Bytes>, queue': seq<Bytes>, data: Bytes) {
    var f := if unseen then Unseen else FateOf(hevc, c, data);
    if f.Consumed? && |queue'| != |queue| then u' == Waiting(u) && queue' == [f.au] + queue
    else u' == Met(u, f) && queue' == queue
  }

  /** New or retried, a unit meets the fate that the checks give it in stream order. */
  lemma FateInOrder(hevc: bool, resync: bool, c: Screening, u: Units, data: Bytes, pending: seq<Bytes>)
    requires Ordered(hevc, resync, c, u, [data] + pending) && !SomeUnseen(u.fates)
    ensures |u.fates| < |u.fed|
    ensures
      var (n, start) := (|u.fates|, Start(hevc, c, resync));
      && Through(hevc, start, u.fed[..n]).fates == u.fates
      && Through(hevc, start, u.fed[..n + 1])
         == Outcome(Gate(GateAfter(hevc, c, data)), u.fates + [FateOf(hevc, c, data)])
  {
    hide Through, Checked, MustDrop, Offered, GateAfter, Unfit, FateOf, Ordered, FatesOk, PassedAsIs;
    InHand(hevc, resync, c, u, data, pending);
    var n, start := |u.fates|, Start(hevc, c, resync);
    PassedUnits(hevc, resync, c, u, [data] + pending);
    ThroughMore(hevc, start, u.fed, n);
    GateDecides(hevc, c, data);
    assert ([data] + pending)[0] == data;
    if Prepared(u) {
      FateAsIs(hevc, c, Through(hevc, start, u.fed[..n]).gate, u.fed[n], data);
    }
  }

  /** Without an unseen unit those that passed the checks are those with a fate, and perhaps the first that waits. */
  lemma PassedUnits(hevc: bool, resync: bool, c: Screening, u: Units, pending: seq<Bytes>)
    requires Ordered(hevc, resync, c, u, pending) && !SomeUnseen(u.fates)
    ensures InLine(u, pending) && |u.fates| <= u.passed <= |u.fates| + 1
    ensures
      var o := Through(hevc, Start(hevc, c, resync), u.fed[..u.passed]);
      && o.gate == Gate(c) && u.fates == o.fates[..|u.fates|] && (!Prepared(u) ==> u.fates == o.fates)
      && (Prepared(u) ==> IsOffered(o.fates[|u.fates|], pending[0]) && PassedAsIs(hevc, c, pending[0]))
  {
    hide Through, PassedAsIs;
    NoneUnseen(u, Through(hevc, Start(hevc, c, resync), u.fed[..u.passed]).fates);
  }

  /** A fate is that of the bytes offered. */
  lemma FateAsIs(hevc: bool, c: Screening, before: Screening, raw: Bytes, au: Bytes)
    requires IsOffered(FateOf(hevc, before, raw), au) && PassedAsIs(hevc, c, au)
    ensures FateOf(hevc, c, au) == FateOf(hevc, before, raw) && GateAfter(hevc, c, au) == c
  {
    hide MustDrop, Offered, Unfit, GateAfter;
  }

  lemma NoneUnseen(u: Units, fates: seq<Fate>)
    requires FatesOk(u, fates) && !SomeUnseen(u.fates)
    ensures |u.fates| <= u.passed && u.fates == fates[..|u.fates|]
  {
    forall i | 0 <= i < |u.fates|
      ensures i < u.passed && u.fates[i] == fates[i]
    {
      assert u.fates[i] in u.fates;
    }
    if u.fates != [] {
      var i := |u.fates| - 1;
      assert u.fates[i] in u.fates;
      assert i < u.passed;
    }
  }

  lemma LineMoves(u: Units, data: Bytes, pending: seq<Bytes>, f: Fate)
    requires InLine(u, [data] + pending) && u.passed <= |u.fates| + 1
    ensures InLine(Met(u, f), pending)
  {
    forall j | 0 <= j < |pending|
      ensures pending[j] == u.fed[|u.fates| + 1 + j]
    {
      assert ([data] + pending)[j + 1] == pending[j];
    }
  }

  /** The unit in hand meets its fate. */
  lemma MeetsFate(hevc: bool, resync: bool, c: Screening, c': Screening, u: Units, data: Bytes, queue: seq<Bytes>)
    requires Ordered(hevc, resync, c, u, [data] + queue) && !SomeUnseen(u.fates)
    requires Gate(c') == Gate(GateAfter(hevc, c, data))
    ensures
      var f := FateOf(hevc, c, data);
      var u' := Met(u, f);
      && Ordered(hevc, resync, c', u', queue) && !SomeUnseen(u'.fates) && u'.fed == u.fed
      && Eaten(u'.fates) == Eaten(u.fates) + (if f.Consumed? then [f.au] else [])
      && (Started(u) || f != Screened ==> Started(u')) && Settled(hevc, c, false, u, u', queue, queue, data)
  {
    hide Through, GateAfter, MustDrop, Offered, Eaten, Started, InLine, FateOf, Ordered;
    FateInOrder(hevc, resync, c, u, data, queue);
    GateDecides(hevc, c, data);
    var f := FateOf(hevc, c, data);
    FateIsSeen(hevc, c, data);
    PassedUnits(hevc, resync, c, u, [data] + queue);
    LineMoves(u, data, queue, f);
    EatenAppend(u.fates, f);
    StartedMore(hevc, resync, c, u, data, queue, f);
    SameStart(hevc, resync, c, c', data);
    AllSeen(hevc, resync, c', Met(u, f), queue);
  }

  lemma FateIsSeen(hevc: bool, c: Screening, data: Bytes)
    ensures FateOf(hevc, c, data) != Unseen
  {
    hide MustDrop, Offered, Unfit;
  }

  /** Nothing waits that passed the checks. */
  lemma AllSeen(hevc: bool, resync: bool, c: Screening, u: Units, pending: seq<Bytes>)
    requires InLine(u, pending) && u.passed == |u.fates| && !SomeUnseen(u.fates)
    requires Through(hevc, Start(hevc, c, resync), u.fed[..u.passed]) == Outcome(Gate(c), u.fates)
    ensures Ordered(hevc, resync, c, u, pending)
  {
    hide Through, InLine;
    forall i | 0 <= i < |u.fates|
      ensures u.fates[i] != Unseen
    {
      assert u.fates[i] in u.fates;
    }
  }

  lemma SameStart(hevc: bool, resync: bool, c: Screening, c': Screening, data: Bytes)
    requires Gate(c') == Gate(GateAfter(hevc, c, data))
    ensures Start(hevc, c', resync) == Start(hevc, c, resync)
  {
    GateDecides(hevc, c, data);
    hide GateAfter;
  }

  lemma StartedMore(hevc: bool, resync: bool, c: Screening, u: Units, data: Bytes, queue: seq<Bytes>, f: Fate)
    requires Ordered(hevc, resync, c, u, [data] + queue) && (f == Screened ==> f == FateOf(hevc, c, data))
    ensures Started(u) || f != Screened ==> Started(Met(u, f))
  {
    var u' := Met(u, f);
    if Prepared(u) {
      RetriedUnchanged(hevc, resync, c, u, data, queue);
      assert u'.fates[|u.fates|] == f;
    } else if Started(u) {
      var i :| 0 <= i < |u.fates| && u.fates[i] != Screened;
      assert u'.fates[i] != Screened;
    } else if f != Screened {
      assert u'.fates[|u.fates|] != Screened;
    }
  }

  /** Nobody looks at the unit in hand. */
  lemma GoesUnseen(hevc: bool, resync: bool, c: Screening, u: Units, data: Bytes, queue: seq<Bytes>)
    requires Ordered(hevc, resync, c, u, [data] + queue)
    ensures
      var u' := Met(u, Unseen);
      && Ordered(hevc, resync, c, u', queue) && u'.fed == u.fed && Eaten(u'.fates) == Eaten(u.fates) && Started(u')
      && Settled(hevc, c, true, u, u', queue, queue, data)
  {
    hide Through, Eaten, Started, InLine, PassedAsIs, FateOf, Gate, Start;
    LineMoves(u, data, queue, Unseen);
    EatenAppend(u.fates, Unseen);
    StartedMore(hevc, resync, c, u, data, queue, Unseen);
  }

  /** The unit in hand goes back to the front of the queue, as it was offered. */
  lemma Waits(hevc: bool, resync: bool, c: Screening, c': Screening, u: Units, data: Bytes, queue: seq<Bytes>)
    requires Ordered(hevc, resync, c, u, [data] + queue) && !SomeUnseen(u.fates) && SetsOk(hevc, c)
    requires c' == GateAfter(hevc, c, data) && FateOf(hevc, c, data).Consumed?
    ensures Ordered(hevc, resync, c', Waiting(u), [FateOf(hevc, c, data).au] + queue) && Started(Waiting(u))
    ensures Settled(hevc, c, false, u, Waiting(u), queue, [FateOf(hevc, c, data).au] + queue, data)
  {
    hide Through, GateAfter, MustDrop, Offered, InLine, FateOf, PassedAsIs, Ordered, Unfit;
    FateInOrder(hevc, resync, c, u, data, queue);
    PassesAsIs(hevc, c, data);
    PassedUnits(hevc, resync, c, u, [data] + queue);
    SameStart(hevc, resync, c, c', data);
    var au := FateOf(hevc, c, data).au;
    WaitsInLine(u, data, queue, au);
    PreparedNow(hevc, resync, c', Waiting(u), [au] + queue);
  }

  lemma PassesAsIs(hevc: bool, c: Screening, data: Bytes)
    requires SetsOk(hevc, c) && FateOf(hevc, c, data).Consumed?
    ensures PassedAsIs(hevc, GateAfter(hevc, c, data), FateOf(hevc, c, data).au)
  {
    hide MustDrop, Offered, Unfit, GateAfter, SetsOk;
    PassesAgain(hevc, c, data);
  }

  lemma PreparedNow(hevc: bool, resync: bool, c: Screening, u: Units, pending: seq<Bytes>)
    requires InLine(u, pending) && u.passed == |u.fates| + 1 && !SomeUnseen(u.fates) && pending != []
    requires Through(hevc, Start(hevc, c, resync), u.fed[..u.passed])
             == Outcome(Gate(c), u.fates + [Consumed(pending[0])])
    requires PassedAsIs(hevc, c, pending[0])
    ensures Ordered(hevc, resync, c, u, pending)
  {
    hide Through, InLine, PassedAsIs;
    forall i | 0 <= i < |u.fates|
      ensures u.fates[i] != Unseen
    {
      assert u.fates[i] in u.fates;
    }
  }

  lemma WaitsInLine(u: Units, data: Bytes, queue: seq<Bytes>, au: Bytes)
    requires InLine(u, [data] + queue)
    ensures InLine(Waiting(u), [au] + queue)
  {
    forall j | 1 <= j < |queue| + 1
      ensures ([au] + queue)[j] == u.fed[|u.fates| + j]
    {
      assert ([au] + queue)[j] == queue[j - 1] == ([data] + queue)[j];
    }
  }

  lemma LineGrows(u: Units, pending: seq<Bytes>, au: Bytes)
    requires InLine(u, pending)
    ensures InLine(u.(fed := u.fed + [au]), pending + [au]) && u.passed <= |u.fed|
    ensures Prepared(u) ==> pending != [] && (pending + [au])[0] == pending[0]
  {
  }

  /** A unit more behind the others. */
  lemma Queues(hevc: bool, resync: bool, c: Screening, u: Units, pending: seq<Bytes>, au: Bytes)
    requires Ordered(hevc, resync, c, u, pending)
    ensures Ordered(hevc, resync, c, u.(fed := u.fed + [au]), pending + [au])
  {
    hide Through, PassedAsIs, InLine;
    LineGrows(u, pending, au);
    assert (u.fed + [au])[..u.passed] == u.fed[..u.passed];
  }

  /** Only after a resync are units kept back up to a keyframe. */
  lemma {:induction false} WaitsAfterResync(hevc: bool, c: Screening, fed: seq<Bytes>)
    requires !c.waitKeyframe
    ensures !Through(hevc, c, fed).gate.waitKeyframe
  {
    if fed != [] {
      WaitsAfterResync(hevc, c, fed[..|fed| - 1]);
      hide MustSkipCleaned, MustSkipRasl;
    }
  }

  lemma NoResyncNoWait(hevc: bool, c: Screening, u: Units, pending: seq<Bytes>)
    requires Ordered(hevc, false, c, u, pending)
    ensures !c.waitKeyframe
  {
    WaitsAfterResync(hevc, Start(hevc, c, false), u.fed[..u.passed]);
    hide Through, FatesOk, InLine;
  }

  // ---- the stream the hardware is to get -----------------------------------------------

  ghost predicate KeySeen(hevc: bool, fed: seq<Bytes>) {
    exists data :: data in fed && KeyInside(hevc, data)
  }

  /** A unit the hardware is not to get: before the first keyframe - `key` tells whether it came - of a cleaned stream
      or after an error in the middle; without a slice in a cleaned one; a leading picture before anything else. */
  ghost predicate PassedOver(hevc: bool, clean: bool, resync: bool, key: bool, first: bool, data: Bytes) {
    || ((clean || resync) && !key)
    || (clean && !SliceInside(hevc, data))
    || (hevc && first && RaslFrom(if clean then Clean(hevc, data) else data, 0))
  }

  /** All others in order, cleaned or as they are, the parameter sets in front of the first. */
  ghost function Stream(hevc: bool, sets: Bytes, clean: bool, resync: bool, fed: seq<Bytes>): seq<Bytes> {
    if fed == [] then [] else
      Streamed(hevc, sets, clean, resync, KeySeen(hevc, fed), Stream(hevc, sets, clean, resync, fed[..|fed| - 1]),
               fed[|fed| - 1])
  }

  /** ... with a unit more. */
  ghost function Streamed(hevc: bool, sets: Bytes, clean: bool, resync: bool, key: bool, before: seq<Bytes>,
                          data: Bytes): seq<Bytes> {
    if PassedOver(hevc, clean, resync, key, before == [], data) then before
    else before + [(if before == [] then sets else []) + if clean then Clean(hevc, data) else data]
  }

  /** Units of a size the hardware takes: up to 8 MiB, and not empty. */
  function Fitting(aus: seq<Bytes>): seq<Bytes> {
    if aus == [] then [] else
      Fitting(aus[..|aus| - 1]) + if 0 < |aus[|aus| - 1]| <= 0x80_0000 then [aus[|aus| - 1]] else []
  }

  lemma FittingMore(aus: seq<Bytes>, au: Bytes)
    ensures Fitting(aus + [au]) == Fitting(aus) + if Unfit(au) then [] else [au]
  {
    assert (aus + [au])[..|aus|] == aus;
  }

  lemma KeyMore(hevc: bool, fed: seq<Bytes>)
    requires fed != []
    ensures KeySeen(hevc, fed) <==> KeySeen(hevc, fed[..|fed| - 1]) || KeyInside(hevc, fed[|fed| - 1])
  {
    hide KeyInside;
    assert forall data :: data in fed <==> data in fed[..|fed| - 1] || data == fed[|fed| - 1];
  }

  lemma KeyStays(hevc: bool, fed: seq<Bytes>, k: nat)
    requires k <= |fed| && KeySeen(hevc, fed[..k])
    ensures KeySeen(hevc, fed)
  {
    hide KeyInside;
    var data :| data in fed[..k] && KeyInside(hevc, data);
    assert data in fed;
  }

  /** The flags after the checks on units: a keyframe came, or not; some unit passed, or none. */
  function StreamGate(hevc: bool, c: Screening, resync: bool, key: bool, started: bool): Screening {
    Start(hevc, c, resync).(waitKeyframe := resync && !key, seenIrap := c.cleanStream && key,
                            skipRasl := hevc && !started, prepend := c.parameterSets != [] && !started)
  }

  /** The checks pass over the units they should, and no others. */
  lemma StreamStep(hevc: bool, c: Screening, resync: bool, key: bool, started: bool, data: Bytes)
    ensures
      var (gate, key') := (StreamGate(hevc, c, resync, key, started), key || KeyInside(hevc, data));
      if PassedOver(hevc, c.cleanStream, resync, key', !started, data) then
        && FateOf(hevc, gate, data) == Screened
        && GateAfter(hevc, gate, data) == StreamGate(hevc, c, resync, key', started)
      else
        var au := (if started then [] else c.parameterSets) + Body(hevc, c, data);
        && FateOf(hevc, gate, data) == (if Unfit(au) then Misfit(au) else Consumed(au))
        && GateAfter(hevc, gate, data) == StreamGate(hevc, c, resync, key', true)
  {
    InsideByType(hevc, data);
    hide Clean, HasSlice, HasStart, AnnexB.Split, RaslFrom, KeyInside, SliceInside, Unfit;
    assert [] + Body(hevc, c, data) == Body(hevc, c, data);
  }

  function BytesOf(f: Fate): Bytes {
    match f
    case Consumed(au) => au
    case Misfit(au) => au
    case _ => []
  }

  /** A unit with that fate: passed over, or last in the stream. */
  ghost predicate Adds(before: seq<Bytes>, f: Fate, after: seq<Bytes>) {
    && (if f == Screened then after == before else after == before + [BytesOf(f)])
    && Fitting(after) == Fitting(before) + if f.Consumed? then [f.au] else []
  }

  lemma StreamNext(hevc: bool, c: Screening, resync: bool, key: bool, before: seq<Bytes>, data: Bytes)
    ensures
      var (gate, key') := (StreamGate(hevc, c, resync, key, before != []), key || KeyInside(hevc, data));
      var after := Streamed(hevc, c.parameterSets, c.cleanStream, resync, key', before, data);
      && GateAfter(hevc, gate, data) == StreamGate(hevc, c, resync, key', after != [])
      && Adds(before, FateOf(hevc, gate, data), after)
      && (FateOf(hevc, gate, data) == Screened
          <==> PassedOver(hevc, c.cleanStream, resync, key', before == [], data))
  {
    hide Unfit, RaslFrom, GateAfter, StreamGate, FateOf, Fitting, PassedOver, KeyInside, Clean;
    StreamStep(hevc, c, resync, key, before != [], data);
    var au := (if before == [] then c.parameterSets else []) + if c.cleanStream then Clean(hevc, data) else data;
    FittingMore(before, au);
    assert Fitting(before) + [] == Fitting(before);
  }

  /** What the checks make of units and what they should make of them, side by side. */
  ghost predicate InStep(hevc: bool, c: Screening, resync: bool, fed: seq<Bytes>) {
    var (o, stream) := (Through(hevc, Start(hevc, c, resync), fed),
                        Stream(hevc, c.parameterSets, c.cleanStream, resync, fed));
    && o.gate == StreamGate(hevc, c, resync, KeySeen(hevc, fed), stream != []) && Eaten(o.fates) == Fitting(stream)
  }

  lemma StreamMore(hevc: bool, sets: Bytes, clean: bool, resync: bool, fed: seq<Bytes>)
    requires fed != []
    ensures Stream(hevc, sets, clean, resync, fed)
            == Streamed(hevc, sets, clean, resync, KeySeen(hevc, fed),
                        Stream(hevc, sets, clean, resync, fed[..|fed| - 1]), fed[|fed| - 1])
  {
    hide Streamed, KeySeen;
  }

  lemma StreamLast(hevc: bool, c: Screening, resync: bool, fed: seq<Bytes>)
    requires fed != [] && InStep(hevc, c, resync, fed[..|fed| - 1])
    ensures InStep(hevc, c, resync, fed)
    ensures
      var (front, data) := (fed[..|fed| - 1], fed[|fed| - 1]);
      var (sets, clean) := (c.parameterSets, c.cleanStream);
      var f := Through(hevc, Start(hevc, c, resync), fed).fates[|fed| - 1];
      && Adds(Stream(hevc, sets, clean, resync, front), f, Stream(hevc, sets, clean, resync, fed))
      && (f == Screened
          <==> PassedOver(hevc, clean, resync, KeySeen(hevc, fed), Stream(hevc, sets, clean, resync, front) == [],
                          data))
  {
    hide GateAfter, StreamGate, FateOf, Fitting, PassedOver, KeyInside, KeySeen, Through, Stream, Streamed, Eaten,
         Unfit;
    var front, data := fed[..|fed| - 1], fed[|fed| - 1];
    var before := Through(hevc, Start(hevc, c, resync), front);
    ThroughLast(hevc, Start(hevc, c, resync), fed);
    StreamMore(hevc, c.parameterSets, c.cleanStream, resync, fed);
    KeyMore(hevc, fed);
    EatenAppend(before.fates, FateOf(hevc, before.gate, data));
    StreamNext(hevc, c, resync, KeySeen(hevc, front), Stream(hevc, c.parameterSets, c.cleanStream, resync, front),
               data);
  }

  lemma NothingStreamed(hevc: bool, c: Screening, resync: bool)
    ensures InStep(hevc, c, resync, [])
  {
  }

  /** Whatever the stream, the checks let through what the hardware is to get, with the bytes it is to get. */
  lemma {:induction false} StreamThrough(hevc: bool, c: Screening, resync: bool, fed: seq<Bytes>)
    ensures
      var (o, stream) := (Through(hevc, Start(hevc, c, resync), fed),
                          Stream(hevc, c.parameterSets, c.cleanStream, resync, fed));
      && o.gate == StreamGate(hevc, c, resync, KeySeen(hevc, fed), stream != []) && Eaten(o.fates) == Fitting(stream)
    decreases |fed|
  {
    hide Through, Stream, Eaten, Fitting, StreamGate, KeySeen;
    if fed == [] {
      NothingStreamed(hevc, c, resync);
    } else {
      StreamThrough(hevc, c, resync, fed[..|fed| - 1]);
      StreamLast(hevc, c, resync, fed);
    }
  }

  /** The fate of unit `i`. */
  lemma FateByRule(hevc: bool, c: Screening, resync: bool, fed: seq<Bytes>, i: nat)
    requires i < |fed|
    ensures
      var (sets, clean) := (c.parameterSets, c.cleanStream);
      var f := Through(hevc, Start(hevc, c, resync), fed).fates[i];
      && Adds(Stream(hevc, sets, clean, resync, fed[..i]), f, Stream(hevc, sets, clean, resync, fed[..i + 1]))
      && (f == Screened
          <==> PassedOver(hevc, clean, resync, KeySeen(hevc, fed[..i + 1]),
                          Stream(hevc, sets, clean, resync, fed[..i]) == [], fed[i]))
  {
    hide Through, Stream, Adds, PassedOver, KeySeen, StreamGate, Eaten, Fitting;
    var front := fed[..i + 1];
    assert front[..|front| - 1] == fed[..i] && front[|front| - 1] == fed[i];
    StreamThrough(hevc, c, resync, front[..|front| - 1]);
    StreamLast(hevc, c, resync, front);
    FateStays(hevc, Start(hevc, c, resync), fed, i);
  }

  lemma {:induction false} FateStays(hevc: bool, c: Screening, fed: seq<Bytes>, i: nat)
    requires i < |fed|
    ensures Through(hevc, c, fed).fates[i] == Through(hevc, c, fed[..i + 1]).fates[i]
    decreases |fed|
  {
    hide GateAfter, FateOf;
    if i == |fed| - 1 {
      assert fed[..i + 1] == fed;
    } else {
      FateStays(hevc, c, fed[..|fed| - 1], i);
      assert fed[..|fed| - 1][..i + 1] == fed[..i + 1];
    }
  }

  // ---- what was consumed and what waits ------------------------------------------------

  lemma LineIsRest(u: Units, pending: seq<Bytes>)
    requires InLine(u, pending) && u.passed <= |u.fates| + 1
    ensures |u.fates| <= |u.fed| && (pending == [] ==> u.fed[..|u.fates|] == u.fed)
    ensures if Prepared(u) then |u.fates| < |u.fed| && pending != [] && pending == [pending[0]] + u.fed[|u.fates| + 1..]
            else pending == u.fed[|u.fates|..]
  {
    if Prepared(u) {
      assert pending[1..] == u.fed[|u.fates| + 1..];
    }
  }

  lemma OfferedBytes(f: Fate, au: Bytes)
    requires IsOffered(f, au)
    ensures BytesOf(f) == au && f != Screened
  {
  }

  /** Once a unit of a stream that is not cleaned was let through all the later ones are, as they are. */
  lemma {:induction false} StreamTail(hevc: bool, sets: Bytes, resync: bool, fed: seq<Bytes>, k: nat)
    requires k <= |fed| && Stream(hevc, sets, false, resync, fed[..k]) != []
    ensures Stream(hevc, sets, false, resync, fed) == Stream(hevc, sets, false, resync, fed[..k]) + fed[k..]
    decreases |fed|
  {
    hide RaslFrom, KeySeen;
    if k == |fed| {
      assert fed[..k] == fed;
    } else {
      var front := fed[..|fed| - 1];
      assert front[..k] == fed[..k];
      StreamTail(hevc, sets, resync, front, k);
      StreamHasKey(hevc, sets, resync, fed[..k]);
      if resync {
        KeyStays(hevc, fed, k);
      }
      assert [] + fed[|fed| - 1] == fed[|fed| - 1];
      assert fed[k..] == front[k..] + [fed[|fed| - 1]];
    }
  }

  lemma {:induction false} StreamHasKey(hevc: bool, sets: Bytes, resync: bool, fed: seq<Bytes>)
    ensures resync && Stream(hevc, sets, false, resync, fed) != [] ==> KeySeen(hevc, fed)
  {
    hide RaslFrom, KeyInside;
    if fed != [] {
      StreamHasKey(hevc, sets, resync, fed[..|fed| - 1]);
      KeyMore(hevc, fed);
    }
  }

  /** The hardware got all units of the stream but those of an unfit size, in order, up to those that wait. */
  lemma StreamOrder(hevc: bool, resync: bool, c: Screening, u: Units, pending: seq<Bytes>)
    requires Ordered(hevc, resync, c, u, pending) && !SomeUnseen(u.fates)
    requires pending != [] ==> Started(u)
    ensures |u.fates| <= |u.fed|
    ensures
      var (sets, clean) := (c.parameterSets, c.cleanStream);
      var through := Stream(hevc, sets, clean, resync, u.fed[..|u.fates|]);
      && Eaten(u.fates) == Fitting(through)
      && (!clean ==> Stream(hevc, sets, clean, resync, u.fed) == through + pending)
      && (clean && Prepared(u) ==>
            |u.fates| < |u.fed| && pending != []
            && Stream(hevc, sets, clean, resync, u.fed[..|u.fates| + 1]) == through + [pending[0]])
  {
    hide Through, Stream, Fitting, Eaten, PassedAsIs, Ordered, BytesOf, InLine, Started, PassedOver, KeySeen,
         StreamGate;
    var n, start := |u.fates|, Start(hevc, c, resync);
    PassedUnits(hevc, resync, c, u, pending);
    LineIsRest(u, pending);
    assert u.fed[..u.passed][..n] == u.fed[..n];
    FatesFirst(hevc, start, u.fed[..u.passed], n);
    StreamThrough(hevc, c, resync, u.fed[..n]);
    if Prepared(u) {
      assert u.fed[..u.passed] == u.fed[..n + 1];
      FateByRule(hevc, c, resync, u.fed[..n + 1], n);
      assert u.fed[..n + 1][..n] == u.fed[..n] && u.fed[..n + 1][..n + 1] == u.fed[..n + 1];
      OfferedBytes(Through(hevc, start, u.fed[..n + 1]).fates[n], pending[0]);
      if !c.cleanStream {
        StreamTail(hevc, c.parameterSets, resync, u.fed, n + 1);
      }
    } else if pending == [] {
      assert u.fed[..n] == u.fed;
    } else if !c.cleanStream {
      SomePassed(hevc, resync, c, u, pending);
      StreamTail(hevc, c.parameterSets, resync, u.fed, n);
    }
  }

  lemma {:induction false} FatesFirst(hevc: bool, c: Screening, fed: seq<Bytes>, n: nat)
    requires n <= |fed|
    ensures Through(hevc, c, fed[..n]).fates == Through(hevc, c, fed).fates[..n]
    decreases |fed|
  {
    hide GateAfter, FateOf;
    if n == |fed| {
      assert fed[..n] == fed;
    } else {
      FatesFirst(hevc, c, fed[..|fed| - 1], n);
      assert fed[..|fed| - 1][..n] == fed[..n];
    }
  }

  lemma SomePassed(hevc: bool, resync: bool, c: Screening, u: Units, pending: seq<Bytes>)
    requires Ordered(hevc, resync, c, u, pending) && !SomeUnseen(u.fates) && Started(u) && !Prepared(u)
    ensures |u.fates| <= |u.fed|
    ensures Stream(hevc, c.parameterSets, c.cleanStream, resync, u.fed[..|u.fates|]) != []
  {
    var i :| 0 <= i < |u.fates| && u.fates[i] != Screened;
    hide Through, Stream, PassedAsIs, Ordered, BytesOf, InLine, PassedOver, KeySeen, Fitting;
    PassedUnits(hevc, resync, c, u, pending);
    LineIsRest(u, pending);
    FateByRule(hevc, c, resync, u.fed[..|u.fates|], i);
    StreamGrows(hevc, c.parameterSets, c.cleanStream, resync, u.fed[..|u.fates|], i + 1);
  }

  lemma {:induction false} StreamGrows(hevc: bool, sets: Bytes, clean: bool, resync: bool, fed: seq<Bytes>, k: nat)
    requires k <= |fed|
    ensures Stream(hevc, sets, clean, resync, fed[..k]) != [] ==> Stream(hevc, sets, clean, resync, fed) != []
    decreases |fed|
  {
    hide PassedOver, KeySeen;
    if k == |fed| {
      assert fed[..k] == fed;
    } else {
      StreamGrows(hevc, sets, clean, resync, fed[..|fed| - 1], k);
      assert fed[..|fed| - 1][..k] == fed[..k];
    }
  }

  // ---- resuming at a keyframe ----------------------------------------------------------

  /** Unit `i` and those before it have no key picture inside. */
  ghost predicate NoKeyUpTo(hevc: bool, fed: seq<Bytes>, i: nat) {
    forall j :: 0 <= j <= i && j < |fed| ==> !KeyInside(hevc, fed[j])
  }

  /** Nothing is let through before a unit with a slice that decoding can start from; so the first unit consumed
      comes with or after one. */
  ghost predicate ResumesAtKey(hevc: bool, u: Units, consumed: seq<Bytes>) {
    && |u.fates| <= |u.fed|
    && (forall i :: 0 <= i < |u.fates| && NoKeyUpTo(hevc, u.fed, i) ==> u.fates[i] in {Screened, Unseen})
    && (consumed != [] ==>
          exists i :: 0 <= i < |u.fates| && u.fates[i] == Consumed(consumed[0]) && !NoKeyUpTo(hevc, u.fed, i)
                      && forall j :: 0 <= j < i ==> !u.fates[j].Consumed?)
  }

  lemma {:induction false} FirstEaten(fates: seq<Fate>)
    requires Eaten(fates) != []
    ensures exists i :: 0 <= i < |fates| && fates[i] == Consumed(Eaten(fates)[0])
                        && forall j :: 0 <= j < i ==> !fates[j].Consumed?
  {
    var (front, last) := (fates[..|fates| - 1], fates[|fates| - 1]);
    if Eaten(front) != [] {
      FirstEaten(front);
      var i :| 0 <= i < |front| && front[i] == Consumed(Eaten(front)[0])
        && forall j :: 0 <= j < i ==> !front[j].Consumed?;
      assert fates[i] == Consumed(Eaten(fates)[0]) && forall j :: 0 <= j < i ==> fates[j] == front[j];
    } else {
      NoneEaten(front);
      assert fates[|fates| - 1] == Consumed(Eaten(fates)[0]) && forall j :: 0 <= j < |front| ==> fates[j] == front[j];
    }
  }

  lemma {:induction false} NoneEaten(fates: seq<Fate>)
    requires Eaten(fates) == []
    ensures forall j :: 0 <= j < |fates| ==> !fates[j].Consumed?
  {
    if fates != [] {
      NoneEaten(fates[..|fates| - 1]);
    }
  }

  lemma NoKeyScreened(hevc: bool, c: Screening, fed: seq<Bytes>, i: nat)
    requires i < |fed| && NoKeyUpTo(hevc, fed, i)
    ensures Through(hevc, Start(hevc, c, true), fed).fates[i] == Screened
  {
    hide Through, Stream, KeyInside, RaslFrom, Adds;
    FateByRule(hevc, c, true, fed, i);
    assert !KeySeen(hevc, fed[..i + 1]);
  }

  /** After an error in the middle of a stream, in every run. */
  lemma Resumes(hevc: bool, c: Screening, u: Units, pending: seq<Bytes>)
    requires Ordered(hevc, true, c, u, pending)
    ensures ResumesAtKey(hevc, u, Eaten(u.fates))
  {
    hide Through, Eaten, PassedAsIs, KeyInside, NoKeyUpTo;
    var fed := u.fed[..u.passed];
    forall i | 0 <= i < |u.fates| && NoKeyUpTo(hevc, u.fed, i)
      ensures u.fates[i] in {Screened, Unseen}
    {
      if u.fates[i] != Unseen {
        NoKeyOfFirst(hevc, u.fed, u.passed, i);
        NoKeyScreened(hevc, c, fed, i);
      }
    }
    if Eaten(u.fates) != [] {
      FirstEaten(u.fates);
    }
  }

  lemma NoKeyOfFirst(hevc: bool, fed: seq<Bytes>, n: nat, i: nat)
    requires i < n <= |fed| && NoKeyUpTo(hevc, fed, i)
    ensures NoKeyUpTo(hevc, fed[..n], i)
  {
    hide KeyInside;
  }
}
