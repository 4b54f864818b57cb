/**
 The parameter sets of a stream, out of its configuration record (sections 5.3.3.1 and
 8.3.3.1 of ISO/IEC 14496-15), as Annex B bytes.
 */
module ParameterSets {
  import opened Bytes
  import opened AnnexB
  import opened Wrappers

  datatype StreamCodec = H264 | Hevc | Vp9

  const AVC_HEADER: nat := 6
  const HEVC_HEADER: nat := 23

  /** A parsed list; `end` is where it stops, or nothing when an entry overran the record. */
  datatype Entries = Entries(nals: seq<Bytes>, end: Option<nat>)

  /** Up to `count` entries from `pos`, each a 16-bit length and that many bytes. */
  function Parse(d: Bytes, pos: nat, count: nat): (e: Entries)
    requires pos <= |d|
    ensures e.end.Some? ==> pos <= e.end.value <= |d|
    decreases count
  {
    if count == 0 || pos + 2 > |d| then Entries([], Some(pos))
    else
      var next := pos + 2 + U16(d[pos], d[pos + 1]);
      if next > |d| then Entries([], None)
      else
        var rest := Parse(d, next, count - 1);
        rest.(nals := [d[pos + 2..next]] + rest.nals)
  }

  /** SPS list, then PPS list. */
  function AvcSets(d: Bytes): seq<Bytes> {
    if |d| < AVC_HEADER + 1 then [] else
      var sps := Parse(d, AVC_HEADER, d[5] % 32);
      sps.nals + match sps.end
                 case Some(p) => if p < |d| then Parse(d, p + 1, d[p]).nals else []
                 case None => []
  }

  /** Arrays of entries, each behind a type byte and a 16-bit count. */
  function HevcArrays(d: Bytes, pos: nat, arrays: nat): seq<Bytes>
    requires pos <= |d|
    decreases arrays
  {
    if arrays == 0 || pos + 3 > |d| then [] else
      var e := Parse(d, pos + 3, U16(d[pos + 1], d[pos + 2]));
      e.nals + match e.end
               case Some(p) => HevcArrays(d, p, arrays - 1)
               case None => []
  }

  function RecordSets(codec: StreamCodec, d: Bytes): seq<Bytes> {
    match codec
    case H264 => AvcSets(d)
    case Hevc => if |d| < HEVC_HEADER then [] else HevcArrays(d, HEVC_HEADER, d[22])
    case Vp9 => []
  }

  /** What is put in front of the first access unit. */
  function Built(codec: StreamCodec, extra: Bytes): Bytes {
    if |extra| < 4 then []
    else if extra[0] == 1 then Join(RecordSets(codec, extra))
    else if extra[0] == 0 && extra[1] == 0 then extra
    else []
  }

  /** `e`, after the entries already `done`. */
  function After(done: seq<Bytes>, e: Entries): Entries {
    e.(nals := done + e.nals)
  }

  lemma AfterTwice(done: seq<Bytes>, nal: Bytes, e: Entries)
    ensures After(done, After([nal], e)) == After(done + [nal], e)
  {
    assert done + ([nal] + e.nals) == done + [nal] + e.nals;
  }

  lemma AfterNone(done: seq<Bytes>, end: Option<nat>, e: Entries)
    ensures After(done, Entries([], end)) == Entries(done, end) && After([], e) == e
  {
    assert done + [] == done && [] + e.nals == e.nals;
  }

  lemma ParseStep(d: Bytes, pos: nat, count: nat)
    requires pos <= |d|
    ensures Parse(d, pos, count)
         == if count == 0 || pos + 2 > |d| then Entries([], Some(pos)) else
              var next := pos + 2 + U16(d[pos], d[pos + 1]);
              if next > |d| then Entries([], None)
              else After([d[pos + 2..next]], Parse(d, next, count - 1))
  {
  }

  /** One list of entries; `more` is false when parsing must stop. */
  method AddEntries(extra: Bytes, start: nat, count: nat, sets: Bytes)
    returns (out: Bytes, pos: nat, more: bool)
    requires start <= |extra|
    ensures out == sets + Join(Parse(extra, start, count).nals)
    ensures Parse(extra, start, count).end == if more then Some(pos) else None
    ensures more ==> pos <= |extra|
  {
    hide Parse, Join, After;
    out, pos, more := sets, start, true;
    ghost var done: seq<Bytes> := [];
    JoinNone();
    AfterNone(done, None, Parse(extra, start, count));
    var i := 0;
    while i < count && pos + 2 <= |extra|
      invariant i <= count && pos <= |extra|
      invariant out == sets + Join(done)
      invariant Parse(extra, start, count) == After(done, Parse(extra, pos, count - i))
    {
      ParseStep(extra, pos, count - i);
      var length := U16(extra[pos], extra[pos + 1]);
      if pos + 2 + length > |extra| {
        AfterNone(done, None, Entries([], None));
        return out, pos, false;
      }
      pos := pos + 2;
      var nal := extra[pos..pos + length];
      JoinAppend(done, nal);
      AfterTwice(done, nal, Parse(extra, pos + length, count - i - 1));
      out := out + START_CODE + nal;
      done := done + [nal];
      pos := pos + length;
      i := i + 1;
    }
    ParseStep(extra, pos, count - i);
    AfterNone(done, Some(pos), Entries([], None));
  }

  /** The codec's pass over the extradata; every read stays inside it. */
  method BuildParameterSets(codec: StreamCodec, extra: Bytes) returns (sets: Bytes)
    ensures sets == Built(codec, extra)
    ensures |extra| < 4 || extra[0] > 1 || (extra[0] == 0 && extra[1] != 0) ==> sets == []
    ensures |extra| >= 4 && extra[0] == 0 && extra[1] == 0 ==> sets == extra
    ensures |extra| >= 4 && extra[0] == 1 && codec == Vp9 ==> sets == []
  {
    hide Parse, Join;
    JoinNone();
    sets := [];
    if |extra| < 4 {
      return;
    }
    if extra[0] != 1 {
      if extra[0] == 0 && extra[1] == 0 { sets := extra; }
      return;
    }
    if codec == H264 {
      if |extra| < 7 {
        return;
      }
      var pos, more;
      sets, pos, more := AddEntries(extra, 6, extra[5] % 32, sets);
      ghost var sps := Parse(extra, 6, extra[5] % 32).nals;
      if !more || pos >= |extra| {
        assert sps + [] == sps;
        return;
      }
      JoinConcat(sps, Parse(extra, pos + 1, extra[pos]).nals);
      sets, pos, more := AddEntries(extra, pos + 1, extra[pos], sets);
    } else if codec == Hevc {
      if |extra| < 23 {
        return;
      }
      sets := AddArrays(extra, 23, extra[22]);
    }
  }

  method AddArrays(extra: Bytes, start: nat, arrays: nat) returns (sets: Bytes)
    requires start <= |extra|
    ensures sets == Join(HevcArrays(extra, start, arrays))
  {
    hide Parse, Join;
    JoinNone();
    sets := [];
    ghost var done: seq<Bytes> := [];
    var pos: nat, a := start, 0;
    while a < arrays && pos + 3 <= |extra|
      invariant a <= arrays && pos <= |extra|
      invariant sets == Join(done)
      invariant HevcArrays(extra, start, arrays) == done + HevcArrays(extra, pos, arrays - a)
    {
      var count := U16(extra[pos + 1], extra[pos + 2]);
      ghost var nals := Parse(extra, pos + 3, count).nals;
      JoinConcat(done, nals);
      var more;
      sets, pos, more := AddEntries(extra, pos + 3, count, sets);
      done := done + nals;
      if !more {
        assert nals + [] == nals;
        return;
      }
      a := a + 1;
    }
    assert done + [] == done;
  }

  // ---- records and what is read back ------------------------------------------

  /** Entries a record can hold: 16-bit lengths. */
  predicate Fit(nals: seq<Bytes>) {
    forall nal :: nal in nals ==> |nal| < 0x1_0000
  }

  function EncodeEntries(nals: seq<Bytes>): Bytes
    requires Fit(nals)
  {
    if nals == [] then [] else
      assert nals[0] in nals;
      Encode16(|nals[0]|) + nals[0] + EncodeEntries(nals[1..])
  }

  datatype HevcArray = HevcArray(kind: Byte, nals: seq<Bytes>)

  predicate ArraysFit(arrays: seq<HevcArray>) {
    forall a :: a in arrays ==> |a.nals| < 0x1_0000 && Fit(a.nals)
  }

  function EncodeArray(a: HevcArray): Bytes
    requires |a.nals| < 0x1_0000 && Fit(a.nals)
  {
    [a.kind] + Encode16(|a.nals|) + EncodeEntries(a.nals)
  }

  function EncodeArrays(arrays: seq<HevcArray>): Bytes
    requires ArraysFit(arrays)
  {
    if arrays == [] then [] else
      assert arrays[0] in arrays;
      EncodeArray(arrays[0]) + EncodeArrays(arrays[1..])
  }

  function AllNals(arrays: seq<HevcArray>): seq<Bytes> {
    if arrays == [] then [] else arrays[0].nals + AllNals(arrays[1..])
  }

  /** `part` stands at `pos` in `d`. */
  predicate Holds(d: Bytes, pos: nat, part: Bytes) {
    pos + |part| <= |d| && d[pos..pos + |part|] == part
  }

  lemma HoldsParts(d: Bytes, pos: nat, a: Bytes, b: Bytes)
    requires Holds(d, pos, a + b)
    ensures Holds(d, pos, a) && Holds(d, pos + |a|, b)
  {
    assert d[pos..pos + |a|] == (a + b)[..|a|];
    assert d[pos + |a|..pos + |a| + |b|] == (a + b)[|a|..];
  }

  lemma HoldsIn(before: Bytes, part: Bytes, after: Bytes)
    ensures Holds(before + part + after, |before|, part)
  {
  }

  lemma ParseOne(d: Bytes, pos: nat, count: nat, nal: Bytes)
    requires count > 0 && |nal| < 0x1_0000 && Holds(d, pos, Encode16(|nal|) + nal)
    ensures var rest := Parse(d, pos + 2 + |nal|, count - 1);
      Parse(d, pos, count) == rest.(nals := [nal] + rest.nals)
  {
    HoldsParts(d, pos, Encode16(|nal|), nal);
    assert d[pos] == d[pos..pos + 2][0] && d[pos + 1] == d[pos..pos + 2][1];
  }

  lemma {:induction false} ParseEncoded(d: Bytes, pos: nat, nals: seq<Bytes>)
    requires Fit(nals) && Holds(d, pos, EncodeEntries(nals))
    ensures Parse(d, pos, |nals|).nals == nals
    ensures Parse(d, pos, |nals|).end == Some(pos + |EncodeEntries(nals)|)
    decreases |nals|
  {
    hide Parse, Encode16;
    if nals == [] {
      ParseStep(d, pos, 0);
    } else {
      hide Holds;
      var nal, rest := nals[0], nals[1..];
      assert nal in nals;
      HoldsParts(d, pos, Encode16(|nal|) + nal, EncodeEntries(rest));
      ParseOne(d, pos, |nals|, nal);
      ParseEncoded(d, pos + 2 + |nal|, rest);
      assert |EncodeEntries(nals)| == 2 + |nal| + |EncodeEntries(rest)|;
      hide EncodeEntries;
      assert [nal] + rest == nals;
    }
  }

  /** An avcC record: 5 header bytes, both lists behind their counts, and whatever follows. */
  function AvcRecord(header: Bytes, reserved: nat, sps: seq<Bytes>, pps: seq<Bytes>, tail: Bytes): Bytes
    requires |header| == 5 && reserved < 8 && |sps| < 32 && |pps| < 256 && Fit(sps) && Fit(pps)
  {
    header + [reserved * 32 + |sps|] + EncodeEntries(sps) + [|pps|] + EncodeEntries(pps) + tail
  }

  /** An hvcC record: 22 header bytes, the number of arrays, the arrays. */
  function HevcRecord(header: Bytes, arrays: seq<HevcArray>, tail: Bytes): Bytes
    requires |header| == 22 && |arrays| < 256 && ArraysFit(arrays)
  {
    header + [|arrays|] + EncodeArrays(arrays) + tail
  }

  lemma AvcRecordSets(header: Bytes, reserved: nat, sps: seq<Bytes>, pps: seq<Bytes>, tail: Bytes)
    requires |header| == 5 && reserved < 8 && |sps| < 32 && |pps| < 256 && Fit(sps) && Fit(pps)
    ensures AvcSets(AvcRecord(header, reserved, sps, pps, tail)) == sps + pps
  {
    hide Parse, EncodeEntries;
    var d := AvcRecord(header, reserved, sps, pps, tail);
    var before, s, p := header + [reserved * 32 + |sps|], EncodeEntries(sps), EncodeEntries(pps);
    HoldsIn(before, s, [|pps|] + p + tail);
    assert d == before + s + ([|pps|] + p + tail);
    assert d[5] % 32 == |sps|;
    ParseEncoded(d, 6, sps);
    HoldsIn(before + s + [|pps|], p, tail);
    assert d[6 + |s|] == |pps|;
    ParseEncoded(d, 6 + |s| + 1, pps);
  }

  lemma ArrayEncoded(d: Bytes, pos: nat, a: HevcArray, arrays: nat)
    requires arrays > 0 && |a.nals| < 0x1_0000 && Fit(a.nals) && Holds(d, pos, EncodeArray(a))
    ensures HevcArrays(d, pos, arrays)
         == a.nals + HevcArrays(d, pos + |EncodeArray(a)|, arrays - 1)
  {
    hide Parse, EncodeEntries, Fit;
    var head := [a.kind] + Encode16(|a.nals|);
    HoldsParts(d, pos, head, EncodeEntries(a.nals));
    assert d[pos + 1] == d[pos..pos + 3][1] && d[pos + 2] == d[pos..pos + 3][2];
    ParseEncoded(d, pos + 3, a.nals);
  }

  lemma {:induction false} ArraysEncoded(d: Bytes, pos: nat, arrays: seq<HevcArray>)
    requires ArraysFit(arrays) && Holds(d, pos, EncodeArrays(arrays))
    ensures HevcArrays(d, pos, |arrays|) == AllNals(arrays)
    decreases |arrays|
  {
    if arrays != [] {
      hide HevcArrays, EncodeArray, Holds, Fit;
      assert arrays[0] in arrays;
      HoldsParts(d, pos, EncodeArray(arrays[0]), EncodeArrays(arrays[1..]));
      ArrayEncoded(d, pos, arrays[0], |arrays|);
      ArraysEncoded(d, pos + |EncodeArray(arrays[0])|, arrays[1..]);
    }
  }

  /** The parameter sets of an avcC record come back in order, exactly when they are well-formed
      NAL units. */
  lemma AvcRoundTrip(header: Bytes, reserved: nat, sps: seq<Bytes>, pps: seq<Bytes>, tail: Bytes)
    requires |header| == 5 && header[0] == 1 && reserved < 8
    requires |sps| < 32 && |pps| < 256 && Fit(sps) && Fit(pps)
    ensures Split(Built(H264, AvcRecord(header, reserved, sps, pps, tail))) == sps + pps
       <==> WellFormedNals(sps + pps)
  {
    AvcRecordSets(header, reserved, sps, pps, tail);
    SplitJoin(sps + pps);
  }

  lemma HevcRoundTrip(header: Bytes, arrays: seq<HevcArray>, tail: Bytes)
    requires |header| == 22 && header[0] == 1 && |arrays| < 256 && ArraysFit(arrays)
    ensures Split(Built(Hevc, HevcRecord(header, arrays, tail))) == AllNals(arrays)
       <==> WellFormedNals(AllNals(arrays))
  {
    hide EncodeArrays, HevcArrays, Split, Join;
    var d := HevcRecord(header, arrays, tail);
    HoldsIn(header + [|arrays|], EncodeArrays(arrays), tail);
    ArraysEncoded(d, 23, arrays);
    assert d[22] == |arrays| && d[0] == 1;
    SplitJoin(AllNals(arrays));
  }

  // ---- records that are cut short -----------------------------------------------

  /** No whole entry: less than a length, or fewer bytes than it says. */
  predicate Overruns(rest: Bytes) {
    |rest| < 2 || U16(rest[0], rest[1]) > |rest| - 2
  }

  lemma EntriesStep(nals: seq<Bytes>)
    requires Fit(nals)
    ensures EncodeEntries([]) == []
    ensures nals != [] ==>
      |nals[0]| < 0x1_0000 && Fit(nals[1..])
      && EncodeEntries(nals) == Encode16(|nals[0]|) + nals[0] + EncodeEntries(nals[1..])
  {
    assert nals != [] ==> nals[0] in nals;
  }

  lemma ArraysStep(arrays: seq<HevcArray>)
    requires ArraysFit(arrays)
    ensures EncodeArrays([]) == [] && AllNals([]) == []
    ensures arrays != [] ==>
      var a := arrays[0];
      && |a.nals| < 0x1_0000 && Fit(a.nals) && ArraysFit(arrays[1..])
      && EncodeArrays(arrays) == EncodeArray(a) + EncodeArrays(arrays[1..])
      && AllNals(arrays) == a.nals + AllNals(arrays[1..])
  {
    hide EncodeArray;
    assert arrays != [] ==> arrays[0] in arrays;
  }

  /** Entries are read up to the first that is cut. */
  lemma {:induction false} ParseCut(d: Bytes, pos: nat, nals: seq<Bytes>, rest: Bytes, count: nat)
    requires Fit(nals) && count > |nals| && Overruns(rest)
    requires pos <= |d| && d[pos..] == EncodeEntries(nals) + rest
    ensures Parse(d, pos, count).nals == nals
    ensures Parse(d, pos, count).end == if |rest| < 2 then Some(|d| - |rest|) else None
    decreases |nals|
  {
    hide Parse, Encode16, EncodeEntries;
    EntriesStep(nals);
    if nals == [] {
      assert |rest| >= 2 ==> d[pos] == d[pos..][0] == rest[0] && d[pos + 1] == d[pos..][1] == rest[1];
      ParseStep(d, pos, count);
    } else {
      var (nal, more) := (nals[0], nals[1..]);
      assert nal in nals && [nal] + more == nals;
      var head, tail := Encode16(|nal|) + nal, EncodeEntries(more) + rest;
      assert d[pos..] == head + tail;
      assert d[pos..pos + |head|] == d[pos..][..|head|] == head;
      assert d[pos + |head|..] == d[pos..][|head|..] == tail;
      ParseOne(d, pos, count, nal);
      ParseCut(d, pos + 2 + |nal|, more, rest, count - 1);
    }
  }

  /** Of an avcC record that ends within its SPS list the whole entries are used. */
  lemma AvcCut(header: Bytes, reserved: nat, n: nat, sps: seq<Bytes>, rest: Bytes)
    requires |header| == 5 && header[0] == 1 && reserved < 8 && |sps| < n < 32 && Fit(sps) && Overruns(rest)
    ensures Built(H264, header + [reserved * 32 + n] + (EncodeEntries(sps) + rest)) == Join(sps)
  {
    hide Parse, Join, EncodeEntries, AvcSets, Overruns, Fit;
    AfterHeader(header, reserved, n, EncodeEntries(sps) + rest);
    SpsCut(header + [reserved * 32 + n] + (EncodeEntries(sps) + rest), n, sps, rest);
  }

  lemma AfterHeader(header: Bytes, reserved: nat, n: nat, tail: Bytes)
    requires |header| == 5 && header[0] == 1 && reserved < 8 && n < 32
    ensures var d := header + [reserved * 32 + n] + tail;
      |d| == 6 + |tail| && d[0] == 1 && d[5] % 32 == n && d[6..] == tail
  {
  }

  lemma SpsCut(d: Bytes, n: nat, sps: seq<Bytes>, rest: Bytes)
    requires |sps| < n < 32 && Fit(sps) && Overruns(rest)
    requires |d| >= 6 && d[5] % 32 == n && d[6..] == EncodeEntries(sps) + rest
    ensures AvcSets(d) == sps
  {
    hide Parse, EncodeEntries;
    if |d| == 6 {
      NoEntries(sps);
    } else {
      ParseCut(d, 6, sps, rest, n);
      ParseStep(d, |d|, d[|d| - 1]);
      assert sps + [] == sps;
    }
  }

  lemma NoEntries(nals: seq<Bytes>)
    requires Fit(nals) && EncodeEntries(nals) == []
    ensures nals == []
  {
  }

  /** ... and of one that ends within its PPS list, after all SPS. */
  lemma AvcCutLater(header: Bytes, reserved: nat, sps: seq<Bytes>, n: nat, pps: seq<Bytes>, rest: Bytes)
    requires |header| == 5 && header[0] == 1 && reserved < 8 && |sps| < 32 && |pps| < n < 256
    requires Fit(sps) && Fit(pps) && Overruns(rest)
    ensures
      var lists := EncodeEntries(sps) + ([n] + (EncodeEntries(pps) + rest));
      Built(H264, header + [reserved * 32 + |sps|] + lists) == Join(sps + pps)
  {
    hide Parse, Join, EncodeEntries, AvcSets, Overruns, Fit;
    var s, p := EncodeEntries(sps), EncodeEntries(pps) + rest;
    var tail := s + ([n] + p);
    AfterHeader(header, reserved, |sps|, tail);
    PpsCut(header + [reserved * 32 + |sps|] + tail, sps, n, pps, rest);
  }

  lemma PpsCut(d: Bytes, sps: seq<Bytes>, n: nat, pps: seq<Bytes>, rest: Bytes)
    requires |sps| < 32 && |pps| < n < 256 && Fit(sps) && Fit(pps) && Overruns(rest)
    requires |d| >= 6 && d[5] % 32 == |sps|
    requires d[6..] == EncodeEntries(sps) + ([n] + (EncodeEntries(pps) + rest))
    ensures AvcSets(d) == sps + pps
  {
    hide Parse, EncodeEntries;
    var tail, k := d[6..], |EncodeEntries(sps)|;
    assert d[6..6 + k] == tail[..k] && d[6 + k] == tail[k] && d[7 + k..] == tail[k + 1..];
    ParseEncoded(d, 6, sps);
    ParseCut(d, 7 + |EncodeEntries(sps)|, pps, rest, n);
  }

  /** The same of an hvcC record that ends within an array, or before its count. */
  lemma HevcCut(header: Bytes, n: nat, arrays: seq<HevcArray>, cut: Bytes, nals: seq<Bytes>)
    requires |header| == 22 && header[0] == 1 && |arrays| < n < 256 && ArraysFit(arrays)
    requires IsCutArray(cut, nals)
    ensures Built(Hevc, header + [n] + EncodeArrays(arrays) + cut) == Join(AllNals(arrays) + nals)
  {
    hide EncodeArrays, HevcArrays, Join, IsCutArray;
    var d := header + [n] + EncodeArrays(arrays) + cut;
    assert d[22] == n && d[0] == 1;
    assert d[23..] == EncodeArrays(arrays) + cut;
    ArraysCut(d, 23, arrays, cut, nals, n);
  }

  /** Less than a header; or fewer entries than it says, `nals`, and no whole one more. */
  ghost predicate IsCutArray(cut: Bytes, nals: seq<Bytes>) {
    || (|cut| < 3 && nals == [])
    || (Fit(nals) && exists kind: Byte, n: nat, rest ::
          |nals| < n < 0x1_0000 && Overruns(rest) && cut == [kind] + Encode16(n) + (EncodeEntries(nals) + rest))
  }

  lemma {:induction false} ArraysCut(d: Bytes, pos: nat, arrays: seq<HevcArray>, cut: Bytes, nals: seq<Bytes>, n: nat)
    requires ArraysFit(arrays) && n > |arrays| && IsCutArray(cut, nals)
    requires pos <= |d| && d[pos..] == EncodeArrays(arrays) + cut
    ensures HevcArrays(d, pos, n) == AllNals(arrays) + nals
    decreases |arrays|
  {
    hide HevcArrays, EncodeArray, EncodeArrays, AllNals, Fit, ArraysFit, IsCutArray;
    ArraysStep(arrays);
    if arrays == [] {
      assert d[pos..] == cut;
      ArrayCut(d, pos, cut, nals, n);
      assert [] + nals == nals;
    } else {
      var (a, more) := (arrays[0], arrays[1..]);
      var tail := EncodeArrays(more) + cut;
      assert d[pos..] == EncodeArray(a) + tail;
      assert d[pos..pos + |EncodeArray(a)|] == d[pos..][..|EncodeArray(a)|] == EncodeArray(a);
      assert d[pos + |EncodeArray(a)|..] == d[pos..][|EncodeArray(a)|..] == tail;
      ArrayEncoded(d, pos, a, n);
      ArraysCut(d, pos + |EncodeArray(a)|, more, cut, nals, n - 1);
      assert a.nals + (AllNals(more) + nals) == (a.nals + AllNals(more)) + nals;
    }
  }

  lemma ArrayCut(d: Bytes, pos: nat, cut: Bytes, nals: seq<Bytes>, n: nat)
    requires n > 0 && pos <= |d| && d[pos..] == cut && IsCutArray(cut, nals)
    ensures HevcArrays(d, pos, n) == nals
  {
    hide Parse, Encode16, EncodeEntries;
    if |cut| >= 3 {
      var kind: Byte, count: nat, rest :| |nals| < count < 0x1_0000 && Overruns(rest)
        && cut == [kind] + Encode16(count) + (EncodeEntries(nals) + rest);
      assert d[pos + 1] == d[pos..][1] == Encode16(count)[0] && d[pos + 2] == d[pos..][2] == Encode16(count)[1];
      assert d[pos + 3..] == d[pos..][3..] == EncodeEntries(nals) + rest;
      ParseCut(d, pos + 3, nals, rest, count);
      assert nals + [] == nals;
    }
  }
}
