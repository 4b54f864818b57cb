/**
 NAL units and their two byte-stream layouts: Annex B start codes (section B.1 of
 H.264, section B.2 of H.265) and 4-byte big-endian lengths (section 5.3.3.1 of
 ISO/IEC 14496-15).
 */
module AnnexB {
  import opened Bytes

  const START_CODE: Bytes := [0, 0, 0, 1]

  predicate ShortCodeAt(d: Bytes, i: nat) {
    i + 3 <= |d| && d[i] == 0 && d[i + 1] == 0 && d[i + 2] == 1
  }

  predicate LongCodeAt(d: Bytes, i: nat) {
    i + 4 <= |d| && d[i] == 0 && d[i + 1] == 0 && d[i + 2] == 0 && d[i + 3] == 1
  }

  /** Length of the start code at `i`, the long form first; 0 when there is none. */
  function CodeLength(d: Bytes, i: nat): nat {
    if LongCodeAt(d, i) then 4 else if ShortCodeAt(d, i) then 3 else 0
  }

  /** A payload both layouts can carry: not empty, and no 00 00 01 inside. */
  ghost predicate StartCodeFree(nal: Bytes) {
    forall i: nat :: !ShortCodeAt(nal, i)
  }

  ghost predicate WellFormedNal(nal: Bytes) {
    nal != [] && StartCodeFree(nal)
  }

  ghost predicate WellFormedNals(nals: seq<Bytes>) {
    forall nal :: nal in nals ==> WellFormedNal(nal)
  }

  ghost predicate NoCode(d: Bytes, lo: nat, hi: nat) {
    forall k :: lo <= k < hi ==> CodeLength(d, k) == 0
  }

  /** The first start code at or after `i`, or the end of `d`. */
  function NextCode(d: Bytes, i: nat): (j: nat)
    requires i <= |d|
    ensures i <= j <= |d|
    ensures NoCode(d, i, j)
    ensures j < |d| ==> 0 < CodeLength(d, j) <= |d| - j
    decreases |d| - i
  {
    if i == |d| || CodeLength(d, i) > 0 then i else NextCode(d, i + 1)
  }

  /** The payloads of `d`, whose first byte follows a start code. */
  function Units(d: Bytes): seq<Bytes>
    decreases |d|
  {
    var j := NextCode(d, 0);
    (if j > 0 then [d[..j]] else [])
    + (if j < |d| then Units(d[j + CodeLength(d, j)..]) else [])
  }

  /** The payloads of an Annex B byte string; what precedes the first start code is none. */
  function Split(d: Bytes): seq<Bytes> {
    var j := NextCode(d, 0);
    if j < |d| then Units(d[j + CodeLength(d, j)..]) else []
  }

  /** Each payload behind a 4-byte start code. */
  function Join(nals: seq<Bytes>): Bytes {
    if nals == [] then [] else START_CODE + nals[0] + Join(nals[1..])
  }

  lemma CodeInSuffix(d: Bytes, start: nat, i: nat)
    requires start <= |d|
    ensures CodeLength(d[start..], i) == CodeLength(d, start + i)
  {
  }

  lemma NextCodeUnique(d: Bytes, j: nat)
    requires j <= |d|
    requires NoCode(d, 0, j)
    requires j < |d| ==> CodeLength(d, j) > 0
    ensures NextCode(d, 0) == j
  {
    assert j < |d| ==> 0 <= j < |d| && CodeLength(d, j) > 0;
  }

  /** What precedes the start code at `i` is one payload, unless it is empty. */
  lemma UnitsUpTo(d: Bytes, start: nat, i: nat)
    requires start <= i <= |d|
    requires NoCode(d, start, i)
    requires i < |d| ==> CodeLength(d, i) > 0
    ensures NextCode(d[start..], 0) == i - start
    ensures Units(d[start..])
         == (if i > start then [d[start..i]] else [])
            + (if i < |d| then Units(d[i + CodeLength(d, i)..]) else [])
  {
    var s := d[start..];
    forall k | 0 <= k <= i - start
      ensures CodeLength(s, k) == CodeLength(d, start + k)
    {
      CodeInSuffix(d, start, k);
    }
    NextCodeUnique(s, i - start);
    assert s[..i - start] == d[start..i];
    if i < |d| { assert s[i - start + CodeLength(d, i)..] == d[i + CodeLength(d, i)..]; }
  }

  lemma SplitFrom(d: Bytes, i: nat)
    requires i <= |d| && NoCode(d, 0, i)
    requires i < |d| ==> CodeLength(d, i) > 0
    ensures Split(d) == if i < |d| then Units(d[i + CodeLength(d, i)..]) else []
  {
    NextCodeUnique(d, i);
  }

  /** The scanning loop of the codec computes `Split`. */
  method SplitAnnexB(d: Bytes) returns (out: seq<Bytes>)
    ensures out == Split(d)
  {
    hide NextCode, Units, Join, Split;
    out := [];
    var i := 0;
    var started, start := false, 0;
    while i < |d|
      invariant start <= i <= |d|
      invariant !started ==> start == 0 && out == []
      invariant started ==> Split(d) == out + Units(d[start..])
      invariant NoCode(d, start, i)
    {
      var len := CodeLength(d, i);
      if len > 0 {
        UnitsUpTo(d, start, i);
        if !started {
          SplitFrom(d, i);
        } else if i > start {
          out := out + [d[start..i]];
        }
        i := i + len;
        started, start := true, i;
      } else {
        i := i + 1;
      }
    }
    UnitsUpTo(d, start, i);
    if !started {
      SplitFrom(d, i);
    } else if start < |d| {
      assert d[start..i] == d[start..];
      out := out + [d[start..]];
    }
  }

  // ---- round trips --------------------------------------------------------

  lemma JoinNone()
    ensures Join([]) == []
  {
  }

  lemma JoinHead(nals: seq<Bytes>, i: nat)
    requires i < 4 && nals != []
    ensures |Join(nals)| >= 4 && Join(nals)[i] == START_CODE[i]
  {
  }

  /** A well-formed payload ends exactly where the next start code begins. */
  lemma PayloadEnds(nal: Bytes, rest: seq<Bytes>)
    requires WellFormedNal(nal)
    ensures NextCode(nal + Join(rest), 0) == |nal|
    ensures rest != [] ==> CodeLength(nal + Join(rest), |nal|) == 4
  {
    var d := nal + Join(rest);
    forall k | 0 <= k < 4 && rest != []
      ensures |Join(rest)| >= 4 && d[|nal| + k] == START_CODE[k]
    {
      JoinHead(rest, k);
    }
    forall k | 0 <= k < |nal|
      ensures !ShortCodeAt(d, k)
    {
      assert !ShortCodeAt(nal, k);
      if k + 2 >= |nal| && rest != [] {
        assert d[k + 2] == d[|nal| + (k + 2 - |nal|)];
      }
    }
    forall k | 0 <= k < |nal|
      ensures CodeLength(d, k) == 0
    {
      assert !ShortCodeAt(d, k);
      assert k + 1 < |nal| ==> !ShortCodeAt(d, k + 1);
      assert k + 1 == |nal| && rest != [] ==> d[k + 3] == 0;
    }
    if rest == [] { assert d == nal; } else { assert LongCodeAt(d, |nal|); }
    NextCodeUnique(d, |nal|);
  }

  lemma {:induction false} UnitsOfJoin(nal: Bytes, rest: seq<Bytes>)
    requires WellFormedNal(nal) && WellFormedNals(rest)
    ensures Units(nal + Join(rest)) == [nal] + rest
    decreases |rest|
  {
    hide Units, NextCode, CodeLength, StartCodeFree, Join;
    var d := nal + Join(rest);
    PayloadEnds(nal, rest);
    UnitsStep(d);
    assert d[..|nal|] == nal;
    if rest == [] {
      JoinNone();
    } else {
      JoinParts(rest);
      assert d[|nal| + 4..] == rest[0] + Join(rest[1..]);
      UnitsOfJoin(rest[0], rest[1..]);
      assert [rest[0]] + rest[1..] == rest;
    }
  }

  lemma UnitsStep(d: Bytes)
    ensures
      var j := NextCode(d, 0);
      Units(d) == (if j > 0 then [d[..j]] else []) + (if j < |d| then Units(d[j + CodeLength(d, j)..]) else [])
  {
  }

  lemma {:induction false} UnitsAreWellFormed(d: Bytes)
    ensures WellFormedNals(Units(d))
    decreases |d|
  {
    var j := NextCode(d, 0);
    forall i: nat
      ensures !ShortCodeAt(d[..j], i)
    {
      assert i < j ==> CodeLength(d, i) == 0;
    }
    if j < |d| { UnitsAreWellFormed(d[j + CodeLength(d, j)..]); }
  }

  lemma SplitIsWellFormed(d: Bytes)
    ensures WellFormedNals(Split(d))
  {
    var j := NextCode(d, 0);
    if j < |d| { UnitsAreWellFormed(d[j + CodeLength(d, j)..]); }
  }

  lemma SplitOfJoin(nals: seq<Bytes>)
    requires WellFormedNals(nals)
    ensures Split(Join(nals)) == nals
  {
    hide Units, Join, Split, WellFormedNal;
    if nals == [] {
      NothingJoined();
    } else {
      var (first, rest) := (nals[0], nals[1..]);
      assert nals == [first] + rest;
      JoinParts(nals);
      UnitsOfJoin(first, rest);
      SplitAfterCode(first + Join(rest));
    }
  }

  lemma NothingJoined()
    ensures Split(Join([])) == []
  {
  }

  lemma JoinParts(nals: seq<Bytes>)
    requires nals != []
    ensures Join(nals) == START_CODE + (nals[0] + Join(nals[1..]))
  {
  }

  lemma SplitAfterCode(d: Bytes)
    ensures Split(START_CODE + d) == Units(d)
  {
    var e := START_CODE + d;
    assert LongCodeAt(e, 0);
    assert e[4..] == d;
  }

  /** Writing payloads with start codes and splitting again is the identity, exactly for
      well-formed payloads. */
  lemma SplitJoin(nals: seq<Bytes>)
    ensures Split(Join(nals)) == nals <==> WellFormedNals(nals)
  {
    SplitIsWellFormed(Join(nals));
    if WellFormedNals(nals) { SplitOfJoin(nals); }
  }

  lemma {:induction false} JoinConcat(a: seq<Bytes>, b: seq<Bytes>)
    ensures Join(a + b) == Join(a) + Join(b)
  {
    if a == [] {
      assert a + b == b;
    } else {
      assert (a + b)[1..] == a[1..] + b;
      JoinConcat(a[1..], b);
    }
  }

  lemma JoinAppend(nals: seq<Bytes>, nal: Bytes)
    ensures Join(nals + [nal]) == Join(nals) + [0, 0, 0, 1] + nal
  {
    JoinConcat(nals, [nal]);
    assert Join([nal]) == START_CODE + nal;
  }
}
