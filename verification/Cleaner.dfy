/**
 The cleaned bitstream of the recovery: only the NAL units every decoder needs, and what
 the codec learns about an access unit on the way.
 */
module Cleaner {
  import opened Bytes
  import opened AnnexB
  import opened ExpGolomb

  const HEAD_LIMIT: nat := 48

  function NalType(hevc: bool, nal: Bytes): nat
    requires nal != []
  {
    if hevc then nal[0] / 2 % 64 else nal[0] % 32
  }

  predicate IsSlice(hevc: bool, nal: Bytes)
    requires nal != []
  {
    var t := NalType(hevc, nal);
    if hevc then t <= 31 else 1 <= t <= 5
  }

  /** VPS, SPS and PPS of the base layer. */
  predicate IsParameterSet(hevc: bool, nal: Bytes)
    requires nal != []
  {
    var t := NalType(hevc, nal);
    if hevc then t in {32, 33, 34} else t in {7, 8}
  }

  /** End of sequence, of bitstream, of stream. */
  predicate IsEnd(hevc: bool, nal: Bytes)
    requires nal != []
  {
    var t := NalType(hevc, nal);
    if hevc then t in {36, 37} else t in {10, 11}
  }

  predicate Kept(hevc: bool, nal: Bytes) {
    nal != [] && (IsSlice(hevc, nal) || IsParameterSet(hevc, nal) || IsEnd(hevc, nal))
  }

  /** slice_type, the second number of the slice header, is I or SI. */
  predicate IntraSlice(nal: Bytes)
    requires nal != []
  {
    var bits := BitString(Take(Unescape(nal[1..], 0), HEAD_LIMIT));
    var (firstMb, c) := UeRead(bits, Cursor(0, true));
    var (sliceType, end) := UeRead(bits, c);
    end.ok && (sliceType % 5 == 2 || sliceType % 5 == 4)
  }

  /** A slice decoding can start from. */
  predicate StartsDecoding(hevc: bool, nal: Bytes)
    requires nal != []
  {
    var t := NalType(hevc, nal);
    if hevc then 16 <= t <= 23 else t == 5 || (t == 1 && IntraSlice(nal))
  }

  ghost predicate HasSlice(hevc: bool, nals: seq<Bytes>) {
    exists nal :: nal in nals && nal != [] && IsSlice(hevc, nal)
  }

  ghost predicate HasStart(hevc: bool, nals: seq<Bytes>) {
    exists nal :: nal in nals && nal != [] && StartsDecoding(hevc, nal)
  }

  function Filter(hevc: bool, nals: seq<Bytes>): seq<Bytes> {
    if nals == [] then []
    else (if Kept(hevc, nals[0]) then [nals[0]] else []) + Filter(hevc, nals[1..])
  }

  function Clean(hevc: bool, d: Bytes): Bytes {
    Join(Filter(hevc, Split(d)))
  }

  lemma NothingYet(hevc: bool)
    ensures Join(Filter(hevc, [])) == [] && !HasStart(hevc, []) && !HasSlice(hevc, [])
  {
  }

  lemma OneMore(hevc: bool, nals: seq<Bytes>, nal: Bytes)
    requires nal != []
    ensures HasSlice(hevc, nals + [nal]) <==> HasSlice(hevc, nals) || IsSlice(hevc, nal)
    ensures HasStart(hevc, nals + [nal]) <==> HasStart(hevc, nals) || StartsDecoding(hevc, nal)
    ensures Join(Filter(hevc, nals + [nal]))
         == Join(Filter(hevc, nals)) + (if Kept(hevc, nal) then START_CODE + nal else [])
  {
    hide IntraSlice;
    assert nal in nals + [nal];
    assert forall n :: n in nals + [nal] <==> n in nals || n == nal;
    FilterConcat(hevc, nals, [nal]);
    JoinConcat(Filter(hevc, nals), Filter(hevc, [nal]));
    assert Filter(hevc, [nal]) == if Kept(hevc, nal) then [nal] else [];
    assert Join([nal]) == START_CODE + nal && Join([]) == [];
  }

  lemma {:induction false} FilterConcat(hevc: bool, a: seq<Bytes>, b: seq<Bytes>)
    ensures Filter(hevc, a + b) == Filter(hevc, a) + Filter(hevc, b)
  {
    hide Kept;
    if a == [] {
      assert a + b == b;
    } else {
      FilterConcat(hevc, a[1..], b);
      assert (a + b)[1..] == a[1..] + b && (a + b)[0] == a[0];
    }
  }

  method IsIntraSlice(nal: Bytes) returns (intra: bool)
    requires nal != []
    ensures intra == IntraSlice(nal)
  {
    var head := RbspHead(nal, 1, HEAD_LIMIT);
    var bits := new Bits(head);
    var firstMb := bits.Ue();
    var sliceType := bits.Ue();
    intra := bits.ok && (sliceType % 5 == 2 || sliceType % 5 == 4);
  }

  // ---- the same by the number of the NAL unit type ------------------------------

  /** Some unit is of type 0 to 31 (H.265), 1 to 5 (H.264). */
  ghost predicate SliceInside(hevc: bool, d: Bytes) {
    exists nal :: nal in Split(d) && nal != [] && if hevc then nal[0] / 2 % 64 <= 31 else 1 <= nal[0] % 32 <= 5
  }

  /** Some unit is of type 16 to 23 (H.265), or 5, or 1 with an intra slice (H.264). */
  ghost predicate KeyInside(hevc: bool, d: Bytes) {
    exists nal :: nal in Split(d) && nal != [] &&
      if hevc then 16 <= nal[0] / 2 % 64 <= 23 else nal[0] % 32 == 5 || (nal[0] % 32 == 1 && IntraSlice(nal))
  }

  lemma InsideByType(hevc: bool, d: Bytes)
    ensures SliceInside(hevc, d) == HasSlice(hevc, Split(d)) && KeyInside(hevc, d) == HasStart(hevc, Split(d))
    ensures KeyInside(hevc, d) ==> SliceInside(hevc, d)
  {
    hide IntraSlice, Split;
    if HasSlice(hevc, Split(d)) {
      var nal :| nal in Split(d) && nal != [] && IsSlice(hevc, nal);
    }
    if HasStart(hevc, Split(d)) {
      var nal :| nal in Split(d) && nal != [] && StartsDecoding(hevc, nal);
    }
  }

  /** `sub` is `all` with some elements left out: it has those at the rising places `at`. */
  ghost predicate InOrderAt(sub: seq<Bytes>, all: seq<Bytes>, at: seq<nat>) {
    && |at| == |sub| && (forall i, j :: 0 <= i < j < |at| ==> at[i] < at[j])
    && forall i :: 0 <= i < |at| ==> at[i] < |all| && all[at[i]] == sub[i]
  }

  ghost predicate InOrder(sub: seq<Bytes>, all: seq<Bytes>) {
    exists at: seq<nat> :: InOrderAt(sub, all, at)
  }

  /** The units of `d` in order, each as often as it occurs when its type is kept: H.265 types 0 to 34, 36 and
      37, H.264 types 1 to 5, 7, 8, 10 and 11; no other. */
  ghost predicate KeptByType(hevc: bool, d: Bytes, out: Bytes) {
    && InOrder(Split(out), Split(d))
    && forall nal: Bytes :: nal != [] ==>
         multiset(Split(out))[nal]
         == if (if hevc then nal[0] / 2 % 64 <= 34 || nal[0] / 2 % 64 == 36 || nal[0] / 2 % 64 == 37
                else 1 <= nal[0] % 32 <= 5 || nal[0] % 32 in {7, 8, 10, 11})
            then multiset(Split(d))[nal] else 0
  }

  lemma InOrderMore(sub: seq<Bytes>, all: seq<Bytes>, nal: Bytes)
    requires InOrder(sub, all)
    ensures InOrder(sub, all + [nal]) && InOrder(sub + [nal], all + [nal])
  {
    var at: seq<nat> :| InOrderAt(sub, all, at);
    assert InOrderAt(sub, all + [nal], at);
    assert InOrderAt(sub + [nal], all + [nal], at + [|all|]);
  }

  lemma {:induction false} FilterInOrder(hevc: bool, nals: seq<Bytes>)
    ensures InOrder(Filter(hevc, nals), nals)
  {
    hide Kept, InOrder;
    if nals == [] {
      NothingInOrder();
    } else {
      var (last, rest) := (nals[|nals| - 1], nals[..|nals| - 1]);
      FilterInOrder(hevc, rest);
      FilterConcat(hevc, rest, [last]);
      assert nals == rest + [last];
      InOrderMore(Filter(hevc, rest), rest, last);
      assert Filter(hevc, [last]) == if Kept(hevc, last) then [last] else [];
      assert Filter(hevc, rest) + [] == Filter(hevc, rest);
    }
  }

  lemma NothingInOrder()
    ensures InOrder([], [])
  {
    assert InOrderAt([], [], []);
  }

  lemma CleanByType(hevc: bool, d: Bytes)
    ensures KeptByType(hevc, d, Clean(hevc, d))
  {
    hide Split, Filter, Clean;
    SplitOfClean(hevc, d);
    FilterInOrder(hevc, Split(d));
    forall nal: Bytes | nal != []
      ensures multiset(Filter(hevc, Split(d)))[nal] == if Kept(hevc, nal) then multiset(Split(d))[nal] else 0
    {
      Survivors(hevc, Split(d), nal);
    }
  }

  /** The codec's pass over one access unit. */
  method CleanAccessUnit(hevc: bool, d: Bytes) returns (out: Bytes, irap: bool, hasSlice: bool)
    ensures out == Clean(hevc, d) && KeptByType(hevc, d, out)
    ensures irap == HasStart(hevc, Split(d)) == KeyInside(hevc, d)
    ensures hasSlice == HasSlice(hevc, Split(d)) == SliceInside(hevc, d)
  {
    hide IntraSlice, UeRead, Unescape, Join, Split, KeptByType, SliceInside, KeyInside;
    CleanByType(hevc, d);
    InsideByType(hevc, d);
    out, irap, hasSlice := [], false, false;
    var nals := SplitAnnexB(d);
    var i := 0;
    SplitIsWellFormed(d);
    NothingYet(hevc);
    while i < |nals|
      invariant i <= |nals|
      invariant out == Join(Filter(hevc, nals[..i]))
      invariant irap == HasStart(hevc, nals[..i])
      invariant hasSlice == HasSlice(hevc, nals[..i])
    {
      var nal := nals[i];
      assert nal in nals;
      var keep := false;
      if hevc {
        var t := nal[0] / 2 % 64;
        keep := t <= 34 || t == 36 || t == 37;
        if t <= 31 {
          hasSlice := true;
          if 16 <= t <= 23 { irap := true; }
        }
      } else {
        var t := nal[0] % 32;
        keep := 1 <= t <= 5 || t == 7 || t == 8 || t == 10 || t == 11;
        if 1 <= t <= 5 {
          hasSlice := true;
          if t == 5 {
            irap := true;
          } else if t == 1 {
            var intra := IsIntraSlice(nal);
            if intra { irap := true; }
          }
        }
      }
      OneMore(hevc, nals[..i], nal);
      assert nals[..i + 1] == nals[..i] + [nal];
      if keep {
        out := out + START_CODE + nal;
      }
      i := i + 1;
    }
    assert nals[..i] == nals;
  }

  // ---- what cleaning keeps --------------------------------------------------

  lemma {:induction false} FilterMembers(hevc: bool, nals: seq<Bytes>)
    ensures forall nal :: nal in Filter(hevc, nals) <==> nal in nals && Kept(hevc, nal)
  {
    hide Kept;
    if nals != [] {
      FilterMembers(hevc, nals[1..]);
      assert nals == [nals[0]] + nals[1..];
    }
  }

  lemma {:induction false} FilterTwice(hevc: bool, nals: seq<Bytes>)
    requires forall nal :: nal in nals ==> Kept(hevc, nal)
    ensures Filter(hevc, nals) == nals
  {
    hide Kept;
    if nals != [] {
      FilterTwice(hevc, nals[1..]);
      assert nals == [nals[0]] + nals[1..];
    }
  }

  /** The NAL list of a cleaned access unit is the original one, filtered in order. */
  lemma SplitOfClean(hevc: bool, d: Bytes)
    ensures Split(Clean(hevc, d)) == Filter(hevc, Split(d))
  {
    SplitIsWellFormed(d);
    FilterMembers(hevc, Split(d));
    SplitOfJoin(Filter(hevc, Split(d)));
  }

  /** Every slice and every base parameter set survives, with its multiplicity; nothing is added. */
  lemma {:induction false} Survivors(hevc: bool, nals: seq<Bytes>, nal: Bytes)
    ensures multiset(Filter(hevc, nals))[nal] == if Kept(hevc, nal) then multiset(nals)[nal] else 0
  {
    hide Kept;
    if nals != [] {
      Survivors(hevc, nals[1..], nal);
      assert nals == [nals[0]] + nals[1..];
    }
  }

  /** Cleaning says the same about the cleaned unit. */
  lemma CleanKeepsVerdict(hevc: bool, d: Bytes)
    ensures HasSlice(hevc, Split(Clean(hevc, d))) == HasSlice(hevc, Split(d))
    ensures HasStart(hevc, Split(Clean(hevc, d))) == HasStart(hevc, Split(d))
  {
    hide IntraSlice, Split, Clean, Filter;
    SplitOfClean(hevc, d);
    FilterMembers(hevc, Split(d));
    forall nal: Bytes | nal != []
      ensures IsSlice(hevc, nal) || StartsDecoding(hevc, nal) ==> Kept(hevc, nal)
    {
    }
  }

  /** Cleaning twice is cleaning once; so is cleaning two cleaned strings put together. */
  lemma CleanIdempotent(hevc: bool, a: Bytes, b: Bytes)
    ensures Clean(hevc, Clean(hevc, a) + Clean(hevc, b)) == Clean(hevc, a) + Clean(hevc, b)
    ensures Clean(hevc, Clean(hevc, a)) == Clean(hevc, a)
  {
    var x, y := Filter(hevc, Split(a)), Filter(hevc, Split(b));
    SplitIsWellFormed(a);
    SplitIsWellFormed(b);
    FilterMembers(hevc, Split(a));
    FilterMembers(hevc, Split(b));
    JoinConcat(x, y);
    SplitOfJoin(x + y);
    FilterTwice(hevc, x + y);
    SplitOfJoin(x);
    FilterTwice(hevc, x);
  }

  /** Cleaned parameter sets in front of a cleaned unit hide none of its slices. */
  lemma SlicesBehindSets(hevc: bool, sets: Bytes, d: Bytes)
    requires Clean(hevc, sets) == sets && HasSlice(hevc, Split(d))
    ensures HasSlice(hevc, Split(sets + Clean(hevc, d)))
  {
    hide IsSlice, Kept;
    var x, y := Filter(hevc, Split(sets)), Filter(hevc, Split(d));
    CleanKeepsVerdict(hevc, d);
    SplitOfClean(hevc, d);
    assert HasSlice(hevc, y);
    SplitIsWellFormed(sets);
    SplitIsWellFormed(d);
    FilterMembers(hevc, Split(sets));
    FilterMembers(hevc, Split(d));
    JoinConcat(x, y);
    SplitOfJoin(x + y);
    assert forall nal :: nal in y ==> nal in x + y;
  }

  /** An escaped slice header is judged by its slice_type, whatever bytes it takes. */
  lemma IntraSliceBySliceType(header: Byte, rbsp: Bytes, firstMb: nat, sliceType: nat)
    requires firstMb < TWO_32 - 1 && sliceType < TWO_32 - 1
    requires CodeAt(BitString(rbsp), 0, firstMb)
    requires CodeAt(BitString(rbsp), |UeCode(firstMb)|, sliceType)
    ensures IntraSlice([header] + Escape(rbsp, 0)) <==> sliceType % 5 in {2, 4}
  {
    hide Unescape, Escape, UeRead, BitAt, UeCode, Log2, Pow2, Value, ToBits, UeZeros;
    var nal := [header] + Escape(rbsp, 0);
    HeadOfEscaped([header], rbsp, HEAD_LIMIT);
    var head := Take(rbsp, HEAD_LIMIT);
    assert Take(Unescape(nal[1..], 0), HEAD_LIMIT) == head;
    UeLength(firstMb);
    UeLength(sliceType);
    HeadBits(rbsp);
    var bits, whole, n, m := BitString(head), BitString(rbsp), |UeCode(firstMb)|, |UeCode(sliceType)|;
    assert n + m <= |bits|;
    assert bits[0..n] == whole[0..n] && bits[n..n + m] == whole[n..n + m];
    UeReadsCode(bits, 0, firstMb);
    UeReadsCode(bits, n, sliceType);
  }

  lemma HeadBits(rbsp: Bytes)
    ensures var head := Take(rbsp, HEAD_LIMIT);
      BitString(head) == BitString(rbsp)[..8 * |head|]
  {
  }
}
