/**
 Access units whose NAL units carry 4-byte lengths instead of start codes
 (section 5.3.3.1 of ISO/IEC 14496-15), and their conversion to Annex B.
 */
module LengthPrefixed {
  import opened Bytes
  import opened AnnexB
  import opened Wrappers

  /** The big-endian 32-bit number in the first four bytes of `d`. */
  function U32(d: Bytes): nat
    requires |d| >= 4
  {
    Word(d[0], d[1], d[2], d[3])
  }

  function Word(b3: int, b2: int, b1: int, b0: int): int {
    256 * (256 * (256 * b3 + b2) + b1) + b0
  }

  /** The low `count` bytes of `n`, most significant first. */
  function BigEndian(n: nat, count: nat): (d: Bytes)
    ensures |d| == count
  {
    if count == 0 then [] else BigEndian(n / 256, count - 1) + [n % 256]
  }

  lemma BigEndianStep(n: nat, count: nat)
    requires count > 0
    ensures BigEndian(n, count) == BigEndian(n / 256, count - 1) + [n % 256]
  {
  }

  lemma BigEndianWord(n: nat)
    requires n < TWO_32
    ensures U32(BigEndian(n, 4)) == n
  {
    hide BigEndian;
    var n1 := n / 256;
    var n2 := n1 / 256;
    BigEndianStep(n, 4);
    BigEndianStep(n1, 3);
    BigEndianStep(n2, 2);
    BigEndianStep(n2 / 256, 1);
  }

  function Encode32(n: nat): (d: Bytes)
    requires n < TWO_32
    ensures |d| == 4 && U32(d) == n
  {
    BigEndianWord(n);
    BigEndian(n, 4)
  }

  lemma Encode32Unique(d: Bytes)
    requires |d| >= 4
    ensures U32(d) < TWO_32 && Encode32(U32(d)) == d[..4]
  {
    hide BigEndian;
    var n2 := 256 * d[0] as int + d[1];
    var n1 := 256 * n2 + d[2];
    LowByte(0, d[0]);
    LowByte(d[0], d[1]);
    LowByte(n2, d[2]);
    LowByte(n1, d[3]);
    BigEndianStep(U32(d), 4);
    BigEndianStep(n1, 3);
    BigEndianStep(n2, 2);
    BigEndianStep(d[0], 1);
    assert d[..4] == [d[0], d[1], d[2], d[3]];
  }

  lemma LowByte(high: nat, low: Byte)
    ensures (256 * high + low) / 256 == high && (256 * high + low) % 256 == low
  {
  }

  /** What the reader accepts as one unit: a length that fits, forbidden_zero_bit clear. */
  predicate Readable(nal: Bytes) {
    0 < |nal| < TWO_32 && nal[0] < 128
  }

  predicate AllReadable(nals: seq<Bytes>) {
    forall nal :: nal in nals ==> Readable(nal)
  }

  /** Every unit behind its length. */
  function Encode(nals: seq<Bytes>): Bytes
    requires AllReadable(nals)
  {
    if nals == [] then [] else
      assert nals[0] in nals;
      Encode32(|nals[0]|) + nals[0] + Encode(nals[1..])
  }

  /** One unit in numbers: its length in four octets, the most significant first, then its octets, of which the first
      is below 128. */
  lemma UnitLayout(nal: Bytes)
    ensures Readable(nal) <==> 0 < |nal| < 0x1_0000_0000 && nal[0] < 128
    ensures Readable(nal) ==>
      var d := Encode([nal]);
      && |d| == 4 + |nal| && d[4..] == nal
      && |nal| == 0x100_0000 * d[0] as int + 0x1_0000 * d[1] as int + 0x100 * d[2] as int + d[3] as int
  {
    if Readable(nal) {
      hide BigEndian;
      assert Encode([nal][1..]) == [];
      assert Encode([nal]) == Encode32(|nal|) + nal + [];
    }
  }

  /** The units of `d` when lengths consume it exactly. */
  function Decode(d: Bytes): Option<seq<Bytes>>
    decreases |d|
  {
    if d == [] then Some([])
    else if |d| < 4 then None
    else
      var len := U32(d);
      if len == 0 || len > |d| - 4 || d[4] >= 128 then None
      else
        Prepend([d[4..4 + len]], Decode(d[4 + len..]))
  }

  function Prepend(first: seq<Bytes>, rest: Option<seq<Bytes>>): Option<seq<Bytes>> {
    match rest
    case Some(nals) => Some(first + nals)
    case None => None
  }

  lemma PrependNone(a: seq<Bytes>)
    ensures Prepend(a, None) == None && Prepend(a, Some([])) == Some(a)
  {
    assert a + [] == a;
  }

  lemma PrependTwice(a: seq<Bytes>, b: seq<Bytes>, rest: Option<seq<Bytes>>)
    ensures Prepend(a, Prepend(b, rest)) == Prepend(a + b, rest)
    ensures Prepend([], rest) == rest
  {
    if rest.Some? {
      assert a + (b + rest.value) == a + b + rest.value;
      assert [] + rest.value == rest.value;
    }
  }

  lemma DecodeStep(d: Bytes, pos: nat)
    requires pos <= |d|
    ensures pos == |d| ==> Decode(d[pos..]) == Some([])
    ensures 0 < |d| - pos < 4 ==> Decode(d[pos..]) == None
    ensures |d| - pos >= 4 ==>
      var len := Word(d[pos], d[pos + 1], d[pos + 2], d[pos + 3]);
      Decode(d[pos..]) == if len == 0 || len > |d| - pos - 4 || d[pos + 4] >= 128 then None
                          else Prepend([d[pos + 4..pos + 4 + len]], Decode(d[pos + 4 + len..]))
  {
    var s := d[pos..];
    if |s| >= 4 {
      var len := U32(s);
      if len != 0 && len <= |s| - 4 {
        assert s[4..4 + len] == d[pos + 4..pos + 4 + len] && s[4 + len..] == d[pos + 4 + len..];
      }
    }
  }

  /** The reader: no units at all unless the whole buffer parses. */
  method SplitLengthPrefixed(d: Bytes) returns (out: seq<Bytes>)
    ensures out == Decode(d).GetOr([])
  {
    hide Decode, Prepend;
    out := [];
    var pos := 0;
    assert d[pos..] == d;
    PrependTwice([], [], Decode(d));
    while pos + 4 <= |d|
      invariant pos <= |d|
      invariant Decode(d) == Prepend(out, Decode(d[pos..]))
    {
      DecodeStep(d, pos);
      PrependNone(out);
      var len := Word(d[pos], d[pos + 1], d[pos + 2], d[pos + 3]);
      pos := pos + 4;
      if len == 0 || len > |d| - pos || d[pos] >= 128 {
        return [];
      }
      PrependTwice(out, [d[pos..pos + len]], Decode(d[pos + len..]));
      out := out + [d[pos..pos + len]];
      pos := pos + len;
    }
    DecodeStep(d, pos);
    PrependNone(out);
    if pos != |d| {
      return [];
    }
  }

  lemma EncodeCons(nal: Bytes, rest: seq<Bytes>)
    requires Readable(nal) && AllReadable(rest)
    ensures AllReadable([nal] + rest)
    ensures Encode([nal] + rest) == Encode32(|nal|) + nal + Encode(rest)
  {
    var nals := [nal] + rest;
    assert nals[0] == nal && nals[1..] == rest;
  }

  lemma DecodeCons(nal: Bytes, tail: Bytes)
    requires Readable(nal) && Decode(tail).Some?
    ensures Decode(Encode32(|nal|) + nal + tail) == Some([nal] + Decode(tail).value)
  {
    var d := Encode32(|nal|) + nal + tail;
    assert d[0] == Encode32(|nal|)[0] && d[1] == Encode32(|nal|)[1];
    assert d[2] == Encode32(|nal|)[2] && d[3] == Encode32(|nal|)[3];
    assert d[4..4 + |nal|] == nal && d[4 + |nal|..] == tail;
    assert d[4] == nal[0];
  }

  lemma {:induction false} DecodeEncode(nals: seq<Bytes>)
    requires AllReadable(nals)
    ensures Decode(Encode(nals)) == Some(nals)
  {
    if nals != [] {
      hide Decode, BigEndian, Encode32;
      assert nals[0] in nals;
      DecodeEncode(nals[1..]);
      DecodeCons(nals[0], Encode(nals[1..]));
      assert [nals[0]] + nals[1..] == nals;
    }
  }

  lemma DecodeHead(d: Bytes) returns (nal: Bytes, tail: Bytes)
    requires Decode(d).Some? && d != []
    ensures Readable(nal) && Decode(tail).Some? && |tail| < |d|
    ensures d == Encode32(|nal|) + nal + tail
    ensures Decode(d).value == [nal] + Decode(tail).value
  {
    hide Decode, U32, Prepend;
    DecodeParts(d);
    var len := U32(d);
    nal, tail := d[4..4 + len], d[4 + len..];
    Encode32Unique(d);
    assert d == d[..4] + d[4..4 + len] + d[4 + len..];
  }

  /** The first unit of a buffer that parses. */
  lemma DecodeParts(d: Bytes)
    requires Decode(d).Some? && d != []
    ensures |d| > 4 && 0 < U32(d) <= |d| - 4 && d[4] < 128 && Decode(d[4 + U32(d)..]).Some?
    ensures Decode(d).value == [d[4..4 + U32(d)]] + Decode(d[4 + U32(d)..]).value
  {
    hide U32;
  }

  lemma {:induction false} EncodeDecode(d: Bytes)
    requires Decode(d).Some?
    ensures AllReadable(Decode(d).value) && Encode(Decode(d).value) == d
    decreases |d|
  {
    if d != [] {
      var nal, tail := DecodeHead(d);
      EncodeDecode(tail);
      EncodeCons(nal, Decode(tail).value);
    }
  }

  /** The reader accepts exactly the encodings of readable units, and gives back those units. */
  lemma DecodeIsInverse(d: Bytes, nals: seq<Bytes>)
    ensures Decode(d) == Some(nals) <==> AllReadable(nals) && d == Encode(nals)
  {
    if Decode(d).Some? { EncodeDecode(d); }
    if AllReadable(nals) { DecodeEncode(nals); }
  }

  /** Conversion for the decoder; `out` is meaningful only when something was converted. */
  method ToAnnexB(d: Bytes) returns (converted: bool, out: Bytes)
    ensures converted <==> Decode(d).Some? && d != []
    ensures converted ==> out == Join(Decode(d).value)
  {
    out := [];
    if |d| < 5 {
      return false, out;
    }
    var nals := SplitLengthPrefixed(d);
    if nals == [] {
      return false, out;
    }
    var i := 0;
    assert nals[..|nals|] == nals;
    while i < |nals|
      invariant i <= |nals| && out == Join(nals[..i])
    {
      assert nals[..i + 1] == nals[..i] + [nals[i]];
      JoinAppend(nals[..i], nals[i]);
      out := out + START_CODE + nals[i];
      i := i + 1;
    }
    return true, out;
  }

  /** The conversion keeps the NAL list exactly when no unit has a start code inside. */
  lemma ConversionKeepsNals(d: Bytes)
    requires Decode(d).Some?
    ensures Split(Join(Decode(d).value)) == Decode(d).value
       <==> forall nal :: nal in Decode(d).value ==> StartCodeFree(nal)
  {
    EncodeDecode(d);
    SplitJoin(Decode(d).value);
  }
}
