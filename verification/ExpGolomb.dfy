/**
 Slice headers as the codec reads them: emulation prevention removed (section 7.4.1 of
 H.264, 7.4.2.2 of H.265), then Exp-Golomb numbers (section 9.1 of H.264, 9.2 of H.265).
 */
module ExpGolomb {
  import opened Bytes

  // ---- emulation prevention -----------------------------------------------

  /** The payload `d`, read after `zeros` zero bytes in a row. */
  function Unescape(d: Bytes, zeros: nat): Bytes {
    if d == [] then []
    else if zeros >= 2 && d[0] == 3 then Unescape(d[1..], 0)
    else [d[0]] + Unescape(d[1..], if d[0] == 0 then zeros + 1 else 0)
  }

  /** The encoder's side: a 3 before any byte up to 3 that follows two zero bytes. */
  function Escape(d: Bytes, zeros: nat): Bytes {
    if d == [] then []
    else if zeros >= 2 && d[0] <= 3 then
      [3, d[0]] + Escape(d[1..], if d[0] == 0 then 1 else 0)
    else [d[0]] + Escape(d[1..], if d[0] == 0 then zeros + 1 else 0)
  }

  function Take(d: Bytes, limit: nat): Bytes {
    if |d| <= limit then d else d[..limit]
  }

  /** The first `limit` bytes of a NAL unit, past `skip` header bytes, unescaped. */
  method RbspHead(nal: Bytes, skip: nat, limit: nat) returns (out: Bytes)
    requires skip <= |nal|
    ensures out == Take(Unescape(nal[skip..], 0), limit)
  {
    hide Unescape;
    out := [];
    var zeros := 0;
    var i := skip;
    while i < |nal| && |out| < limit
      invariant skip <= i <= |nal| && |out| <= limit
      invariant Unescape(nal[skip..], 0) == out + Unescape(nal[i..], zeros)
    {
      UnescapeStep(nal, i, zeros);
      if zeros >= 2 && nal[i] == 3 {
        zeros := 0;
      } else {
        zeros := if nal[i] == 0 then zeros + 1 else 0;
        out := out + [nal[i]];
      }
      i := i + 1;
    }
    UnescapeEnd(zeros);
    assert nal[|nal|..] == [];
  }

  lemma UnescapeStep(d: Bytes, i: nat, zeros: nat)
    requires i < |d|
    ensures Unescape(d[i..], zeros)
         == if zeros >= 2 && d[i] == 3 then Unescape(d[i + 1..], 0)
            else [d[i]] + Unescape(d[i + 1..], if d[i] == 0 then zeros + 1 else 0)
  {
    assert d[i..][1..] == d[i + 1..];
  }

  lemma UnescapeEnd(zeros: nat)
    ensures Unescape([], zeros) == []
  {
  }

  lemma {:induction false} UnescapeEscape(d: Bytes, zeros: nat)
    requires zeros <= 2
    ensures Unescape(Escape(d, zeros), zeros) == d
  {
    if d != [] {
      var e := Escape(d, zeros);
      if zeros >= 2 && d[0] <= 3 {
        var next := if d[0] == 0 then 1 else 0;
        UnescapeEscape(d[1..], next);
        assert e[1..][1..] == Escape(d[1..], next);
      } else {
        var next := if d[0] == 0 then zeros + 1 else 0;
        UnescapeEscape(d[1..], next);
        assert e[1..] == Escape(d[1..], next);
      }
    }
  }

  /** Whatever was escaped, the reader sees the first `limit` bytes of it. */
  lemma HeadOfEscaped(header: Bytes, rbsp: Bytes, limit: nat)
    ensures Take(Unescape((header + Escape(rbsp, 0))[|header|..], 0), limit) == Take(rbsp, limit)
  {
    UnescapeEscape(rbsp, 0);
    assert (header + Escape(rbsp, 0))[|header|..] == Escape(rbsp, 0);
  }

  // ---- bits -----------------------------------------------------------------

  type Bit = x: int | 0 <= x < 2

  function Pow2(n: nat): (p: nat)
    ensures p > 0
  {
    if n == 0 then 1 else 2 * Pow2(n - 1)
  }

  /** Bit `pos` of `b`, most significant first. */
  function BitAt(b: Bytes, pos: nat): Bit
    requires pos < 8 * |b|
  {
    b[pos / 8] / Pow2(7 - pos % 8) % 2
  }

  function BitString(b: Bytes): (bits: seq<Bit>)
    ensures |bits| == 8 * |b|
  {
    seq(8 * |b|, i requires 0 <= i < 8 * |b| => BitAt(b, i))
  }

  /** The number a bit string spells, most significant bit first. */
  function Value(bits: seq<Bit>): (v: nat)
    ensures v < Pow2(|bits|)
  {
    if bits == [] then 0 else 2 * Value(bits[..|bits| - 1]) + bits[|bits| - 1]
  }

  function ToBits(v: nat, n: nat): (bits: seq<Bit>)
    requires v < Pow2(n)
    ensures |bits| == n && Value(bits) == v
  {
    if n == 0 then [] else ToBits(v / 2, n - 1) + [v % 2]
  }

  /** floor(log2(k)). */
  function Log2(k: nat): (n: nat)
    requires k > 0
    ensures Pow2(n) <= k < Pow2(n + 1)
  {
    if k == 1 then 0 else Log2(k / 2) + 1
  }

  function Zeros(n: nat): (bits: seq<Bit>)
    ensures |bits| == n && forall i :: 0 <= i < n ==> bits[i] == 0
  {
    seq(n, _ => 0)
  }

  /** ue(v): as many zeros as bits follow the leading one of `k + 1`. */
  function UeCode(k: nat): seq<Bit> {
    var n := Log2(k + 1);
    Zeros(n) + [1] + ToBits(k + 1 - Pow2(n), n)
  }

  datatype Cursor = Cursor(pos: nat, ok: bool)

  /** Reading `count` bits: 0 and a dead cursor when they run out. */
  function ReadBits(bits: seq<Bit>, c: Cursor, count: nat): (nat, Cursor)
    requires c.pos <= |bits|
  {
    if count == 0 then (0, c)
    else if c.pos + count > |bits| then (0, Cursor(|bits|, false))
    else (Value(bits[c.pos..c.pos + count]), c.(pos := c.pos + count))
  }

  /** Zeros up to a one; a 32nd zero ends the scan as well. */
  function UeZeros(bits: seq<Bit>, pos: nat, zeros: nat): (r: (nat, Cursor))
    requires pos <= |bits| && zeros <= 31
    ensures r.0 <= 31 && r.1.pos <= |bits|
    decreases |bits| - pos
  {
    if pos == |bits| then (zeros, Cursor(pos, false))
    else if bits[pos] == 1 || zeros == 31 then (zeros, Cursor(pos + 1, true))
    else UeZeros(bits, pos + 1, zeros + 1)
  }

  function UeRead(bits: seq<Bit>, c: Cursor): (r: (nat, Cursor))
    requires c.pos <= |bits|
    ensures c.ok ==> r.1.pos <= |bits|
  {
    if !c.ok then (0, c) else
      var (zeros, after) := UeZeros(bits, c.pos, 0);
      if !after.ok then (0, after) else
        var (v, end) := ReadBits(bits, after, zeros);
        (Pow2(zeros) - 1 + v, end)
  }

  lemma {:induction false} Pow2Monotonic(m: nat, n: nat)
    requires m <= n
    ensures Pow2(m) <= Pow2(n)
    decreases n
  {
    if m < n { Pow2Monotonic(m, n - 1); }
  }

  lemma Pow2Of31()
    ensures Pow2(31) == 0x8000_0000
  {
    assert Pow2(6) == 0x40;
    assert Pow2(11) == 0x800;
    assert Pow2(16) == 0x1_0000;
    assert Pow2(21) == 0x20_0000;
    assert Pow2(26) == 0x400_0000;
  }

  /** Shifting one more bit in: no loss while the result has at most 32 bits. */
  lemma ValueAppend(bits: seq<Bit>, from: nat, to: nat)
    requires from <= to < |bits|
    ensures Value(bits[from..to + 1]) == 2 * Value(bits[from..to]) + bits[to]
    ensures to - from < 32 ==> 2 * Value(bits[from..to]) < TWO_32
  {
    assert bits[from..to + 1][..to - from] == bits[from..to];
    if to - from < 32 {
      Pow2Monotonic(to - from, 31);
      Pow2Of31();
    }
  }

  lemma ValueNone()
    ensures Value([]) == 0
  {
  }

  lemma ReadOne(bits: seq<Bit>, c: Cursor)
    requires c.pos <= |bits|
    ensures ReadBits(bits, c, 1) == if c.pos < |bits| then (bits[c.pos], c.(pos := c.pos + 1))
                                    else (0, Cursor(|bits|, false))
  {
    if c.pos < |bits| { ValueAppend(bits, c.pos, c.pos); }
  }

  lemma UeFits(zeros: nat, v: nat)
    requires zeros <= 31 && v < Pow2(zeros)
    ensures Pow2(zeros) - 1 + v < TWO_32
  {
    Pow2Monotonic(zeros, 31);
    Pow2Of31();
  }

  /** The bit reader over unescaped bytes. */
  class Bits {
    const b: Bytes
    var pos: nat
    var ok: bool

    constructor (b: Bytes)
      ensures this.b == b && pos == 0 && ok
    {
      this.b := b;
      pos := 0;
      ok := true;
    }

    ghost predicate Valid()
      reads this
    {
      pos <= 8 * |b|
    }

    ghost function State(): Cursor
      reads this
    {
      Cursor(pos, ok)
    }

    /** `v` is a 32-bit unsigned in the source: up to 32 bits the shifts lose nothing. */
    method Read(count: nat) returns (v: nat)
      requires Valid() && count <= 32
      modifies this
      ensures Valid()
      ensures (v, State()) == ReadBits(BitString(b), old(State()), count)
    {
      hide Value, Pow2, BitAt;
      ghost var bits := BitString(b);
      v := 0;
      var i := 0;
      assert bits[pos..pos] == [];
      ValueNone();
      while i < count
        invariant i <= count && pos == old(pos) + i <= 8 * |b|
        invariant ok == old(ok)
        invariant v == Value(bits[old(pos)..pos])
      {
        if pos / 8 >= |b| {
          ok := false;
          return 0;
        }
        ValueAppend(bits, old(pos), pos);
        v := v * 2 % TWO_32 + BitAt(b, pos);
        pos := pos + 1;
        i := i + 1;
      }
    }

    /** One ue(v) number, without 32-bit overflow. */
    method Ue() returns (r: nat)
      requires Valid()
      modifies this
      ensures Valid()
      ensures (r, State()) == UeRead(BitString(b), old(State()))
      ensures r < TWO_32
    {
      hide BitString, Value, Pow2;
      ghost var bits := BitString(b);
      var zeros := 0;
      while ok
        invariant Valid() && zeros <= 31
        invariant !old(ok) ==> State() == old(State())
        invariant old(ok) && ok ==> UeZeros(bits, old(pos), 0) == UeZeros(bits, pos, zeros)
        invariant old(ok) && !ok ==> UeZeros(bits, old(pos), 0).1 == State()
        decreases ok, 8 * |b| - pos
      {
        ReadOne(bits, State());
        var bit := Read(1);
        if bit != 0 || zeros >= 31 {
          break;
        }
        zeros := zeros + 1;
      }
      if ok {
        var v := Read(zeros);
        UeFits(zeros, v);
        r := Pow2(zeros) - 1 + v;
      } else {
        r := 0;
      }
    }
  }

  // ---- what the reader decodes -------------------------------------------------

  /** The ue(v) code of `k` stands at `pos`. */
  predicate CodeAt(bits: seq<Bit>, pos: nat, k: nat) {
    var code := UeCode(k);
    pos + |code| <= |bits| && bits[pos..pos + |code|] == code
  }

  lemma {:induction false} ZerosThenOne(bits: seq<Bit>, pos: nat, zeros: nat, n: nat)
    requires zeros <= n <= 31 && pos + (n - zeros) < |bits|
    requires forall i :: pos <= i < pos + (n - zeros) ==> bits[i] == 0
    requires bits[pos + (n - zeros)] == 1
    ensures UeZeros(bits, pos, zeros) == (n, Cursor(pos + (n - zeros) + 1, true))
    decreases n - zeros
  {
    if zeros < n { ZerosThenOne(bits, pos + 1, zeros + 1, n); }
  }

  lemma Log2Below32(k: nat)
    requires k < TWO_32 - 1
    ensures Log2(k + 1) <= 31
  {
    var n := Log2(k + 1);
    if n > 31 {
      Pow2Monotonic(32, n);
      Pow2Of31();
      assert false;
    }
  }

  lemma UeLength(k: nat)
    requires k < TWO_32 - 1
    ensures |UeCode(k)| == 2 * Log2(k + 1) + 1 <= 63
  {
    Log2Below32(k);
  }

  /** Every ue(v) code of a number below 2^32 - 1 is read as that number, and the cursor ends
      just past it. */
  lemma UeReadsCode(bits: seq<Bit>, pos: nat, k: nat)
    requires k < TWO_32 - 1 && CodeAt(bits, pos, k)
    ensures UeRead(bits, Cursor(pos, true)) == (k, Cursor(pos + |UeCode(k)|, true))
  {
    hide Value, UeZeros, UeRead, Pow2, Log2, ToBits, UeCode;
    var n, code := Log2(k + 1), UeCode(k);
    CodeParts(k);
    Log2Below32(k);
    var here := bits[pos..pos + |code|];
    assert forall i :: 0 <= i < n ==> here[i] == bits[pos + i] == 0;
    assert here[n] == bits[pos + n] == 1;
    ZerosThenOne(bits, pos, 0, n);
    assert bits[pos + n + 1..pos + n + 1 + n] == here[n + 1..] == ToBits(k + 1 - Pow2(n), n);
    UeReadParts(bits, pos, n);
  }

  /** A read number is made of its count of zeros and of the bits after the one. */
  lemma UeReadParts(bits: seq<Bit>, pos: nat, n: nat)
    requires pos + 2 * n < |bits|
    requires UeZeros(bits, pos, 0) == (n, Cursor(pos + n + 1, true))
    ensures UeRead(bits, Cursor(pos, true))
         == (Pow2(n) - 1 + Value(bits[pos + n + 1..pos + n + 1 + n]), Cursor(pos + 2 * n + 1, true))
  {
    hide UeZeros;
  }

  /** The scan: zeros up to a one, or 32 zeros. */
  lemma {:induction false} ScanParts(bits: seq<Bit>, pos: nat, zeros: nat)
    requires pos <= |bits| && zeros <= 31 && UeZeros(bits, pos, zeros).1.ok
    ensures
      var (n, after) := UeZeros(bits, pos, zeros);
      && zeros <= n <= 31 && after.pos == pos + (n - zeros) + 1 <= |bits|
      && (forall i :: pos <= i < pos + (n - zeros) ==> bits[i] == 0)
      && (bits[pos + (n - zeros)] == 1 || n == 31)
    decreases |bits| - pos
  {
    if pos < |bits| && bits[pos] != 1 && zeros != 31 {
      ScanParts(bits, pos + 1, zeros + 1);
    }
  }

  /** There is a one among the next 32 bits. */
  predicate OneAhead(bits: seq<Bit>, pos: nat) {
    exists i :: pos <= i < pos + 32 && i < |bits| && bits[i] == 1
  }

  /** A number that was read is one whose code stood there, unless the scan stopped at a 32nd zero. */
  lemma ReadCodeIsUnique(bits: seq<Bit>, pos: nat)
    requires pos <= |bits| && UeRead(bits, Cursor(pos, true)).1.ok
    ensures CodeAt(bits, pos, UeRead(bits, Cursor(pos, true)).0) <==> OneAhead(bits, pos)
  {
    hide UeCode, UeZeros, Value, Pow2;
    ScanParts(bits, pos, 0);
    var n := UeZeros(bits, pos, 0).0;
    assert pos + 2 * n < |bits|;
    UeReadParts(bits, pos, n);
    var low := bits[pos + n + 1..pos + n + 1 + n];
    CodeOfParts(n, low);
    if bits[pos + n] == 1 {
      assert bits[pos..pos + 2 * n + 1] == Zeros(n) + [1] + low;
    } else {
      assert !OneAhead(bits, pos);
      assert (Zeros(n) + [1] + low)[n] == 1;
      assert bits[pos..pos + 2 * n + 1][n] == bits[pos + n];
    }
  }

  /** 32 zeros with 31 bits more are read, as the number that 31 zeros and a one stand for. */
  lemma ThirtyTwoZeros(bits: seq<Bit>, pos: nat)
    requires pos + 63 <= |bits| && forall i :: pos <= i < pos + 32 ==> bits[i] == 0
    ensures
      var (k, after) := UeRead(bits, Cursor(pos, true));
      after == Cursor(pos + 63, true) && !CodeAt(bits, pos, k) && CodeAt(bits[pos + 31 := 1], pos, k)
  {
    hide UeCode, UeRead, Value, Pow2;
    ThirtyTwoScanned(bits, pos, 0);
    UeReadParts(bits, pos, 31);
    ReadCodeIsUnique(bits, pos);
    var low := bits[pos + 32..pos + 63];
    CodeOfParts(31, low);
    assert bits[pos + 31 := 1][pos..pos + 63] == Zeros(31) + [1] + low;
  }

  lemma {:induction false} ThirtyTwoScanned(bits: seq<Bit>, pos: nat, zeros: nat)
    requires zeros <= 31 && pos + 32 - zeros <= |bits|
    requires forall i :: pos <= i < pos + 32 - zeros ==> bits[i] == 0
    ensures UeZeros(bits, pos, zeros) == (31, Cursor(pos + 32 - zeros, true))
    decreases 31 - zeros
  {
    if zeros < 31 {
      ThirtyTwoScanned(bits, pos + 1, zeros + 1);
    }
  }

  lemma PowDoubles(n: nat)
    ensures Pow2(n + 1) == 2 * Pow2(n) && Pow2(n) >= 1
  {
  }

  lemma CodeOfParts(n: nat, low: seq<Bit>)
    requires |low| == n
    ensures UeCode(Pow2(n) - 1 + Value(low)) == Zeros(n) + [1] + low
  {
    hide Value, Log2, ToBits, Zeros, Pow2, UeCode;
    var v := Value(low);
    PowDoubles(n);
    Log2Unique(Pow2(n) + v, n);
    CodeParts(Pow2(n) - 1 + v);
    ToBitsOfValue(low);
  }

  lemma CodeParts(k: nat)
    ensures var n := Log2(k + 1);
      Pow2(n) <= k + 1 < 2 * Pow2(n) && UeCode(k) == Zeros(n) + [1] + ToBits(k + 1 - Pow2(n), n)
  {
    hide Log2, ToBits, Zeros;
  }

  lemma Log2Unique(k: nat, n: nat)
    requires Pow2(n) <= k < Pow2(n + 1)
    ensures k > 0 && Log2(k) == n
  {
    var m := Log2(k);
    if m < n { Pow2Monotonic(m + 1, n); }
    if n < m { Pow2Monotonic(n + 1, m); }
  }

  lemma {:induction false} ToBitsOfValue(bits: seq<Bit>)
    ensures ToBits(Value(bits), |bits|) == bits
  {
    if bits != [] { ToBitsOfValue(bits[..|bits| - 1]); }
  }
}
