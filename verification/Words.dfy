/** Little-endian words in memory, as x86-64 keeps them. */
module Words {
  import opened Bytes

  function Pow256(n: nat): nat {
    if n == 0 then 1 else 256 * Pow256(n - 1)
  }

  /** The number spelled by `d`, least significant octet first. */
  function Number(d: Bytes): nat {
    if d == [] then 0 else d[0] + 256 * Number(d[1..])
  }

  /** The low `n` octets of `v`, least significant first. */
  function Octets(v: nat, n: nat): (d: Bytes)
    ensures |d| == n
  {
    if n == 0 then [] else [v % 256] + Octets(v / 256, n - 1)
  }

  lemma {:induction false} NumberBound(d: Bytes)
    ensures Number(d) < Pow256(|d|)
  {
    if d != [] {
      NumberBound(d[1..]);
    }
  }

  lemma {:induction false} NumberOfOctets(v: nat, n: nat)
    requires v < Pow256(n)
    ensures Number(Octets(v, n)) == v
  {
    if n > 0 {
      NumberOfOctets(v / 256, n - 1);
      assert Octets(v, n)[1..] == Octets(v / 256, n - 1);
    }
  }

  function Word(m: Bytes, at: nat): (v: nat)
    requires at + 8 <= |m|
    ensures v < TWO_64
  {
    Word64(m[at..at + 8]);
    Number(m[at..at + 8])
  }

  function Half(m: Bytes, at: nat): (v: nat)
    requires at + 4 <= |m|
    ensures v < TWO_32
  {
    NumberBound(m[at..at + 4]);
    Powers();
    Number(m[at..at + 4])
  }

  lemma Powers()
    ensures Pow256(4) == TWO_32 && Pow256(8) == TWO_64
  {
    assert Pow256(2) == 0x1_0000;
    assert Pow256(4) == TWO_32;
    assert Pow256(6) == 0x1_0000 * TWO_32;
  }

  lemma Word64(d: Bytes)
    requires |d| == 8
    ensures Number(d) < TWO_64
  {
    NumberBound(d);
    Powers();
  }

  lemma NumberStep(d: Bytes, a: Byte, rest: Bytes)
    requires d == [a] + rest
    ensures Number(d) == a + 256 * Number(rest)
  {
  }

  /** The least significant octet comes first. */
  lemma HalfByOctets(m: Bytes, at: nat)
    requires at + 4 <= |m|
    ensures Half(m, at) == m[at] as int + 0x100 * m[at + 1] as int + 0x1_0000 * m[at + 2] as int
                           + 0x100_0000 * m[at + 3] as int
  {
    hide Number;
    NumberStep(m[at..at + 4], m[at], m[at + 1..at + 4]);
    NumberStep(m[at + 1..at + 4], m[at + 1], m[at + 2..at + 4]);
    NumberStep(m[at + 2..at + 4], m[at + 2], m[at + 3..at + 4]);
    NumberStep(m[at + 3..at + 4], m[at + 3], []);
    NumberOfNone();
  }

  lemma NumberOfNone()
    ensures Number([]) == 0
  {
  }

  lemma WordByHalves(m: Bytes, at: nat)
    requires at + 8 <= |m|
    ensures Word(m, at) == Half(m, at) + 0x1_0000_0000 * Half(m, at + 4)
  {
    hide Number;
    NumberStep(m[at..at + 8], m[at], m[at + 1..at + 8]);
    NumberStep(m[at + 1..at + 8], m[at + 1], m[at + 2..at + 8]);
    NumberStep(m[at + 2..at + 8], m[at + 2], m[at + 3..at + 8]);
    NumberStep(m[at + 3..at + 8], m[at + 3], m[at + 4..at + 8]);
    HalfByOctets(m, at);
  }

  /** Memory with a word stored in it. */
  function Stored(m: Bytes, at: nat, v: nat): (r: Bytes)
    requires at + 8 <= |m|
    ensures |r| == |m|
  {
    m[..at] + Octets(v, 8) + m[at + 8..]
  }

  /** `*where = v` */
  method Store(memory: array<Byte>, at: nat, v: nat)
    requires at + 8 <= memory.Length
    modifies memory
    ensures memory[..] == Stored(old(memory[..]), at, v)
  {
    hide Octets;
    var octets := Octets(v, 8);
    forall k | 0 <= k < 8 {
      memory[at + k] := octets[k];
    }
  }
}
