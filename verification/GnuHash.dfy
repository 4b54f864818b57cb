/** The GNU hash section of a shared object: how many symbols the object has. */
module GnuHash {
  import opened Bytes
  import opened Words

  /** `n` 32-bit words. */
  function Halves(m: Bytes, at: nat, n: nat): seq<nat>
    requires at + 4 * n <= |m|
  {
    seq(n, i requires 0 <= i < n => Half(m, at + 4 * i))
  }

  /** Symbol symoffset + j is the first of its chain: the one before it ended. */
  predicate Starts(chain: seq<nat>, j: nat)
    requires j < |chain|
  {
    j == 0 || chain[j - 1] % 2 == 1
  }

  /** The symbols from `symoffset` on, in chains one after the other: each bucket names the first
      symbol of its chain, or 0, and the low bit of the hash ends a chain. */
  ghost predicate InChains(buckets: seq<nat>, symoffset: nat, chain: seq<nat>) {
    && 1 <= symoffset
    && (forall b :: b in buckets ==> b == 0 || symoffset <= b < symoffset + |chain|)
    && (forall j :: 0 <= j < |chain| ==> (Starts(chain, j) <==> symoffset + j in buckets))
    && (chain != [] ==> chain[|chain| - 1] % 2 == 1)
  }

  /** A hash table at `at` over the symbols symoffset..n-1. */
  ghost predicate WellFormed(m: Bytes, at: nat, n: nat) {
    && at + 16 <= |m| && n < TWO_32
    && var (nbuckets, symoffset, bloom) := (Half(m, at), Half(m, at + 4), Half(m, at + 8));
      && symoffset <= n && at + 16 + 8 * bloom + 4 * nbuckets + 4 * (n - symoffset) <= |m|
      && InChains(Halves(m, at + 16 + 8 * bloom, nbuckets), symoffset,
                  Halves(m, at + 16 + 8 * bloom + 4 * nbuckets, n - symoffset))
  }

  method HighestBucket(m: Bytes, at: nat, n: nat) returns (last: nat)
    requires at + 4 * n <= |m|
    ensures last == 0 || last in Halves(m, at, n)
    ensures forall b :: b in Halves(m, at, n) ==> b <= last
  {
    hide Half;
    ghost var buckets := Halves(m, at, n);
    var i := 0;
    last := 0;
    while i < n
      invariant i <= n && (last == 0 || last in buckets)
      invariant forall k :: 0 <= k < i ==> buckets[k] <= last
    {
      assert buckets[i] == Half(m, at + 4 * i);
      if Half(m, at + 4 * i) > last {
        last := Half(m, at + 4 * i);
      }
      i := i + 1;
    }
  }

  /** The first chain that ends is the last one when it starts at the highest bucket. */
  method SymbolCount(m: Bytes, at: nat, ghost n: nat) returns (count: nat)
    requires WellFormed(m, at, n)
    ensures count == n
  {
    hide Half;
    var nbuckets, symoffset, bloom := Half(m, at), Half(m, at + 4), Half(m, at + 8);
    var bucketsAt := at + 16 + 8 * bloom;
    var chainAt := bucketsAt + 4 * nbuckets;
    ghost var buckets, chain := Halves(m, bucketsAt, nbuckets), Halves(m, chainAt, n - symoffset);
    var last := HighestBucket(m, bucketsAt, nbuckets);
    assert n > symoffset ==> Starts(chain, 0);
    if last < symoffset {
      return symoffset;
    }
    var idx := last;
    while Half(m, chainAt + 4 * (idx - symoffset)) % 2 == 0
      invariant last <= idx < n && (idx + 1 < n ==> !Starts(chain, idx + 1 - symoffset))
      decreases n - idx
    {
      assert chain[idx - symoffset] == Half(m, chainAt + 4 * (idx - symoffset));
      idx := idx + 1;
    }
    assert chain[idx - symoffset] == Half(m, chainAt + 4 * (idx - symoffset));
    return idx + 1;
  }

  ghost predicate AllEmpty(buckets: seq<nat>) {
    forall b :: b in buckets ==> b == 0
  }

  /** Without a chain there is no symbol from symoffset on. */
  lemma NoChains(m: Bytes, at: nat, n: nat)
    requires WellFormed(m, at, n)
    requires AllEmpty(Halves(m, at + 16 + 8 * Half(m, at + 8), Half(m, at)))
    ensures n == Half(m, at + 4)
  {
    hide Half;
    var (nbuckets, symoffset, bloom) := (Half(m, at), Half(m, at + 4), Half(m, at + 8));
    var chain := Halves(m, at + 16 + 8 * bloom + 4 * nbuckets, n - symoffset);
    assert chain != [] ==> Starts(chain, 0);
  }

  /** The table fixes the count. */
  lemma CountIsUnique(m: Bytes, at: nat, n: nat, k: nat)
    requires WellFormed(m, at, n) && WellFormed(m, at, k)
    ensures n == k
  {
    hide Half, InChains;
    var (nbuckets, symoffset, bloom) := (Half(m, at), Half(m, at + 4), Half(m, at + 8));
    var buckets := Halves(m, at + 16 + 8 * bloom, nbuckets);
    var chainAt := at + 16 + 8 * bloom + 4 * nbuckets;
    if n <= k {
      NoneAfterTheEnd(buckets, symoffset, Halves(m, chainAt, n - symoffset), Halves(m, chainAt, k - symoffset));
    } else {
      NoneAfterTheEnd(buckets, symoffset, Halves(m, chainAt, k - symoffset), Halves(m, chainAt, n - symoffset));
    }
  }

  lemma NoneAfterTheEnd(buckets: seq<nat>, symoffset: nat, short: seq<nat>, long: seq<nat>)
    requires InChains(buckets, symoffset, short) && InChains(buckets, symoffset, long) && short <= long
    ensures |short| == |long|
  {
    assert |short| < |long| ==> Starts(long, |short|);
  }
}
