/**
 Relocations: the words an object's tables say must be filled in once its address is known.
 */
module Relocation {
  import opened Bytes
  import opened Words
  import opened Wrappers

  const R_64: nat := 1
  const R_GLOB_DAT: nat := 6
  const R_JUMP_SLOT: nat := 7
  const R_RELATIVE: nat := 8
  const R_DTPMOD64: nat := 16
  const R_DTPOFF64: nat := 17
  const R_TPOFF64: nat := 18

  const RELA_SIZE: nat := 24
  const SYM_SIZE: nat := 24

  type Address = a: int | 0 <= a < TWO_64

  /** A word to be stored at an index of the mapping. */
  datatype Write = Write(at: int, value: nat)

  // ---- memory after a list of stores ----------------------------------------------

  ghost predicate Fits(ws: seq<Write>, size: nat) {
    forall i :: 0 <= i < |ws| ==> 0 <= ws[i].at <= size - 8
  }

  predicate Disjoint(a: Write, b: Write) {
    a.at + 8 <= b.at || b.at + 8 <= a.at
  }

  ghost predicate Apart(ws: seq<Write>) {
    forall i, j :: 0 <= i < j < |ws| ==> Disjoint(ws[i], ws[j])
  }

  /** One store after the other. */
  ghost function Patched(m: Bytes, ws: seq<Write>): (r: Bytes)
    requires Fits(ws, |m|)
    ensures |r| == |m|
  {
    if ws == [] then m else Stored(Patched(m, ws[..|ws| - 1]), ws[|ws| - 1].at, ws[|ws| - 1].value)
  }

  predicate Covers(w: Write, b: nat) {
    w.at <= b < w.at + 8
  }

  lemma {:induction false} OutsideUnchanged(m: Bytes, ws: seq<Write>, b: nat)
    requires Fits(ws, |m|) && b < |m| && forall i :: 0 <= i < |ws| ==> !Covers(ws[i], b)
    ensures Patched(m, ws)[b] == m[b]
  {
    hide Octets;
    if ws != [] {
      OutsideUnchanged(m, ws[..|ws| - 1], b);
      assert !Covers(ws[|ws| - 1], b);
    }
  }

  lemma {:induction false} InsideStored(m: Bytes, ws: seq<Write>, i: nat, b: nat)
    requires Fits(ws, |m|) && Apart(ws) && i < |ws| && b < |m| && Covers(ws[i], b)
    ensures Patched(m, ws)[b] == Octets(ws[i].value, 8)[b - ws[i].at]
  {
    hide Octets;
    if i < |ws| - 1 {
      InsideStored(m, ws[..|ws| - 1], i, b);
      assert Disjoint(ws[i], ws[|ws| - 1]);
    }
  }

  predicate Outside(w: Write, lo: int, hi: int) {
    w.at + 8 <= lo || hi <= w.at
  }

  ghost predicate AllOutside(ws: seq<Write>, lo: int, hi: int) {
    forall i :: 0 <= i < |ws| ==> Outside(ws[i], lo, hi)
  }

  /** A range no store touches. */
  lemma RangeUnchanged(m: Bytes, ws: seq<Write>, lo: int, hi: int)
    requires Fits(ws, |m|) && 0 <= lo <= hi <= |m| && AllOutside(ws, lo, hi)
    ensures SameRange(m, Patched(m, ws), lo, hi)
  {
    forall b | lo <= b < hi
      ensures Patched(m, ws)[b] == m[b]
    {
      assert forall i :: 0 <= i < |ws| ==> Outside(ws[i], lo, hi) ==> !Covers(ws[i], b);
      OutsideUnchanged(m, ws, b);
    }
  }

  /** The order of disjoint stores does not matter. */
  lemma StoreOrderIrrelevant(m: Bytes, a: seq<Write>, b: seq<Write>)
    requires Fits(a, |m|) && Fits(b, |m|) && Apart(a) && Apart(b) && forall w :: w in a <==> w in b
    ensures Patched(m, a) == Patched(m, b)
  {
    hide Patched, Apart, Octets;
    forall k | 0 <= k < |m|
      ensures Patched(m, a)[k] == Patched(m, b)[k]
    {
      if i :| 0 <= i < |a| && Covers(a[i], k) {
        assert a[i] in b;
        var j :| 0 <= j < |b| && b[j] == a[i];
        InsideStored(m, a, i, k);
        InsideStored(m, b, j, k);
      } else {
        forall j | 0 <= j < |b|
          ensures !Covers(b[j], k)
        {
          assert b[j] in a;
        }
        OutsideUnchanged(m, a, k);
        OutsideUnchanged(m, b, k);
      }
    }
  }

  // ---- symbols --------------------------------------------------------------------

  /** The addresses a loaded object is known by; 0 is a missing table. */
  datatype Object = Object(base: nat, start: nat, symtab: nat, strtab: nat, symcount: nat, strsz: nat)

  datatype Rela = Rela(offset: nat, kind: nat, symbol: nat, addend: nat)

  datatype Symbol = Symbol(name: nat, weak: bool, defined: bool, value: nat)

  datatype Error = BadSymbolIndex(symbol: nat) | NamePastTable(symbol: nat) | Undefined(name: Bytes)

  function RelaAt(m: Bytes, at: nat): Rela
    requires at + RELA_SIZE <= |m|
  {
    Rela(Word(m, at), Half(m, at + 8), Half(m, at + 12), Word(m, at + 16))
  }

  /** Entry `k` of the relocation table at `at`. */
  function Entry(m: Bytes, at: nat, k: nat): Rela
    requires at + RELA_SIZE * k + RELA_SIZE <= |m|
  {
    RelaAt(m, at + RELA_SIZE * k)
  }

  /** Entry `k` of the symbol table at `at`. */
  function SymbolEntry(m: Bytes, at: nat, k: nat): Symbol
    requires at + SYM_SIZE * k + SYM_SIZE <= |m|
  {
    SymbolAt(m, at + SYM_SIZE * k)
  }

  function SymbolAt(m: Bytes, at: nat): Symbol
    requires at + SYM_SIZE <= |m|
  {
    Symbol(Half(m, at), m[at + 4] / 16 == 2, m[at + 6] != 0 || m[at + 7] != 0, Word(m, at + 8))
  }

  /** The string up to its NUL. */
  function Name(m: Bytes, at: nat): Bytes
    decreases |m| - at
  {
    if at >= |m| || m[at] == 0 then [] else [m[at]] + Name(m, at + 1)
  }

  /** The symbol table is in a mapping of `size` octets, and the names do not start before it. */
  predicate SymbolsIn(o: Object, size: nat) {
    o.start <= o.symtab && o.symtab - o.start + SYM_SIZE * o.symcount <= size && o.start <= o.strtab
  }

  ghost predicate NamesIn(m: Bytes, at: nat, count: nat, strings: nat)
    requires at + SYM_SIZE * count <= |m|
  {
    forall k :: 0 <= k < count ==> SymbolEntry(m, at, k).name < strings
  }

  /** The tables are in the mapping: `symcount` symbols, and `strings` octets of names, the last a NUL;
      every name that is looked up starts among them. */
  ghost predicate TablesIn(o: Object, m: Bytes, strings: nat) {
    && SymbolsIn(o, |m|) && 0 < strings && o.strtab - o.start + strings <= |m|
    && m[o.strtab - o.start + strings - 1] == 0
    && (o.strsz == strings || (o.strsz == 0 && NamesIn(m, o.symtab - o.start, o.symcount, strings)))
  }

  /** A symbol's address: in the object, or the host's; an unknown weak one is 0. */
  function Resolve(o: Object, host: Bytes -> Address, m: Bytes, symbol: nat): Result<nat, Error>
    requires SymbolsIn(o, |m|)
  {
    if o.symtab == 0 || o.strtab == 0 || o.symcount == 0 || symbol >= o.symcount then Err(BadSymbolIndex(symbol))
    else
      var s := SymbolEntry(m, o.symtab - o.start, symbol);
      if s.defined then Ok((o.base + s.value) % TWO_64)
      else if o.strsz != 0 && s.name >= o.strsz then Err(NamePastTable(symbol))
      else
        var name := Name(m, o.strtab - o.start + s.name);
        if host(name) != 0 then Ok(host(name)) else if s.weak then Ok(0) else Err(Undefined(name))
  }

  /** The word of a relocation: B + A, S + A or S; the others are left alone. */
  function Value(o: Object, host: Bytes -> Address, m: Bytes, r: Rela): Result<Option<nat>, Error>
    requires SymbolsIn(o, |m|)
  {
    if r.kind == R_RELATIVE then Ok(Some((o.base + r.addend) % TWO_64))
    else if r.kind == R_64 || r.kind == R_GLOB_DAT then
      match Resolve(o, host, m, r.symbol)
      case Ok(s) => Ok(Some((s + r.addend) % TWO_64))
      case Err(e) => Err(e)
    else if r.kind == R_JUMP_SLOT then
      match Resolve(o, host, m, r.symbol)
      case Ok(s) => Ok(Some(s))
      case Err(e) => Err(e)
    else Ok(None)
  }

  // ---- the same by the octets of the tables ---------------------------------------

  /** The octets from `at` up to a NUL, or to the end. */
  ghost predicate IsString(m: Bytes, at: nat, name: Bytes) {
    if at > |m| then name == []
    else
      && at + |name| <= |m| && name == m[at..at + |name|] && 0 !in name
      && (at + |name| < |m| ==> m[at + |name|] == 0)
  }

  /** `s` is the address of a symbol: its entry, 24 octets long, has st_name at 0, st_info at 4, st_shndx at 6 and
      st_value at 8. Only a weak one, binding 2, may have none. */
  ghost predicate IsAddress(o: Object, host: Bytes -> Address, m: Bytes, symbol: nat, s: nat)
    requires SymbolsIn(o, |m|)
  {
    && o.symtab != 0 && o.strtab != 0 && symbol < o.symcount
    && var at := o.symtab - o.start + 24 * symbol;
       if m[at + 6] != 0 || m[at + 7] != 0 then s == (o.base + Word(m, at + 8)) % TWO_64
       else
         && (o.strsz == 0 || Half(m, at) < o.strsz)
         && exists name ::
              IsString(m, o.strtab - o.start + Half(m, at), name) && s == host(name) && (s == 0 ==> m[at + 4] / 16 == 2)
  }

  /** `v` is the word of a relocation: B + A of kind 8, S + A of kinds 1 and 6, S of kind 7. */
  ghost predicate IsWord(o: Object, host: Bytes -> Address, m: Bytes, r: Rela, v: nat)
    requires SymbolsIn(o, |m|)
  {
    || (r.kind == 8 && v == (o.base + r.addend) % TWO_64)
    || (r.kind == 7 && IsAddress(o, host, m, r.symbol, v))
    || (r.kind in {1, 6} && exists s: nat :: IsAddress(o, host, m, r.symbol, s) && v == (s + r.addend) % TWO_64)
  }

  lemma {:induction false} NameIsString(m: Bytes, at: nat)
    ensures IsString(m, at, Name(m, at))
    decreases |m| - at
  {
    if at < |m| && m[at] != 0 {
      NameIsString(m, at + 1);
      var (name, rest) := (Name(m, at), Name(m, at + 1));
      assert name == [m[at]] + rest == [m[at]] + m[at + 1..at + 1 + |rest|] == m[at..at + |name|];
    }
  }

  lemma {:induction false} StringIsName(m: Bytes, at: nat, name: Bytes)
    requires IsString(m, at, name)
    ensures name == Name(m, at)
    decreases |name|
  {
    if name != [] {
      assert m[at] == m[at..at + |name|][0] == name[0];
      assert name[1..] == m[at..at + |name|][1..] == m[at + 1..at + |name|];
      StringIsName(m, at + 1, name[1..]);
    }
  }

  lemma AddressIsResolved(o: Object, host: Bytes -> Address, m: Bytes, symbol: nat, s: nat)
    requires SymbolsIn(o, |m|)
    ensures IsAddress(o, host, m, symbol, s) <==> Resolve(o, host, m, symbol) == Ok(s)
  {
    hide Name, IsString, Number;
    if o.symtab != 0 && o.strtab != 0 && symbol < o.symcount {
      var start := o.strtab - o.start + Half(m, o.symtab - o.start + 24 * symbol);
      NameIsString(m, start);
      forall name | IsString(m, start, name)
        ensures name == Name(m, start)
      {
        StringIsName(m, start, name);
      }
    }
  }

  /** A relocation has exactly the word that its kind and its symbol's octets give it. */
  lemma WordIsValue(o: Object, host: Bytes -> Address, m: Bytes, r: Rela, v: nat)
    requires SymbolsIn(o, |m|)
    ensures IsWord(o, host, m, r, v) <==> Value(o, host, m, r) == Ok(Some(v))
  {
    hide Resolve, IsAddress;
    forall s: nat
      ensures IsAddress(o, host, m, r.symbol, s) <==> Resolve(o, host, m, r.symbol) == Ok(s)
    {
      AddressIsResolved(o, host, m, r.symbol, s);
    }
  }

  lemma WordsAreValues(o: Object, host: Bytes -> Address, m: Bytes, r: Rela)
    requires SymbolsIn(o, |m|)
    ensures forall v: nat :: IsWord(o, host, m, r, v) <==> Value(o, host, m, r) == Ok(Some(v))
  {
    hide IsWord, Value;
    forall v: nat
      ensures IsWord(o, host, m, r, v) <==> Value(o, host, m, r) == Ok(Some(v))
    {
      WordIsValue(o, host, m, r, v);
    }
  }

  /** Where in the mapping. */
  function Slot(o: Object, r: Rela): int {
    (o.base + r.offset) % TWO_64 - o.start
  }

  predicate Stores(r: Rela) {
    r.kind in {R_64, R_GLOB_DAT, R_JUMP_SLOT, R_RELATIVE}
  }

  /** The store of one relocation, if it makes one. */
  function StoreOf(o: Object, host: Bytes -> Address, m: Bytes, r: Rela): seq<Write>
    requires SymbolsIn(o, |m|)
  {
    match Value(o, host, m, r)
    case Ok(Some(v)) => [Write(Slot(o, r), v)]
    case _ => []
  }

  /** The stores of the first `n` relocations of a table, all read from one memory. */
  ghost function WritesOf(o: Object, host: Bytes -> Address, m: Bytes, at: nat, n: nat): (ws: seq<Write>)
    requires SymbolsIn(o, |m|)
    requires at + RELA_SIZE * n <= |m|
  {
    if n == 0 then [] else WritesOf(o, host, m, at, n - 1) + StoreOf(o, host, m, Entry(m, at, n - 1))
  }

  // ---- tables the stores leave alone ------------------------------------------------

  predicate Clear(o: Object, r: Rela, lo: int, hi: int) {
    Slot(o, r) + 8 <= lo || hi <= Slot(o, r)
  }

  /** A slot inside the mapping and outside the tables. */
  ghost predicate SlotOk(o: Object, r: Rela, size: nat, strings: nat) {
    && 0 <= Slot(o, r) <= size - 8
    && Clear(o, r, o.symtab - o.start, o.symtab - o.start + SYM_SIZE * o.symcount)
    && Clear(o, r, o.strtab - o.start, o.strtab - o.start + strings)
  }

  /** A relocation table in the mapping, whose slots are outside the tables and outside `lo..hi`. */
  ghost predicate SlotsOk(o: Object, m: Bytes, at: nat, n: nat, strings: nat, lo: nat, hi: nat) {
    && at + RELA_SIZE * n <= |m|
    && forall k :: 0 <= k < n ==>
         var r := Entry(m, at, k);
         Stores(r) ==> SlotOk(o, r, |m|, strings) && Clear(o, r, lo, hi)
  }

  lemma {:induction false} NameUnchanged(m: Bytes, m': Bytes, at: nat, end: nat)
    requires |m| == |m'| && at < end <= |m| && m[at..end] == m'[at..end] && m[end - 1] == 0
    ensures Name(m, at) == Name(m', at)
    decreases end - at
  {
    assert m[at] == m[at..end][0] == m'[at..end][0] == m'[at];
    if m[at] != 0 {
      assert m[at + 1..end] == m[at..end][1..] == m'[at..end][1..] == m'[at + 1..end];
      NameUnchanged(m, m', at + 1, end);
    }
  }

  lemma SymbolUnchanged(m: Bytes, m': Bytes, lo: nat, hi: nat, at: nat)
    requires 0 <= lo <= at && at + SYM_SIZE <= hi && SameRange(m, m', lo, hi)
    ensures SymbolAt(m, at) == SymbolAt(m', at)
  {
    hide Number;
    SubRange(m, m', lo, hi, at, at + 4);
    SubRange(m, m', lo, hi, at + 8, at + 16);
    assert forall k :: lo <= k < hi ==> m[k] == m[lo..hi][k - lo] && m'[k] == m'[lo..hi][k - lo];
  }

  lemma SubRange(m: Bytes, m': Bytes, lo: nat, hi: nat, a: nat, b: nat)
    requires lo <= a <= b <= hi && SameRange(m, m', lo, hi)
    ensures m[a..b] == m'[a..b]
  {
    forall k | a <= k < b
      ensures m[k] == m'[k]
    {
      assert m[k] == m[lo..hi][k - lo] && m'[k] == m'[lo..hi][k - lo];
    }
  }

  lemma RelaUnchanged(m: Bytes, m': Bytes, lo: nat, hi: nat, at: nat)
    requires lo <= at && at + RELA_SIZE <= hi && SameRange(m, m', lo, hi)
    ensures RelaAt(m, at) == RelaAt(m', at)
  {
    hide Number;
    SubRange(m, m', lo, hi, at, at + 8);
    SubRange(m, m', lo, hi, at + 8, at + 12);
    SubRange(m, m', lo, hi, at + 12, at + 16);
    SubRange(m, m', lo, hi, at + 16, at + 24);
  }

  predicate SameRange(m: Bytes, m': Bytes, lo: int, hi: int) {
    0 <= lo <= hi <= |m| == |m'| && m[lo..hi] == m'[lo..hi]
  }

  lemma EntrySame(m: Bytes, m': Bytes, at: nat, n: nat, i: nat)
    requires SameRange(m, m', at, at + RELA_SIZE * n) && i < n
    ensures Entry(m, at, i) == Entry(m', at, i)
  {
    hide RelaAt;
    RelaUnchanged(m, m', at, at + RELA_SIZE * n, at + RELA_SIZE * i);
  }

  lemma SymbolSame(m: Bytes, m': Bytes, at: nat, n: nat, i: nat)
    requires SameRange(m, m', at, at + SYM_SIZE * n) && i < n
    ensures SymbolEntry(m, at, i) == SymbolEntry(m', at, i)
  {
    hide SymbolAt;
    SymbolUnchanged(m, m', at, at + SYM_SIZE * n, at + SYM_SIZE * i);
  }

  predicate SameTables(o: Object, m: Bytes, m': Bytes, strings: nat) {
    && SameRange(m, m', o.symtab - o.start, o.symtab - o.start + SYM_SIZE * o.symcount)
    && SameRange(m, m', o.strtab - o.start, o.strtab - o.start + strings)
  }

  lemma ResolveUnchanged(o: Object, host: Bytes -> Address, m: Bytes, m': Bytes, strings: nat, symbol: nat)
    requires TablesIn(o, m, strings) && |m| == |m'| && SameTables(o, m, m', strings)
    ensures Resolve(o, host, m, symbol) == Resolve(o, host, m', symbol)
  {
    hide SymbolEntry, Name, SameRange;
    var s := o.symtab - o.start;
    if symbol < o.symcount {
      SymbolSame(m, m', s, o.symcount, symbol);
      var name := SymbolEntry(m, s, symbol).name;
      if name < strings {
        NameSame(m, m', o.strtab - o.start, strings, name);
      }
    }
  }

  /** A name is the same where the string table is. */
  lemma NameSame(m: Bytes, m': Bytes, at: nat, strings: nat, name: nat)
    requires at + strings <= |m| && name < strings && m[at + strings - 1] == 0
    requires SameRange(m, m', at, at + strings)
    ensures Name(m, at + name) == Name(m', at + name)
  {
    hide Name;
    SubRange(m, m', at, at + strings, at + name, at + strings);
    NameUnchanged(m, m', at + name, at + strings);
  }

  // ---- the loop over a table ----------------------------------------------------------

  datatype Stats = Stats(relative: nat, globDat: nat, jumpSlot: nat, tls: nat, other: nat)

  /** One relocation more of its kind. */
  function Counted(s: Stats, kind: nat): Stats {
    if kind == R_RELATIVE then s.(relative := s.relative + 1)
    else if kind == R_64 || kind == R_GLOB_DAT then s.(globDat := s.globDat + 1)
    else if kind == R_JUMP_SLOT then s.(jumpSlot := s.jumpSlot + 1)
    else if kind in {R_DTPMOD64, R_DTPOFF64, R_TPOFF64} then s.(tls := s.tls + 1)
    else s.(other := s.other + 1)
  }

  function Tally(s: Stats, m: Bytes, at: nat, n: nat): Stats
    requires at + RELA_SIZE * n <= |m|
  {
    if n == 0 then s else Counted(Tally(s, m, at, n - 1), Entry(m, at, n - 1).kind)
  }

  /** How many of the first `n` entries are of some kinds: the kind is at octet 8 of 24. */
  function OfKinds(m: Bytes, at: nat, n: nat, kinds: set<nat>): nat
    requires at + 24 * n <= |m|
  {
    if n == 0 then 0
    else OfKinds(m, at, n - 1, kinds) + if Half(m, at + 24 * (n - 1) + 8) in kinds then 1 else 0
  }

  lemma {:induction false} TallyByKind(m: Bytes, at: nat, n: nat)
    requires at + 24 * n <= |m|
    ensures var t := Tally(Stats(0, 0, 0, 0, 0), m, at, n);
      && t.relative == OfKinds(m, at, n, {8}) && t.globDat == OfKinds(m, at, n, {1, 6})
      && t.jumpSlot == OfKinds(m, at, n, {7}) && t.tls == OfKinds(m, at, n, {16, 17, 18})
      && t.relative + t.globDat + t.jumpSlot + t.tls + t.other == n
  {
    hide Half;
    if n > 0 {
      TallyByKind(m, at, n - 1);
    }
  }

  lemma {:induction false} WritesClear(o: Object, host: Bytes -> Address, m: Bytes, at: nat, n: nat, strings: nat,
                                       lo: nat, hi: nat)
    requires TablesIn(o, m, strings) && SlotsOk(o, m, at, n, strings, lo, hi)
    ensures var ws := WritesOf(o, host, m, at, n);
      Fits(ws, |m|) && TablesOutside(o, ws, strings) && AllOutside(ws, lo, hi)
  {
    hide Entry, Resolve;
    if n > 0 {
      WritesClear(o, host, m, at, n - 1, strings, lo, hi);
      var r := Entry(m, at, n - 1);
      assert Value(o, host, m, r).Ok? && Value(o, host, m, r).value.Some? ==> Stores(r);
    }
  }

  ghost predicate TablesOutside(o: Object, ws: seq<Write>, strings: nat) {
    && AllOutside(ws, o.symtab - o.start, o.symtab - o.start + SYM_SIZE * o.symcount)
    && AllOutside(ws, o.strtab - o.start, o.strtab - o.start + strings)
  }

  /** What the tables say is the same after the stores. */
  lemma TablesUnchanged(o: Object, m: Bytes, ws: seq<Write>, strings: nat)
    requires TablesIn(o, m, strings) && Fits(ws, |m|) && TablesOutside(o, ws, strings)
    ensures SameTables(o, m, Patched(m, ws), strings)
  {
    hide Patched, AllOutside, SameRange, Fits;
    RangeUnchanged(m, ws, o.symtab - o.start, o.symtab - o.start + SYM_SIZE * o.symcount);
    RangeUnchanged(m, ws, o.strtab - o.start, o.strtab - o.start + strings);
  }

  lemma ValueUnchanged(o: Object, host: Bytes -> Address, m: Bytes, m': Bytes, strings: nat, r: Rela)
    requires TablesIn(o, m, strings) && |m| == |m'| && SameTables(o, m, m', strings)
    ensures Value(o, host, m, r) == Value(o, host, m', r)
  {
    hide Resolve, NamesIn, SameTables;
    ResolveUnchanged(o, host, m, m', strings, r.symbol);
  }

  /** The entries are read while the memory changes; they say what they said at the start. */
  lemma EntryUnchanged(o: Object, host: Bytes -> Address, m: Bytes, ws: seq<Write>, at: nat, n: nat,
                       strings: nat, i: nat)
    requires TablesIn(o, m, strings) && at + RELA_SIZE * n <= |m| && i < n
    requires Fits(ws, |m|) && TablesOutside(o, ws, strings) && AllOutside(ws, at, at + RELA_SIZE * n)
    ensures Entry(Patched(m, ws), at, i) == Entry(m, at, i)
    ensures Value(o, host, Patched(m, ws), Entry(m, at, i)) == Value(o, host, m, Entry(m, at, i))
  {
    hide Entry, Value, Patched, NamesIn, AllOutside, SameRange, Fits;
    var m' := Patched(m, ws);
    TablesUnchanged(o, m, ws, strings);
    RangeUnchanged(m, ws, at, at + RELA_SIZE * n);
    EntrySame(m, m', at, n, i);
    hide TablesOutside, SameTables;
    ValueUnchanged(o, host, m, m', strings, Entry(m, at, i));
  }

  /** What one relocation does to the memory. */
  ghost function AfterOne(o: Object, host: Bytes -> Address, m: Bytes, r: Rela): (after: Bytes)
    requires SymbolsIn(o, |m|)
    requires Stores(r) ==> 0 <= Slot(o, r) <= |m| - 8
    ensures |after| == |m|
  {
    match Value(o, host, m, r)
    case Ok(Some(v)) => Stored(m, Slot(o, r), v)
    case _ => m
  }

  /** By the octets of the tables: there is a word and it was stored, or none is to be, or the symbol has no address. */
  ghost predicate WordStored(o: Object, host: Bytes -> Address, m: Bytes, r: Rela, after: Bytes, ok: bool)
    requires SymbolsIn(o, |m|)
  {
    var slot := (o.base + r.offset) % TWO_64 - o.start;
    if r.kind in {1, 6, 7, 8} then
      && (ok <==> exists v: nat :: IsWord(o, host, m, r, v))
      && forall v: nat :: IsWord(o, host, m, r, v) ==>
           0 <= slot && slot + 8 <= |m| && after == Stored(m, slot, v)
    else ok && after == m
  }

  lemma AfterIsStored(o: Object, host: Bytes -> Address, m: Bytes, r: Rela)
    requires SymbolsIn(o, |m|) && (Stores(r) ==> 0 <= Slot(o, r) <= |m| - 8)
    ensures WordStored(o, host, m, r, AfterOne(o, host, m, r), Value(o, host, m, r).Ok?)
  {
    hide Resolve, Stored, IsWord;
    WordsAreValues(o, host, m, r);
  }

  method ApplyOne(memory: array<Byte>, o: Object, host: Bytes -> Address, r: Rela, before: Stats)
    returns (error: Option<Error>, stats: Stats)
    requires SymbolsIn(o, memory.Length)
    requires Stores(r) ==> 0 <= Slot(o, r) <= memory.Length - 8
    modifies memory
    ensures memory[..] == AfterOne(o, host, old(memory[..]), r) && (error.Some? ==> memory[..] == old(memory[..]))
    ensures WordStored(o, host, old(memory[..]), r, memory[..], error.None?)
    ensures match Value(o, host, old(memory[..]), r)
      case Err(e) => error == Some(e) && stats == before
      case Ok(_) => error == None && stats == Counted(before, r.kind)
  {
    hide Resolve, Stored, WordStored;
    AfterIsStored(o, host, memory[..], r);
    var where := Slot(o, r);
    if r.kind == R_RELATIVE {
      Store(memory, where, (o.base + r.addend) % TWO_64);
      return None, before.(relative := before.relative + 1);
    }
    if r.kind == R_64 || r.kind == R_GLOB_DAT {
      match Resolve(o, host, memory[..], r.symbol) {
        case Err(e) => return Some(e), before;
        case Ok(v) =>
          Store(memory, where, (v + r.addend) % TWO_64);
          return None, before.(globDat := before.globDat + 1);
      }
    }
    if r.kind == R_JUMP_SLOT {
      match Resolve(o, host, memory[..], r.symbol) {
        case Err(e) => return Some(e), before;
        case Ok(v) =>
          Store(memory, where, v);
          return None, before.(jumpSlot := before.jumpSlot + 1);
      }
    }
    error := None;
    if r.kind == R_DTPMOD64 || r.kind == R_DTPOFF64 || r.kind == R_TPOFF64 {
      stats := before.(tls := before.tls + 1);
    } else {
      stats := before.(other := before.other + 1);
    }
  }

  /** The first `k` relocations made the stores they asked for before any was made. */
  ghost predicate Applied(o: Object, host: Bytes -> Address, m: Bytes, m': Bytes, at: nat, k: nat)
    requires SymbolsIn(o, |m|)
    requires at + RELA_SIZE * k <= |m|
  {
    && Fits(WritesOf(o, host, m, at, k), |m|)
    && m' == Patched(m, WritesOf(o, host, m, at, k))
    && forall j :: 0 <= j < k ==> Value(o, host, m, Entry(m, at, j)).Ok?
  }

  /** The next entry, read from the changed memory, is what it was. */
  lemma NextEntry(o: Object, host: Bytes -> Address, m: Bytes, m': Bytes, at: nat, n: nat, strings: nat, i: nat)
    requires TablesIn(o, m, strings) && SlotsOk(o, m, at, n, strings, at, at + RELA_SIZE * n) && i < n
    requires Applied(o, host, m, m', at, i)
    ensures var r := Entry(m, at, i);
      && |m'| == |m| && Entry(m', at, i) == r && Value(o, host, m', r) == Value(o, host, m, r)
      && (Stores(r) ==> 0 <= Slot(o, r) <= |m| - 8)
      && (Value(o, host, m, r).Ok? ==> Applied(o, host, m, AfterOne(o, host, m', r), at, i + 1))
  {
    hide Entry, Stored, Value, WritesOf, Patched, NamesIn, AllOutside;
    WritesClear(o, host, m, at, i, strings, at, at + RELA_SIZE * n);
    WritesClear(o, host, m, at, i + 1, strings, at, at + RELA_SIZE * n);
    EntryUnchanged(o, host, m, WritesOf(o, host, m, at, i), at, n, strings, i);
    WritesMore(o, host, m, at, i);
    var (ws, r) := (WritesOf(o, host, m, at, i), Entry(m, at, i));
    match Value(o, host, m, r)
    case Ok(Some(v)) => PatchedMore(m, ws, Write(Slot(o, r), v));
    case _ => assert ws + [] == ws;
  }

  lemma WritesMore(o: Object, host: Bytes -> Address, m: Bytes, at: nat, i: nat)
    requires SymbolsIn(o, |m|) && at + RELA_SIZE * (i + 1) <= |m|
    ensures WritesOf(o, host, m, at, i + 1) == WritesOf(o, host, m, at, i) + StoreOf(o, host, m, Entry(m, at, i))
  {
  }

  lemma PatchedMore(m: Bytes, ws: seq<Write>, w: Write)
    requires Fits(ws + [w], |m|)
    ensures Fits(ws, |m|) && 0 <= w.at <= |m| - 8
    ensures Patched(m, ws + [w]) == Stored(Patched(m, ws), w.at, w.value)
  {
    hide Stored;
    var more := ws + [w];
    assert more[|ws|] == w && more[..|ws|] == ws && forall i :: 0 <= i < |ws| ==> more[i] == ws[i];
  }

  lemma NothingYet(o: Object, host: Bytes -> Address, m: Bytes, at: nat)
    requires SymbolsIn(o, |m|)
    requires at <= |m|
    ensures Applied(o, host, m, m, at, 0)
  {
  }

  /** A table's relocations in order, up to one whose symbol has no address. */
  method ApplyRela(memory: array<Byte>, o: Object, host: Bytes -> Address, at: nat, n: nat, before: Stats,
                   ghost strings: nat)
    returns (error: Option<Error>, stats: Stats, ghost done: nat)
    requires TablesIn(o, memory[..], strings) && SlotsOk(o, memory[..], at, n, strings, at, at + RELA_SIZE * n)
    modifies memory
    ensures done <= n && Applied(o, host, old(memory[..]), memory[..], at, done)
    ensures stats == Tally(before, old(memory[..]), at, done)
    ensures match error
      case None => done == n
      case Some(e) =>
        done < n && Value(o, host, old(memory[..]), Entry(old(memory[..]), at, done)) == Err(e)
  {
    ghost var m := memory[..];
    stats, done := before, 0;
    NothingYet(o, host, m, at);
    hide Entry, Value, SymbolEntry, Slot, Stores, Counted, AfterOne, SlotOk, Applied;
    var i := 0;
    while i < n
      invariant i <= n && done == i && Applied(o, host, m, memory[..], at, i)
      invariant stats == Tally(before, m, at, i)
    {
      NextEntry(o, host, m, memory[..], at, n, strings, i);
      var r := Entry(memory[..], at, i);
      error, stats := ApplyOne(memory, o, host, r, stats);
      if error.Some? {
        return;
      }
      i, done := i + 1, done + 1;
    }
    error := None;
  }

  // ---- entries and their stores -------------------------------------------------------

  /** The first `n` entries of the table at `at`. */
  function EntriesOf(m: Bytes, at: nat, n: nat): (rs: seq<Rela>)
    requires at + RELA_SIZE * n <= |m|
    ensures |rs| == n
  {
    if n == 0 then [] else EntriesOf(m, at, n - 1) + [Entry(m, at, n - 1)]
  }

  lemma {:induction false} EntriesListed(m: Bytes, at: nat, n: nat)
    requires at + RELA_SIZE * n <= |m|
    ensures forall k :: 0 <= k < n ==> EntriesOf(m, at, n)[k] == Entry(m, at, k)
  {
    hide Entry;
    if n > 0 {
      EntriesListed(m, at, n - 1);
    }
  }

  /** What a list of relocations stores, in order. */
  ghost function StoresOf(o: Object, host: Bytes -> Address, m: Bytes, rs: seq<Rela>): seq<Write>
    requires SymbolsIn(o, |m|)
  {
    if rs == [] then [] else StoresOf(o, host, m, rs[..|rs| - 1]) + StoreOf(o, host, m, rs[|rs| - 1])
  }

  lemma {:induction false} WritesAreStores(o: Object, host: Bytes -> Address, m: Bytes, at: nat, n: nat)
    requires SymbolsIn(o, |m|) && at + RELA_SIZE * n <= |m|
    ensures WritesOf(o, host, m, at, n) == StoresOf(o, host, m, EntriesOf(m, at, n))
  {
    hide Entry, StoreOf;
    if n > 0 {
      WritesAreStores(o, host, m, at, n - 1);
      assert EntriesOf(m, at, n)[..n - 1] == EntriesOf(m, at, n - 1);
    }
  }

  lemma {:induction false} StoresConcat(o: Object, host: Bytes -> Address, m: Bytes, a: seq<Rela>, b: seq<Rela>)
    requires SymbolsIn(o, |m|)
    ensures StoresOf(o, host, m, a + b) == StoresOf(o, host, m, a) + StoresOf(o, host, m, b)
  {
    hide StoreOf, StoresOf;
    StoresStep(o, host, m, b);
    StoresStep(o, host, m, a + b);
    if b == [] {
      assert a + b == a;
    } else {
      var (front, last) := (b[..|b| - 1], b[|b| - 1]);
      StoresConcat(o, host, m, a, front);
      assert (a + b)[..|a + b| - 1] == a + front && (a + b)[|a + b| - 1] == last;
      ThreeParts(StoresOf(o, host, m, a), StoresOf(o, host, m, front), StoreOf(o, host, m, last));
    }
  }

  lemma ThreeParts<T>(a: seq<T>, b: seq<T>, c: seq<T>)
    ensures a + (b + c) == (a + b) + c
  {
  }

  lemma StoresStep(o: Object, host: Bytes -> Address, m: Bytes, rs: seq<Rela>)
    requires SymbolsIn(o, |m|)
    ensures StoresOf(o, host, m, rs)
            == if rs == [] then [] else StoresOf(o, host, m, rs[..|rs| - 1]) + StoreOf(o, host, m, rs[|rs| - 1])
  {
  }

  /** `w` is what relocation `r` stores. */
  ghost predicate IsStoreOf(o: Object, host: Bytes -> Address, m: Bytes, r: Rela, w: Write)
    requires SymbolsIn(o, |m|)
  {
    IsWord(o, host, m, r, w.value) && w.at == (o.base + r.offset) % TWO_64 - o.start
  }

  lemma StoreIsValue(o: Object, host: Bytes -> Address, m: Bytes, r: Rela, w: Write)
    requires SymbolsIn(o, |m|)
    ensures IsStoreOf(o, host, m, r, w) <==> Value(o, host, m, r) == Ok(Some(w.value)) && w.at == Slot(o, r)
    ensures IsStoreOf(o, host, m, r, w) <==> w in StoreOf(o, host, m, r)
  {
    hide Value, IsWord;
    WordIsValue(o, host, m, r, w.value);
  }

  /** The stores are those of the entries with a value, and no others. */
  lemma {:induction false} EntryInWrites(o: Object, host: Bytes -> Address, m: Bytes, rs: seq<Rela>, w: Write)
    requires SymbolsIn(o, |m|)
    ensures w in StoresOf(o, host, m, rs) <==> exists k :: 0 <= k < |rs| && IsStoreOf(o, host, m, rs[k], w)
  {
    hide Value, Slot, IsStoreOf, StoreOf;
    if rs != [] {
      var before := rs[..|rs| - 1];
      EntryInWrites(o, host, m, before, w);
      StoreIsValue(o, host, m, rs[|rs| - 1], w);
      assert forall k :: 0 <= k < |before| ==> rs[k] == before[k];
      assert rs[|rs| - 1] == rs[|before|];
    }
  }

  /** No two relocations fill in the same octet. */
  ghost predicate SlotsApart(o: Object, rs: seq<Rela>) {
    forall i, j :: 0 <= i < j < |rs| ==> TwoApart(o, rs[i], rs[j])
  }

  ghost predicate TwoApart(o: Object, r: Rela, q: Rela) {
    Stores(r) && Stores(q) ==> Slot(o, r) + 8 <= Slot(o, q) || Slot(o, q) + 8 <= Slot(o, r)
  }

  /** Their slots are in a mapping of `size` octets. */
  ghost predicate SlotsIn(o: Object, rs: seq<Rela>, size: nat) {
    forall r :: r in rs && Stores(r) ==> 0 <= Slot(o, r) <= size - 8
  }

  lemma StoredOnlyIf(o: Object, host: Bytes -> Address, m: Bytes, r: Rela)
    requires SymbolsIn(o, |m|)
    ensures Value(o, host, m, r).Ok? && Value(o, host, m, r).value.Some? ==> Stores(r)
    ensures Value(o, host, m, r).Ok? && Stores(r) ==> Value(o, host, m, r).value.Some?
  {
    hide Resolve;
  }

  lemma {:induction false} StoresApart(o: Object, host: Bytes -> Address, m: Bytes, rs: seq<Rela>)
    requires SymbolsIn(o, |m|) && SlotsApart(o, rs)
    ensures Apart(StoresOf(o, host, m, rs))
  {
    hide Value, Slot, Stores, IsStoreOf;
    if rs != [] {
      var (before, last) := (rs[..|rs| - 1], rs[|rs| - 1]);
      StoresApart(o, host, m, before);
      StoredOnlyIf(o, host, m, last);
      forall w | w in StoresOf(o, host, m, before)
        ensures Stores(last) ==> w.at + 8 <= Slot(o, last) || Slot(o, last) + 8 <= w.at
      {
        EntryInWrites(o, host, m, before, w);
        var k :| 0 <= k < |before| && IsStoreOf(o, host, m, before[k], w);
        StoreIsValue(o, host, m, before[k], w);
        StoredOnlyIf(o, host, m, before[k]);
        assert TwoApart(o, rs[k], last);
      }
    }
  }

  lemma StoresFit(o: Object, host: Bytes -> Address, m: Bytes, rs: seq<Rela>)
    requires SymbolsIn(o, |m|) && SlotsIn(o, rs, |m|)
    ensures Fits(StoresOf(o, host, m, rs), |m|)
  {
    hide Value, Slot, Stores, StoresOf, IsStoreOf;
    forall w | w in StoresOf(o, host, m, rs)
      ensures 0 <= w.at <= |m| - 8
    {
      EntryInWrites(o, host, m, rs, w);
      var k :| 0 <= k < |rs| && IsStoreOf(o, host, m, rs[k], w);
      StoreIsValue(o, host, m, rs[k], w);
      StoredOnlyIf(o, host, m, rs[k]);
      assert rs[k] in rs;
    }
  }

  /** Two places in a list for an element that is in another one twice. */
  lemma TwoPlaces(s: seq<Rela>, x: Rela) returns (i: nat, j: nat)
    requires multiset(s)[x] >= 2
    ensures i < j < |s| && s[i] == x == s[j]
  {
    assert x in s;
    i :| 0 <= i < |s| && s[i] == x;
    var rest := s[..i] + s[i + 1..];
    assert s == s[..i] + [x] + s[i + 1..];
    assert multiset(rest)[x] >= 1;
    var k :| 0 <= k < |rest| && rest[k] == x;
    i, j := if k < i then k else i, if k < i then i else k + 1;
  }

  lemma CountsTwo(s: seq<Rela>, i: nat, j: nat)
    requires i < j < |s| && s[i] == s[j]
    ensures multiset(s)[s[i]] >= 2
  {
    assert s == s[..i] + [s[i]] + s[i + 1..j] + [s[j]] + s[j + 1..];
  }

  lemma ApartPermuted(o: Object, rs: seq<Rela>, qs: seq<Rela>)
    requires SlotsApart(o, rs) && multiset(rs) == multiset(qs)
    ensures SlotsApart(o, qs)
  {
    hide Slot, Stores;
    forall i, j | 0 <= i < j < |qs|
      ensures TwoApart(o, qs[i], qs[j])
    {
      if qs[i] == qs[j] {
        CountsTwo(qs, i, j);
        var a, b := TwoPlaces(rs, qs[i]);
        assert TwoApart(o, rs[a], rs[b]);
      } else {
        assert qs[i] in multiset(qs) && qs[j] in multiset(qs);
        var a :| 0 <= a < |rs| && rs[a] == qs[i];
        var b :| 0 <= b < |rs| && rs[b] == qs[j];
        assert TwoApart(o, rs[if a < b then a else b], rs[if a < b then b else a]);
      }
    }
  }

  /** With disjoint slots the order of the relocations does not matter. */
  lemma OrderIrrelevant(o: Object, host: Bytes -> Address, m: Bytes, rs: seq<Rela>, qs: seq<Rela>)
    requires SymbolsIn(o, |m|) && SlotsIn(o, rs, |m|) && SlotsApart(o, rs) && multiset(rs) == multiset(qs)
    ensures Fits(StoresOf(o, host, m, rs), |m|) && Fits(StoresOf(o, host, m, qs), |m|)
    ensures Patched(m, StoresOf(o, host, m, rs)) == Patched(m, StoresOf(o, host, m, qs))
  {
    assert forall r :: (r in rs <==> r in multiset(rs)) && (r in qs <==> r in multiset(qs));
    hide Value, Slot, Stores, StoresOf, Patched, Fits, Apart;
    ApartPermuted(o, rs, qs);
    StoresFit(o, host, m, rs);
    StoresFit(o, host, m, qs);
    StoresApart(o, host, m, rs);
    StoresApart(o, host, m, qs);
    forall w
      ensures w in StoresOf(o, host, m, rs) <==> w in StoresOf(o, host, m, qs)
    {
      SameStore(o, host, m, rs, qs, w);
      SameStore(o, host, m, qs, rs, w);
    }
    StoreOrderIrrelevant(m, StoresOf(o, host, m, rs), StoresOf(o, host, m, qs));
  }

  lemma SameStore(o: Object, host: Bytes -> Address, m: Bytes, rs: seq<Rela>, qs: seq<Rela>, w: Write)
    requires SymbolsIn(o, |m|) && forall r :: r in rs ==> r in qs
    ensures w in StoresOf(o, host, m, rs) ==> w in StoresOf(o, host, m, qs)
  {
    hide IsStoreOf, StoresOf;
    EntryInWrites(o, host, m, rs, w);
    EntryInWrites(o, host, m, qs, w);
    if w in StoresOf(o, host, m, rs) {
      var k :| 0 <= k < |rs| && IsStoreOf(o, host, m, rs[k], w);
      assert rs[k] in qs;
      var j :| 0 <= j < |qs| && qs[j] == rs[k];
      assert IsStoreOf(o, host, m, qs[j], w);
    }
  }

  /** The word relocation `r` asks for is in its slot of `after`. */
  ghost predicate Relocated(o: Object, host: Bytes -> Address, m: Bytes, r: Rela, after: Bytes) {
    r.kind in {1, 6, 7, 8} ==>
      var slot := (o.base + r.offset) % TWO_64 - o.start;
      0 <= slot && slot + 8 <= |after| && SymbolsIn(o, |m|) && IsWord(o, host, m, r, Word(after, slot))
  }

  /** With disjoint slots, and values for all, every relocation's word is in its slot at the end. */
  lemma AllRelocated(o: Object, host: Bytes -> Address, m: Bytes, rs: seq<Rela>, i: nat)
    requires SymbolsIn(o, |m|) && SlotsApart(o, rs) && Fits(StoresOf(o, host, m, rs), |m|)
    requires i < |rs| && Value(o, host, m, rs[i]).Ok?
    ensures Relocated(o, host, m, rs[i], Patched(m, StoresOf(o, host, m, rs)))
  {
    hide Value, StoresOf, Patched, Fits, Apart, SlotsApart, Word, IsStoreOf, IsWord;
    StoredOnlyIf(o, host, m, rs[i]);
    if Stores(rs[i]) {
      var w := Write(Slot(o, rs[i]), Value(o, host, m, rs[i]).value.value);
      StoreIsValue(o, host, m, rs[i], w);
      WordIsValue(o, host, m, rs[i], w.value);
      assert IsStoreOf(o, host, m, rs[i], w);
      EntryInWrites(o, host, m, rs, w);
      StoresApart(o, host, m, rs);
      ValueIsWord(o, host, m, rs[i]);
      SlotHolds(m, StoresOf(o, host, m, rs), w);
    }
  }

  /** The 24 octets at `at` are a relocation - r_offset, type, symbol and r_addend at 0, 8, 12 and 16 - and its word
      is in its slot of `after`. */
  ghost predicate FilledAt(o: Object, host: Bytes -> Address, m: Bytes, at: int, after: Bytes) {
    && 0 <= at && at + 24 <= |m|
    && Relocated(o, host, m, Rela(Word(m, at), Half(m, at + 8), Half(m, at + 12), Word(m, at + 16)), after)
  }

  predicate InSlot(o: Object, r: Rela, b: nat) {
    Slot(o, r) <= b < Slot(o, r) + 8
  }

  /** The octet relocation `r` asks for at index `b`. */
  ghost predicate IsOctetOf(o: Object, host: Bytes -> Address, m: Bytes, r: Rela, b: nat, octet: Byte) {
    && SymbolsIn(o, |m|) && InSlot(o, r, b)
    && exists v: nat :: IsWord(o, host, m, r, v) && octet == Octets(v, 8)[b - Slot(o, r)]
  }

  /** With disjoint slots, and values for all, an octet in a slot is its relocation's. */
  lemma OctetStored(o: Object, host: Bytes -> Address, m: Bytes, rs: seq<Rela>, i: nat, b: nat)
    requires SymbolsIn(o, |m|) && SlotsApart(o, rs) && Fits(StoresOf(o, host, m, rs), |m|) && b < |m|
    requires i < |rs| && Value(o, host, m, rs[i]).Ok? && Stores(rs[i]) && InSlot(o, rs[i], b)
    ensures IsOctetOf(o, host, m, rs[i], b, Patched(m, StoresOf(o, host, m, rs))[b])
  {
    hide Value, Slot, Stores, StoresOf, Patched, Fits, Apart, SlotsApart, Octets, IsWord, IsStoreOf;
    StoredOnlyIf(o, host, m, rs[i]);
    var ws, w := StoresOf(o, host, m, rs), Write(Slot(o, rs[i]), Value(o, host, m, rs[i]).value.value);
    StoreIsValue(o, host, m, rs[i], w);
    WordIsValue(o, host, m, rs[i], w.value);
    assert IsStoreOf(o, host, m, rs[i], w);
    EntryInWrites(o, host, m, rs, w);
    StoresApart(o, host, m, rs);
    var j :| 0 <= j < |ws| && ws[j] == w;
    InsideStored(m, ws, j, b);
  }

  /** An octet no relocation fills in is as it was. */
  lemma OthersKept(o: Object, host: Bytes -> Address, m: Bytes, rs: seq<Rela>, b: nat)
    requires SymbolsIn(o, |m|) && Fits(StoresOf(o, host, m, rs), |m|) && b < |m|
    requires forall i :: 0 <= i < |rs| && Stores(rs[i]) ==> !InSlot(o, rs[i], b)
    ensures Patched(m, StoresOf(o, host, m, rs))[b] == m[b]
  {
    hide Value, Slot, Stores, StoresOf, Patched, Fits, IsStoreOf;
    var ws := StoresOf(o, host, m, rs);
    forall i | 0 <= i < |ws|
      ensures !Covers(ws[i], b)
    {
      EntryInWrites(o, host, m, rs, ws[i]);
      var k :| 0 <= k < |rs| && IsStoreOf(o, host, m, rs[k], ws[i]);
      StoreIsValue(o, host, m, rs[k], ws[i]);
      StoredOnlyIf(o, host, m, rs[k]);
    }
    OutsideUnchanged(m, ws, b);
  }

  lemma ValueIsWord(o: Object, host: Bytes -> Address, m: Bytes, r: Rela)
    requires SymbolsIn(o, |m|)
    ensures Value(o, host, m, r).Ok? && Value(o, host, m, r).value.Some? ==> Value(o, host, m, r).value.value < TWO_64
  {
    hide SymbolEntry, Name;
  }

  lemma FitsAt(ws: seq<Write>, size: nat, i: nat)
    requires Fits(ws, size) && i < |ws|
    ensures 0 <= ws[i].at <= size - 8
  {
  }

  lemma SlotBytes(m: Bytes, ws: seq<Write>, i: nat)
    requires Fits(ws, |m|) && Apart(ws) && i < |ws|
    ensures 0 <= ws[i].at && ws[i].at + 8 <= |m|
    ensures Patched(m, ws)[ws[i].at..ws[i].at + 8] == Octets(ws[i].value, 8)
  {
    hide Octets, Patched, Fits, Apart;
    FitsAt(ws, |m|, i);
    var r, at := Patched(m, ws), ws[i].at;
    forall j | 0 <= j < 8
      ensures r[at + j] == Octets(ws[i].value, 8)[j]
    {
      InsideStored(m, ws, i, at + j);
    }
  }

  /** Disjoint slots hold their words at the end. */
  lemma SlotHolds(m: Bytes, ws: seq<Write>, w: Write)
    requires Fits(ws, |m|) && Apart(ws) && w in ws && w.value < TWO_64
    ensures 0 <= w.at && w.at + 8 <= |m| && Word(Patched(m, ws), w.at) == w.value
  {
    var i :| 0 <= i < |ws| && ws[i] == w;
    SlotBytes(m, ws, i);
    Powers();
    NumberOfOctets(w.value, 8);
    hide Octets, Number, Patched, Fits, Apart, Pow256;
  }

  // ---- two tables ---------------------------------------------------------------------

  lemma TablesKept(o: Object, m: Bytes, m': Bytes, strings: nat)
    requires TablesIn(o, m, strings) && |m| == |m'| && SameTables(o, m, m', strings)
    ensures TablesIn(o, m', strings)
  {
    var (s, t) := (o.symtab - o.start, o.strtab - o.start);
    assert m'[t + strings - 1] == m'[t..t + strings][strings - 1] == m[t..t + strings][strings - 1];
    if o.strsz == 0 {
      forall k | 0 <= k < o.symcount
        ensures SymbolEntry(m', s, k) == SymbolEntry(m, s, k)
      {
        SymbolSame(m, m', s, o.symcount, k);
      }
    }
  }

  lemma SlotsKept(o: Object, m: Bytes, m': Bytes, at: nat, n: nat, strings: nat, lo: nat, hi: nat)
    requires SlotsOk(o, m, at, n, strings, lo, hi) && SameRange(m, m', at, at + RELA_SIZE * n)
    ensures SlotsOk(o, m', at, n, strings, lo, hi)
  {
    hide SlotOk, Clear, Entry, Stores;
    forall k | 0 <= k < n
      ensures Entry(m', at, k) == Entry(m, at, k)
    {
      EntrySame(m, m', at, n, k);
    }
  }

  lemma {:induction false} WritesKept(o: Object, host: Bytes -> Address, m: Bytes, m': Bytes, at: nat, n: nat,
                                      strings: nat, k: nat)
    requires TablesIn(o, m, strings) && SameTables(o, m, m', strings)
    requires SameRange(m, m', at, at + RELA_SIZE * n) && k <= n
    ensures WritesOf(o, host, m', at, k) == WritesOf(o, host, m, at, k)
  {
    hide Entry, Value, NamesIn;
    if k > 0 {
      WritesKept(o, host, m, m', at, n, strings, k - 1);
      EntrySame(m, m', at, n, k - 1);
      ValueUnchanged(o, host, m, m', strings, Entry(m, at, k - 1));
    }
  }

  lemma {:induction false} PatchedConcat(m: Bytes, a: seq<Write>, b: seq<Write>)
    requires Fits(a, |m|) && Fits(b, |m|)
    ensures Fits(a + b, |m|) && Patched(m, a + b) == Patched(Patched(m, a), b)
  {
    if b == [] {
      assert a + b == a;
    } else {
      PatchedConcat(m, a, b[..|b| - 1]);
      assert (a + b)[..|a + b| - 1] == a + b[..|b| - 1];
    }
  }

  lemma {:induction false} TallyKept(s: Stats, m: Bytes, m': Bytes, at: nat, n: nat)
    requires at + RELA_SIZE * n <= |m| == |m'|
    requires forall j :: 0 <= j < n ==> Entry(m', at, j) == Entry(m, at, j)
    ensures Tally(s, m', at, n) == Tally(s, m, at, n)
  {
    hide Entry;
    if n > 0 {
      TallyKept(s, m, m', at, n - 1);
      assert Entry(m', at, n - 1) == Entry(m, at, n - 1);
    }
  }

  lemma TallySame(m: Bytes, m': Bytes, at: nat, n: nat)
    requires at + RELA_SIZE * n <= |m| == |m'|
    requires forall j :: 0 <= j < n ==> Entry(m', at, j) == Entry(m, at, j)
    ensures forall s :: Tally(s, m', at, n) == Tally(s, m, at, n)
  {
    hide Entry, Tally;
    forall s
      ensures Tally(s, m', at, n) == Tally(s, m, at, n)
    {
      TallyKept(s, m, m', at, n);
    }
  }

  /** After one table is done the other says what it said, and nothing stands in its way. */
  lemma SecondTable(o: Object, host: Bytes -> Address, m: Bytes, a: nat, k: nat, b: nat, n: nat, strings: nat)
    requires TablesIn(o, m, strings) && SlotsOk(o, m, a, k, strings, b, b + RELA_SIZE * n)
    requires SlotsOk(o, m, b, n, strings, b, b + RELA_SIZE * n)
    ensures Fits(WritesOf(o, host, m, a, k), |m|)
    ensures var m' := Patched(m, WritesOf(o, host, m, a, k));
      && TablesIn(o, m', strings) && SlotsOk(o, m', b, n, strings, b, b + RELA_SIZE * n)
      && (forall j :: 0 <= j <= n ==> WritesOf(o, host, m', b, j) == WritesOf(o, host, m, b, j))
      && (forall s :: Tally(s, m', b, n) == Tally(s, m, b, n))
      && forall j :: 0 <= j < n ==>
           Entry(m', b, j) == Entry(m, b, j) && Value(o, host, m', Entry(m, b, j)) == Value(o, host, m, Entry(m, b, j))
  {
    hide WritesOf, Patched, NamesIn, SameRange, AllOutside, Fits, Entry, Value, Tally, SymbolsIn;
    WritesClear(o, host, m, a, k, strings, b, b + RELA_SIZE * n);
    var m' := Patched(m, WritesOf(o, host, m, a, k));
    TablesUnchanged(o, m, WritesOf(o, host, m, a, k), strings);
    RangeUnchanged(m, WritesOf(o, host, m, a, k), b, b + RELA_SIZE * n);
    hide SameTables, TablesOutside;
    TablesKept(o, m, m', strings);
    SlotsKept(o, m, m', b, n, strings, b, b + RELA_SIZE * n);
    TableReads(o, host, m, m', b, n, strings);
  }

  /** A table untouched, with the tables it needs: it says what it said. */
  lemma TableReads(o: Object, host: Bytes -> Address, m: Bytes, m': Bytes, b: nat, n: nat, strings: nat)
    requires TablesIn(o, m, strings) && TablesIn(o, m', strings) && SameTables(o, m, m', strings)
    requires SameRange(m, m', b, b + RELA_SIZE * n)
    ensures forall j :: 0 <= j <= n ==> WritesOf(o, host, m', b, j) == WritesOf(o, host, m, b, j)
    ensures forall s :: Tally(s, m', b, n) == Tally(s, m, b, n)
    ensures forall j :: 0 <= j < n ==>
      Entry(m', b, j) == Entry(m, b, j) && Value(o, host, m', Entry(m, b, j)) == Value(o, host, m, Entry(m, b, j))
  {
    hide WritesOf, NamesIn, Entry, Value, Tally, SameTables;
    forall j | 0 <= j <= n
      ensures WritesOf(o, host, m', b, j) == WritesOf(o, host, m, b, j)
    {
      WritesKept(o, host, m, m', b, n, strings, j);
    }
    forall j | 0 <= j < n
      ensures Entry(m', b, j) == Entry(m, b, j)
      ensures Value(o, host, m', Entry(m, b, j)) == Value(o, host, m, Entry(m, b, j))
    {
      EntrySame(m, m', b, n, j);
      ValueUnchanged(o, host, m, m', strings, Entry(m, b, j));
    }
    TallySame(m, m', b, n);
  }
}
