/**
 Loads an ELF64 shared object from a byte string: its segments are copied into one reservation, its
 tables found, and its relocations applied.
 */
module ElfLoader {
  import opened Bytes
  import opened Relocation
  import opened Words
  import opened Wrappers
  import GnuHash

  const EHDR_SIZE: nat := 64
  const PHDR_SIZE: nat := 56
  const DYN_SIZE: nat := 16
  const PT_LOAD: nat := 1
  const PT_DYNAMIC: nat := 2
  const NOWHERE: nat := TWO_64 - 1

  const DT_NULL: nat := 0
  const DT_PLTRELSZ: nat := 2
  const DT_HASH: nat := 4
  const DT_STRTAB: nat := 5
  const DT_SYMTAB: nat := 6
  const DT_RELA: nat := 7
  const DT_RELASZ: nat := 8
  const DT_STRSZ: nat := 10
  const DT_JMPREL: nat := 23
  const DT_GNU_HASH: nat := 0x6fff_fef5

  datatype Segment = Segment(kind: nat, offset: nat, vaddr: nat, filesz: nat, memsz: nat)

  datatype LoadError =
    | TooSmall | NotElf | NotElf64 | NotShared | NotX86 | NoSegments | NoReservation
    | TablesOutside | MissingTables | NoSymbolCount | BadRelocation(why: Error)

  /** What the file's header says against loading it. */
  function HeaderError(file: Bytes): Option<LoadError> {
    if |file| < EHDR_SIZE then Some(TooSmall)
    else if file[..4] != [0x7f, 0x45, 0x4c, 0x46] then Some(NotElf)
    else if file[4] != 2 || file[5] != 1 then Some(NotElf64)
    else if U16(file[17], file[16]) != 3 then Some(NotShared)
    else if U16(file[19], file[18]) != 62 then Some(NotX86)
    else None
  }

  /** What is accepted, octet by octet: 7f "ELF", class 2, data 1, type 3 and machine 62. */
  lemma HeaderAccepted(file: Bytes)
    ensures HeaderError(file) == None <==>
      && |file| >= 64 && file[0] == 127 && file[1] == 69 && file[2] == 76 && file[3] == 70
      && file[4] == 2 && file[5] == 1 && file[16] == 3 && file[17] == 0 && file[18] == 62 && file[19] == 0
    ensures |file| < 64 ==> HeaderError(file) == Some(TooSmall)
  {
    if |file| >= 64 {
      assert file[..4] == [file[0], file[1], file[2], file[3]];
    }
  }

  function SegmentAt(file: Bytes, at: nat): Segment
    requires at + PHDR_SIZE <= |file|
  {
    Segment(Half(file, at), Word(file, at + 8), Word(file, at + 16), Word(file, at + 32), Word(file, at + 40))
  }

  /** The program headers, which the file holds. */
  function Segments(file: Bytes): seq<Segment>
    requires |file| >= EHDR_SIZE && Word(file, 32) + PHDR_SIZE * U16(file[57], file[56]) <= |file|
  {
    seq(U16(file[57], file[56]), i requires 0 <= i < U16(file[57], file[56]) =>
      SegmentAt(file, Word(file, 32) + PHDR_SIZE * i))
  }

  // ---- the headers as they are laid out in a file -----------------------------------

  /** A program header with the fields the loader has no use for. */
  datatype ProgramHeader = ProgramHeader(s: Segment, flags: nat, paddr: nat, align: nat)
  {
    function Encode(): (d: Bytes)
      ensures |d| == PHDR_SIZE
    {
      Octets(s.kind, 4) + Octets(flags, 4) + Octets(s.offset, 8) + Octets(s.vaddr, 8) + Octets(paddr, 8)
      + Octets(s.filesz, 8) + Octets(s.memsz, 8) + Octets(align, 8)
    }

    predicate Valid() {
      s.kind < TWO_32 && s.offset < TWO_64 && s.vaddr < TWO_64 && s.filesz < TWO_64 && s.memsz < TWO_64
    }
  }

  function EncodeAll(hs: seq<ProgramHeader>): (d: Bytes)
    ensures |d| == PHDR_SIZE * |hs|
  {
    if hs == [] then [] else EncodeAll(hs[..|hs| - 1]) + hs[|hs| - 1].Encode()
  }

  /** The file header. */
  datatype FileHeader = FileHeader(
    ident: Bytes, kind: nat, machine: nat, version: nat, entry: nat, phoff: nat, shoff: nat, flags: nat,
    ehsize: nat, phentsize: nat, phnum: nat, shentsize: nat, shnum: nat, shstrndx: nat)
  {
    function Encode(): (d: Bytes)
      requires |ident| == 16
      ensures |d| == EHDR_SIZE
    {
      ident + Octets(kind, 2) + Octets(machine, 2) + Octets(version, 4) + Octets(entry, 8) + Octets(phoff, 8)
      + Octets(shoff, 8) + Octets(flags, 4) + Octets(ehsize, 2) + Octets(phentsize, 2) + Octets(phnum, 2)
      + Octets(shentsize, 2) + Octets(shnum, 2) + Octets(shstrndx, 2)
    }
  }

  lemma ProgramHeaderRead(file: Bytes, at: nat, h: ProgramHeader)
    requires h.Valid() && at + PHDR_SIZE <= |file| && file[at..at + PHDR_SIZE] == h.Encode()
    ensures SegmentAt(file, at) == h.s
  {
    hide Octets, Number;
    assert file == file[..at] + h.Encode() + file[at + PHDR_SIZE..];
    HalfRead(file, at, h.s.kind);
    WordRead(file, at + 8, h.s.offset);
    WordRead(file, at + 16, h.s.vaddr);
    WordRead(file, at + 32, h.s.filesz);
    WordRead(file, at + 40, h.s.memsz);
  }

  lemma {:induction false} EncodedAt(hs: seq<ProgramHeader>, i: nat)
    requires i < |hs|
    ensures EncodeAll(hs)[PHDR_SIZE * i..PHDR_SIZE * i + PHDR_SIZE] == hs[i].Encode()
  {
    hide Octets;
    if i < |hs| - 1 {
      EncodedAt(hs[..|hs| - 1], i);
    }
  }

  lemma FileHeaderRead(h: FileHeader, rest: Bytes)
    requires |h.ident| == 16 && h.phoff < TWO_64 && h.phnum < 0x1_0000
    ensures
      var file := h.Encode() + rest;
      Word(file, 32) == h.phoff && U16(file[57], file[56]) == h.phnum
  {
    hide Octets, Number;
    var file := h.Encode() + rest;
    assert file[32..40] == Octets(h.phoff, 8);
    WordRead(file, 32, h.phoff);
    assert file[56..58] == Octets(h.phnum, 2);
    TwoOctets(h.phnum);
    assert file[56] == file[56..58][0] && file[57] == file[56..58][1];
  }

  lemma TwoOctets(v: nat)
    requires v < 0x1_0000
    ensures Octets(v, 2) == [v % 256, v / 256]
  {
    assert Octets(v, 2) == [v % 256] + Octets(v / 256, 1);
    assert Octets(v / 256, 1) == [v / 256] + Octets(0, 0);
  }

  /** The segments of a file are those its program headers were written from, wherever they stand. */
  lemma SegmentsRead(h: FileHeader, before: Bytes, hs: seq<ProgramHeader>, after: Bytes)
    requires |h.ident| == 16 && h.phoff < TWO_64 && h.phoff == EHDR_SIZE + |before|
    requires h.phnum < 0x1_0000 && h.phnum == |hs| && forall i :: 0 <= i < |hs| ==> hs[i].Valid()
    ensures
      var file := h.Encode() + (before + EncodeAll(hs) + after);
      && Word(file, 32) + PHDR_SIZE * U16(file[57], file[56]) <= |file| && |Segments(file)| == |hs|
      && forall i :: 0 <= i < |hs| ==> Segments(file)[i] == hs[i].s
  {
    hide Octets, Number, EncodeAll, SegmentAt;
    var all := EncodeAll(hs);
    var file := h.Encode() + (before + all + after);
    FileHeaderRead(h, before + all + after);
    forall i | 0 <= i < |hs|
      ensures SegmentAt(file, h.phoff + PHDR_SIZE * i) == hs[i].s
    {
      EncodedAt(hs, i);
      var at := PHDR_SIZE * i;
      assert file[h.phoff + at..h.phoff + at + PHDR_SIZE] == all[at..at + PHDR_SIZE];
      ProgramHeaderRead(file, h.phoff + at, hs[i]);
    }
  }

  lemma HalfRead(m: Bytes, at: nat, v: nat)
    requires at + 4 <= |m| && v < TWO_32
    ensures m[at..at + 4] == Octets(v, 4) ==> Half(m, at) == v
  {
    Powers();
    NumberOfOctets(v, 4);
  }

  lemma WordRead(m: Bytes, at: nat, v: nat)
    requires at + 8 <= |m| && v < TWO_64
    ensures m[at..at + 8] == Octets(v, 8) ==> Word(m, at) == v
  {
    Powers();
    NumberOfOctets(v, 8);
  }

  // ---- the reservation ----------------------------------------------------------------

  /** The greatest multiple of `page` up to `x`. */
  function Trunc(x: nat, page: nat): (r: nat)
    requires page > 0
    ensures x - page < r <= x
  {
    if x < page then 0 else page + Trunc(x - page, page)
  }

  function Round(x: nat, page: nat): nat
    requires page > 0
  {
    Trunc((x + page - 1) % TWO_64, page)
  }

  /** A segment's bytes are in the file, and its addresses do not wrap. */
  predicate SegmentOk(file: Bytes, s: Segment, page: nat) {
    s.kind == PT_LOAD ==>
      s.filesz <= s.memsz && s.offset + s.filesz <= |file| && s.vaddr + s.memsz + page <= TWO_64
  }

  ghost predicate SegmentsOk(file: Bytes, segs: seq<Segment>, page: nat) {
    page >= 2 && forall i :: 0 <= i < |segs| ==> SegmentOk(file, segs[i], page)
  }

  /** The end of a segment, in 64 bits. */
  function End(s: Segment): nat {
    (s.vaddr + s.memsz) % TWO_64
  }

  /** `low` and `high` bound what is to be loaded, tightly; with nothing to load they say so. */
  ghost predicate Spans(segs: seq<Segment>, low: nat, high: nat) {
    && (forall i :: 0 <= i < |segs| && segs[i].kind == PT_LOAD ==> low <= segs[i].vaddr && End(segs[i]) <= high)
    && (low == NOWHERE || exists i :: 0 <= i < |segs| && segs[i].kind == PT_LOAD && segs[i].vaddr == low)
    && (high == 0 || exists i :: 0 <= i < |segs| && segs[i].kind == PT_LOAD && End(segs[i]) == high)
  }

  /** The least address to load, or NOWHERE. */
  function Low(segs: seq<Segment>): nat {
    if segs == [] then NOWHERE else
      var (s, low) := (segs[|segs| - 1], Low(segs[..|segs| - 1]));
      if s.kind == PT_LOAD && s.vaddr < low then s.vaddr else low
  }

  /** The end of the last byte to load, or 0. */
  function High(segs: seq<Segment>): nat {
    if segs == [] then 0 else
      var (s, high) := (segs[|segs| - 1], High(segs[..|segs| - 1]));
      if s.kind == PT_LOAD && End(s) > high then End(s) else high
  }

  /** Where no address wraps the bounds are in order, with a page to spare. */
  lemma {:induction false} SpanFits(file: Bytes, segs: seq<Segment>, page: nat)
    requires SegmentsOk(file, segs, page)
    ensures Low(segs) <= NOWHERE && (Low(segs) == NOWHERE ==> High(segs) == 0)
    ensures Low(segs) < NOWHERE ==> Low(segs) <= High(segs) && High(segs) + page <= TWO_64
  {
    if segs != [] {
      var (rest, s) := (segs[..|segs| - 1], segs[|segs| - 1]);
      assert forall i :: 0 <= i < |rest| ==> rest[i] == segs[i] && SegmentOk(file, segs[i], page);
      SpanFits(file, rest, page);
      assert SegmentOk(file, s, page);
      assert s.kind == PT_LOAD ==> End(s) == s.vaddr + s.memsz;
    }
  }

  lemma SpansMore(segs: seq<Segment>, s: Segment, low: nat, high: nat)
    requires Spans(segs, low, high)
    ensures if s.kind == PT_LOAD then
              Spans(segs + [s], if s.vaddr < low then s.vaddr else low,
                    if End(s) > high then End(s) else high)
            else Spans(segs + [s], low, high)
  {
    var more := segs + [s];
    assert more[|segs|] == s && forall i :: 0 <= i < |segs| ==> more[i] == segs[i];
  }

  lemma SegmentMore(segs: seq<Segment>, s: Segment)
    ensures var more := segs + [s];
      && Low(more) == (if s.kind == PT_LOAD && s.vaddr < Low(segs) then s.vaddr else Low(segs))
      && High(more) == (if s.kind == PT_LOAD && End(s) > High(segs) then End(s) else High(segs))
      && LastDynamic(more) == (if s.kind == PT_DYNAMIC then Some(s.vaddr) else LastDynamic(segs))
  {
    assert (segs + [s])[..|segs|] == segs;
  }

  method Span(segs: seq<Segment>) returns (low: nat, high: nat, dynamic: Option<nat>)
    ensures low == Low(segs) && high == High(segs) && Spans(segs, low, high)
    ensures dynamic == LastDynamic(segs)
  {
    hide Spans, Low, High, LastDynamic, End;
    SpansNothing();
    low, high, dynamic := NOWHERE, 0, None;
    var i := 0;
    while i < |segs|
      invariant i <= |segs| && low == Low(segs[..i]) && high == High(segs[..i]) && Spans(segs[..i], low, high)
      invariant dynamic == LastDynamic(segs[..i])
    {
      var s := segs[i];
      assert segs[..i + 1] == segs[..i] + [s];
      SpansMore(segs[..i], s, low, high);
      SegmentMore(segs[..i], s);
      if s.kind == PT_LOAD {
        low := if s.vaddr < low then s.vaddr else low;
        high := if End(s) > high then End(s) else high;
      } else if s.kind == PT_DYNAMIC {
        dynamic := Some(s.vaddr);
      }
      i := i + 1;
    }
    assert segs[..|segs|] == segs;
  }

  lemma SpansNothing()
    ensures Low([]) == NOWHERE && High([]) == 0 && Spans([], NOWHERE, 0) && LastDynamic([]) == None
  {
  }

  function LastDynamic(segs: seq<Segment>): Option<nat> {
    if segs == [] then None
    else if segs[|segs| - 1].kind == PT_DYNAMIC then Some(segs[|segs| - 1].vaddr)
    else LastDynamic(segs[..|segs| - 1])
  }

  // ---- the segments in memory -----------------------------------------------------------

  predicate Holds(s: Segment, v: nat) {
    s.kind == PT_LOAD && s.vaddr <= v < s.vaddr + s.memsz
  }

  /** The byte a segment has for an address: the file's, and zero beyond its bytes there. */
  function ByteOf(file: Bytes, s: Segment, v: nat): Byte
    requires Holds(s, v) && s.offset + s.filesz <= |file|
  {
    if v - s.vaddr < s.filesz then file[s.offset + (v - s.vaddr)] else 0
  }

  /** The byte at an address after the first `n` segments were copied; the reservation is zero. */
  function Loaded(file: Bytes, segs: seq<Segment>, n: nat, v: nat): Byte
    requires n <= |segs|
    requires forall i :: 0 <= i < |segs| && segs[i].kind == PT_LOAD ==> segs[i].offset + segs[i].filesz <= |file|
  {
    if n == 0 then 0
    else if Holds(segs[n - 1], v) then ByteOf(file, segs[n - 1], v)
    else Loaded(file, segs, n - 1, v)
  }

  ghost predicate SegmentsDisjoint(segs: seq<Segment>) {
    forall i, j, v :: 0 <= i < j < |segs| && Holds(segs[i], v) ==> !Holds(segs[j], v)
  }

  /** With disjoint segments every byte is its own segment's; outside them memory is zero. */
  lemma {:induction false} LoadedByte(file: Bytes, segs: seq<Segment>, n: nat, v: nat)
    requires n <= |segs| && SegmentsDisjoint(segs)
    requires forall i :: 0 <= i < |segs| && segs[i].kind == PT_LOAD ==> segs[i].offset + segs[i].filesz <= |file|
    ensures forall i :: 0 <= i < n && Holds(segs[i], v) ==> Loaded(file, segs, n, v) == ByteOf(file, segs[i], v)
    ensures (forall i :: 0 <= i < n ==> !Holds(segs[i], v)) ==> Loaded(file, segs, n, v) == 0
  {
    if n > 0 {
      LoadedByte(file, segs, n - 1, v);
    }
  }

  /** Memory from `base` on, with the segments copied in. */
  ghost function Copied(file: Bytes, segs: seq<Segment>, page: nat, base: nat, span: nat): (m: Bytes)
    requires SegmentsOk(file, segs, page)
    ensures |m| == span
  {
    assert forall i :: 0 <= i < |segs| ==> SegmentOk(file, segs[i], page);
    seq<Byte>(span, k requires 0 <= k < span => Loaded(file, segs, |segs|, base + k))
  }

  /** One segment: its bytes, then zeros. */
  method CopySegment(memory: array<Byte>, file: Bytes, s: Segment, at: nat)
    requires s.filesz <= s.memsz && s.offset + s.filesz <= |file| && at + s.memsz <= memory.Length
    modifies memory
    ensures forall k :: 0 <= k < memory.Length ==>
              memory[k] == if at <= k < at + s.filesz then file[s.offset + (k - at)]
                           else if at + s.filesz <= k < at + s.memsz then 0 else old(memory[k])
  {
    forall k | 0 <= k < s.filesz {
      memory[at + k] := file[s.offset + k];
    }
    forall k | s.filesz <= k < s.memsz {
      memory[at + k] := 0;
    }
  }

  method CopySegments(file: Bytes, segs: seq<Segment>, page: nat, low: nat, span: nat) returns (memory: array<Byte>)
    requires SegmentsOk(file, segs, page)
    requires forall i :: 0 <= i < |segs| && segs[i].kind == PT_LOAD ==>
      low <= segs[i].vaddr && segs[i].vaddr + segs[i].memsz <= low + span
    ensures fresh(memory) && memory.Length == span && memory[..] == Copied(file, segs, page, low, span)
  {
    memory := new Byte[span](_ => 0);
    var i := 0;
    while i < |segs|
      invariant i <= |segs|
      invariant forall k :: 0 <= k < span ==> memory[k] == Loaded(file, segs, i, low + k)
    {
      var s := segs[i];
      assert SegmentOk(file, s, page);
      if s.kind == PT_LOAD {
        CopySegment(memory, file, s, s.vaddr - low);
      }
      i := i + 1;
    }
  }

  // ---- pages ------------------------------------------------------------------------------

  predicate Aligned(x: nat, page: nat) {
    page > 0 && Trunc(x, page) == x
  }

  lemma {:induction false} TruncShift(a: nat, x: nat, page: nat)
    requires Aligned(a, page)
    ensures Trunc(a + x, page) == a + Trunc(x, page)
    decreases a
  {
    if a >= page {
      TruncShift(a - page, x, page);
      assert a + x - page == (a - page) + x;
    }
  }

  lemma {:induction false} TruncMonotone(x: nat, y: nat, page: nat)
    requires page > 0 && x <= y
    ensures Trunc(x, page) <= Trunc(y, page)
  {
    if x >= page {
      TruncMonotone(x - page, y - page, page);
    }
  }

  lemma {:induction false} TruncAligned(x: nat, page: nat)
    requires page > 0
    ensures Aligned(Trunc(x, page), page)
  {
    if x >= page {
      TruncAligned(x - page, page);
    }
  }

  /** Of a multiple and a remainder the multiple stays. */
  lemma {:induction false} TruncIsRemainder(q: nat, r: nat, page: nat)
    requires r < page
    ensures Trunc(page * q + r, page) == page * q
  {
    if q > 0 {
      assert page * q + r - page == page * (q - 1) + r;
      TruncIsRemainder(q - 1, r, page);
    }
  }

  lemma RoundIsTrunc(x: nat, page: nat)
    requires page > 0 && x + page <= TWO_64
    ensures Round(x, page) == Trunc(x + page - 1, page)
  {
    assert (x + page - 1) % TWO_64 == x + page - 1;
  }

  /** Where the segments go: from a page boundary at or below `low` to one at or above `high`. */
  lemma ReservationHolds(low: nat, high: nat, page: nat)
    requires page > 0 && low <= high && high + page <= TWO_64
    ensures 0 <= Trunc(low, page) <= low && high <= Round(high, page) && Aligned(Trunc(low, page), page)
  {
    TruncAligned(low, page);
    TruncAligned(high + page - 1, page);
  }

  lemma SpansAt(segs: seq<Segment>, low: nat, high: nat, i: nat)
    requires Spans(segs, low, high) && i < |segs| && segs[i].kind == PT_LOAD
    requires segs[i].vaddr + segs[i].memsz < TWO_64
    ensures low <= segs[i].vaddr && segs[i].vaddr + segs[i].memsz <= high
  {
  }

  lemma SegmentsFit(file: Bytes, segs: seq<Segment>, page: nat, low: nat, high: nat)
    requires SegmentsOk(file, segs, page) && Spans(segs, low, high)
    ensures forall i :: 0 <= i < |segs| && segs[i].kind == PT_LOAD ==>
      low <= segs[i].vaddr && segs[i].vaddr + segs[i].memsz <= high
  {
    hide Spans;
    forall i | 0 <= i < |segs| && segs[i].kind == PT_LOAD
      ensures low <= segs[i].vaddr && segs[i].vaddr + segs[i].memsz <= high
    {
      assert SegmentOk(file, segs[i], page);
      SpansAt(segs, low, high, i);
    }
  }

  /** Every page made accessible for a segment is in the reservation. */
  lemma PagesInside(segs: seq<Segment>, low: nat, high: nat, page: nat, start: nat, i: nat)
    requires page > 0 && high + page <= TWO_64 && Spans(segs, low, high) && low <= high
    requires i < |segs| && segs[i].kind == PT_LOAD && segs[i].vaddr + segs[i].memsz < TWO_64
    requires Aligned(start, page) && start + (Round(high, page) - Trunc(low, page)) + page <= TWO_64
    ensures Trunc(low, page) <= segs[i].vaddr
    ensures
      var seg := start + (segs[i].vaddr - Trunc(low, page));
      start <= Trunc(seg, page) && Round(seg + segs[i].memsz, page) <= start + (Round(high, page) - Trunc(low, page))
  {
    hide Trunc, Round, Aligned, Spans;
    SpansAt(segs, low, high, i);
    ReservationHolds(low, high, page);
    var base := Trunc(low, page);
    var (from, to) := (segs[i].vaddr - base, segs[i].vaddr + segs[i].memsz - base + page - 1);
    TruncShift(start, from, page);
    TruncShift(start, to, page);
    TruncShift(base, to, page);
    TruncMonotone(base + to, high + page - 1, page);
    RoundIsTrunc(high, page);
    RoundIsTrunc(start + from + segs[i].memsz, page);
  }

  // ---- the dynamic table ------------------------------------------------------------------

  function Tag(m: Bytes, at: nat, k: nat): nat
    requires at + DYN_SIZE * k + DYN_SIZE <= |m|
  {
    Word(m, at + DYN_SIZE * k)
  }

  function Val(m: Bytes, at: nat, k: nat): nat
    requires at + DYN_SIZE * k + DYN_SIZE <= |m|
  {
    Word(m, at + DYN_SIZE * k + 8)
  }

  /** `n` entries before the one that ends the table. */
  ghost predicate Ends(m: Bytes, at: nat, n: nat) {
    && at + DYN_SIZE * n + DYN_SIZE <= |m| && Tag(m, at, n) == DT_NULL
    && forall k :: 0 <= k < n ==> Tag(m, at, k) != DT_NULL
  }

  /** The value of the last of the first `n` entries with a tag. */
  function LastOf(m: Bytes, at: nat, n: nat, tag: nat): Option<nat>
    requires at + DYN_SIZE * n <= |m|
  {
    if n == 0 then None
    else if Tag(m, at, n - 1) == tag then Some(Val(m, at, n - 1))
    else LastOf(m, at, n - 1, tag)
  }

  datatype Dynamic = Dynamic(symtab: Option<nat>, strtab: Option<nat>, strsz: Option<nat>,
                             rela: Option<nat>, relasz: Option<nat>, jmprel: Option<nat>, pltrelsz: Option<nat>,
                             hash: Option<nat>, gnuHash: Option<nat>)

  function DynamicOf(m: Bytes, at: nat, n: nat): Dynamic
    requires at + DYN_SIZE * n <= |m|
  {
    Dynamic(LastOf(m, at, n, DT_SYMTAB), LastOf(m, at, n, DT_STRTAB), LastOf(m, at, n, DT_STRSZ),
            LastOf(m, at, n, DT_RELA), LastOf(m, at, n, DT_RELASZ),
            LastOf(m, at, n, DT_JMPREL), LastOf(m, at, n, DT_PLTRELSZ),
            LastOf(m, at, n, DT_HASH), LastOf(m, at, n, DT_GNU_HASH))
  }

  method ParseDynamic(memory: array<Byte>, at: nat, ghost n: nat) returns (d: Dynamic)
    requires Ends(memory[..], at, n)
    ensures d == DynamicOf(memory[..], at, n)
  {
    hide Word;
    d := Dynamic(None, None, None, None, None, None, None, None, None);
    var k := 0;
    while Tag(memory[..], at, k) != DT_NULL
      invariant k <= n && d == DynamicOf(memory[..], at, k)
      decreases n - k
    {
      var v := Val(memory[..], at, k);
      match Tag(memory[..], at, k) {
        case 6 => d := d.(symtab := Some(v));
        case 10 => d := d.(strsz := Some(v));
        case 5 => d := d.(strtab := Some(v));
        case 7 => d := d.(rela := Some(v));
        case 8 => d := d.(relasz := Some(v));
        case 23 => d := d.(jmprel := Some(v));
        case 2 => d := d.(pltrelsz := Some(v));
        case 4 => d := d.(hash := Some(v));
        case 0x6fff_fef5 => d := d.(gnuHash := Some(v));
        case _ =>
      }
      k := k + 1;
    }
  }

  // ---- symbols and relocations ---------------------------------------------------------------

  /** Where a table is, or 0. */
  function Pointer(base: nat, v: Option<nat>): nat {
    match v
    case Some(a) => (base + a) % TWO_64
    case None => 0
  }

  /** ... as an index of the mapping. */
  function Index(base: nat, start: nat, v: Option<nat>): int {
    Pointer(base, v) - start
  }

  function ObjectOf(d: Dynamic, base: nat, start: nat, count: nat): Object {
    Object(base, start, Pointer(base, d.symtab), Pointer(base, d.strtab), count, d.strsz.GetOr(0))
  }

  function Entries(size: Option<nat>): nat {
    size.GetOr(0) / RELA_SIZE
  }

  predicate Inside(p: nat, start: nat, size: nat) {
    start <= p < start + size
  }

  /** The hash tables give the number of symbols; 0 is unknown. */
  ghost predicate CountIs(m: Bytes, d: Dynamic, base: nat, start: nat, count: nat) {
    match d.hash
    case Some(_) =>
      var at := Index(base, start, d.hash);
      0 <= at && at + 8 <= |m| && count == Half(m, at + 4)
    case None =>
      match d.gnuHash
      case Some(_) =>
        var at := Index(base, start, d.gnuHash);
        0 <= at && GnuHash.WellFormed(m, at, count)
      case None => count == 0
  }

  /** A relocation table lies in the mapping, its slots outside all tables. */
  ghost predicate RelaOk(o: Object, m: Bytes, strings: nat, table: Option<nat>, size: Option<nat>,
                         other: Option<nat>, otherSize: Option<nat>) {
    table.Some? ==>
      var (at, beside) := (Index(o.base, o.start, table), Index(o.base, o.start, other));
      && 0 <= at && SlotsOk(o, m, at, Entries(size), strings, at, at + RELA_SIZE * Entries(size))
      && (other.Some? ==> 0 <= beside
                          && SlotsOk(o, m, at, Entries(size), strings, beside, beside + RELA_SIZE * Entries(otherSize)))
  }

  /** What is read of the tables is there, once the loader's own checks are passed. */
  ghost predicate Linkable(m: Bytes, d: Dynamic, base: nat, start: nat, count: nat, strings: nat) {
    var o := ObjectOf(d, base, start, count);
    Inside(o.symtab, start, |m|) && Inside(o.strtab, start, |m|) ==>
      && CountIs(m, d, base, start, count)
      && (count > 0 ==> Relocatable(o, m, d, strings))
  }

  /** What one table stores. */
  ghost function TableWrites(o: Object, host: Bytes -> Address, m: Bytes, table: Option<nat>,
                             size: Option<nat>): seq<Write>
    requires SymbolsIn(o, |m|)
    requires table.Some? ==>
      0 <= Index(o.base, o.start, table) && Index(o.base, o.start, table) + RELA_SIZE * Entries(size) <= |m|
  {
    if table.None? then [] else WritesOf(o, host, m, Index(o.base, o.start, table), Entries(size))
  }

  /** The relocations of a table by kind, added up. */
  function TableTally(before: Stats, o: Object, m: Bytes, table: Option<nat>, size: Option<nat>): Stats
    requires table.Some? ==>
      0 <= Index(o.base, o.start, table) && Index(o.base, o.start, table) + RELA_SIZE * Entries(size) <= |m|
  {
    if table.None? then before else Tally(before, m, Index(o.base, o.start, table), Entries(size))
  }

  function AllTally(o: Object, m: Bytes, d: Dynamic, ghost strings: nat): Stats
    requires o.symcount > 0 ==> Relocatable(o, m, d, strings)
  {
    if o.symcount == 0 then Stats(0, 0, 0, 0, 0)
    else TableTally(TableTally(Stats(0, 0, 0, 0, 0), o, m, d.rela, d.relasz), o, m, d.jmprel, d.pltrelsz)
  }

  /** A relocation of the table refers to a symbol without an address, which is error `e`. */
  ghost predicate Unresolved(o: Object, host: Bytes -> Address, m: Bytes, table: Option<nat>, size: Option<nat>,
                             e: Error)
    requires SymbolsIn(o, |m|)
    requires table.Some? ==>
      0 <= Index(o.base, o.start, table) && Index(o.base, o.start, table) + RELA_SIZE * Entries(size) <= |m|
  {
    table.Some?
    && var at := Index(o.base, o.start, table);
       exists k :: 0 <= k < Entries(size) && Value(o, host, m, Entry(m, at, k)) == Err(e)
  }

  /** ... of either table. */
  ghost predicate AnyUnresolved(o: Object, host: Bytes -> Address, m: Bytes, d: Dynamic, strings: nat, e: Error)
    requires o.symcount > 0 ==> Relocatable(o, m, d, strings)
  {
    o.symcount > 0
    && (Unresolved(o, host, m, d.rela, d.relasz, e) || Unresolved(o, host, m, d.jmprel, d.pltrelsz, e))
  }

  /** The tables a relocation needs. */
  ghost predicate Relocatable(o: Object, m: Bytes, d: Dynamic, strings: nat) {
    && TablesIn(o, m, strings)
    && RelaOk(o, m, strings, d.rela, d.relasz, d.jmprel, d.pltrelsz)
    && RelaOk(o, m, strings, d.jmprel, d.pltrelsz, None, None)
  }

  /** All that the relocations store, in the order they are applied. */
  ghost function AllWrites(o: Object, host: Bytes -> Address, m: Bytes, d: Dynamic, strings: nat): seq<Write>
    requires o.symcount > 0 ==> Relocatable(o, m, d, strings)
  {
    if o.symcount == 0 then [] else
      TableWrites(o, host, m, d.rela, d.relasz) + TableWrites(o, host, m, d.jmprel, d.pltrelsz)
  }

  method CountSymbols(memory: array<Byte>, d: Dynamic, base: nat, start: nat, ghost count: nat) returns (k: nat)
    requires CountIs(memory[..], d, base, start, count)
    ensures k == count
  {
    hide Half;
    if d.hash.Some? {
      return Half(memory[..], Index(base, start, d.hash) + 4);
    }
    if d.gnuHash.Some? {
      k := GnuHash.SymbolCount(memory[..], Index(base, start, d.gnuHash), count);
      return;
    }
    return 0;
  }

  method ApplyTable(memory: array<Byte>, o: Object, host: Bytes -> Address, table: Option<nat>, size: Option<nat>,
                    before: Stats, ghost strings: nat)
    returns (error: Option<Error>, stats: Stats)
    requires TablesIn(o, memory[..], strings) && RelaOk(o, memory[..], strings, table, size, None, None)
    modifies memory
    ensures error == None ==>
      var ws := TableWrites(o, host, old(memory[..]), table, size);
      Fits(ws, memory.Length) && memory[..] == Patched(old(memory[..]), ws)
    ensures match error
      case Some(e) => Unresolved(o, host, old(memory[..]), table, size, e)
      case None =>
        (forall e :: !Unresolved(o, host, old(memory[..]), table, size, e))
        && stats == TableTally(before, o, old(memory[..]), table, size)
  {
    hide SlotsOk, WritesOf, Patched, Tally, Value, NamesIn;
    error, stats := None, before;
    NoWrites(memory[..]);
    if table.Some? {
      ghost var done;
      error, stats, done := ApplyRela(memory, o, host, Index(o.base, o.start, table), Entries(size), before, strings);
    }
  }

  lemma NoWrites(m: Bytes)
    ensures Fits([], |m|) && Patched(m, []) == m
  {
  }

  /** Both tables, in order: every store they ask for is made, or a symbol has no address. */
  method Relocate(memory: array<Byte>, o: Object, host: Bytes -> Address, d: Dynamic, ghost strings: nat)
    returns (error: Option<Error>, stats: Stats)
    requires o.symcount > 0 && Relocatable(o, memory[..], d, strings)
    modifies memory
    ensures error == None ==>
      var ws := AllWrites(o, host, old(memory[..]), d, strings);
      Fits(ws, memory.Length) && memory[..] == Patched(old(memory[..]), ws)
    ensures match error
      case Some(e) => AnyUnresolved(o, host, old(memory[..]), d, strings, e)
      case None =>
        (forall e :: !AnyUnresolved(o, host, old(memory[..]), d, strings, e))
        && stats == AllTally(o, old(memory[..]), d, strings)
  {
    hide WritesOf, Patched, Fits, NamesIn, TableWrites, Unresolved, TableTally;
    JmprelStands(o, host, memory[..], d, strings);
    ghost var m := memory[..];
    error, stats := ApplyTable(memory, o, host, d.rela, d.relasz, Stats(0, 0, 0, 0, 0), strings);
    if error.None? {
      error, stats := ApplyTable(memory, o, host, d.jmprel, d.pltrelsz, stats, strings);
      PatchedConcat(m, TableWrites(o, host, m, d.rela, d.relasz), TableWrites(o, host, m, d.jmprel, d.pltrelsz));
    }
  }

  /** The second table after the first is done. */
  lemma JmprelStands(o: Object, host: Bytes -> Address, m: Bytes, d: Dynamic, strings: nat)
    requires Relocatable(o, m, d, strings)
    ensures Fits(TableWrites(o, host, m, d.rela, d.relasz), |m|)
    ensures Fits(TableWrites(o, host, m, d.jmprel, d.pltrelsz), |m|)
    ensures var m' := Patched(m, TableWrites(o, host, m, d.rela, d.relasz));
      && TablesIn(o, m', strings) && RelaOk(o, m', strings, d.jmprel, d.pltrelsz, None, None)
      && SaysTheSame(o, host, m, m', d.jmprel, d.pltrelsz)
  {
    assert d.jmprel.Some? ==> Index(o.base, o.start, d.jmprel) + RELA_SIZE * Entries(d.pltrelsz) <= |m|;
    hide WritesOf, Patched, NamesIn, SlotsOk, Fits, SaysTheSame;
    NoWrites(m);
    if d.jmprel.Some? {
      WritesFit(o, host, m, Index(o.base, o.start, d.jmprel), Entries(d.pltrelsz), strings);
    }
    if d.rela.None? {
      SameAsItself(o, host, m, d.jmprel, d.pltrelsz);
    } else {
      var (a, k) := (Index(o.base, o.start, d.rela), Entries(d.relasz));
      WritesFit(o, host, m, a, k, strings);
      JmprelAfterRela(o, host, m, d, strings, a, k);
    }
  }

  /** A table asks for the same stores in two memories, fails the same and counts the same. */
  ghost predicate SaysTheSame(o: Object, host: Bytes -> Address, m: Bytes, m': Bytes, table: Option<nat>,
                              size: Option<nat>)
    requires |m| == |m'| && SymbolsIn(o, |m|)
    requires table.Some? ==>
      0 <= Index(o.base, o.start, table) && Index(o.base, o.start, table) + RELA_SIZE * Entries(size) <= |m|
  {
    && TableWrites(o, host, m', table, size) == TableWrites(o, host, m, table, size)
    && (forall e :: Unresolved(o, host, m', table, size, e) == Unresolved(o, host, m, table, size, e))
    && forall s: Stats :: TableTally(s, o, m', table, size) == TableTally(s, o, m, table, size)
  }

  lemma SameAsItself(o: Object, host: Bytes -> Address, m: Bytes, table: Option<nat>, size: Option<nat>)
    requires SymbolsIn(o, |m|)
    requires table.Some? ==>
      0 <= Index(o.base, o.start, table) && Index(o.base, o.start, table) + RELA_SIZE * Entries(size) <= |m|
    ensures SaysTheSame(o, host, m, m, table, size)
  {
    hide TableWrites, Unresolved, TableTally;
  }

  lemma JmprelAfterRela(o: Object, host: Bytes -> Address, m: Bytes, d: Dynamic, strings: nat, a: nat, k: nat)
    requires Relocatable(o, m, d, strings) && d.rela.Some?
    requires a == Index(o.base, o.start, d.rela) && k == Entries(d.relasz)
    requires Fits(WritesOf(o, host, m, a, k), |m|)
    ensures var m' := Patched(m, WritesOf(o, host, m, a, k));
      && TablesIn(o, m', strings) && RelaOk(o, m', strings, d.jmprel, d.pltrelsz, None, None)
      && SaysTheSame(o, host, m, m', d.jmprel, d.pltrelsz)
  {
    hide WritesOf, Patched, NamesIn, SlotsOk, Fits, Value, Entry, Tally;
    if d.jmprel.None? {
      SecondTable(o, host, m, a, k, a, k, strings);
    } else {
      SecondTable(o, host, m, a, k, Index(o.base, o.start, d.jmprel), Entries(d.pltrelsz), strings);
    }
  }

  lemma WritesFit(o: Object, host: Bytes -> Address, m: Bytes, at: nat, n: nat, strings: nat)
    requires TablesIn(o, m, strings) && SlotsOk(o, m, at, n, strings, at, at + RELA_SIZE * n)
    ensures Fits(WritesOf(o, host, m, at, n), |m|)
  {
    WritesClear(o, host, m, at, n, strings, at, at + RELA_SIZE * n);
  }

  // ---- loading --------------------------------------------------------------------------------

  datatype Image = Image(memory: array<Byte>, o: Object, stats: Stats)

  /** The program headers and the bytes they name are in the file. */
  ghost predicate FileOk(file: Bytes, page: nat) {
    && |file| >= EHDR_SIZE && Word(file, 32) + PHDR_SIZE * U16(file[57], file[56]) <= |file|
    && SegmentsOk(file, Segments(file), page)
  }

  /** The reservation: whole pages around what is to be loaded. */
  ghost function MemoryImage(file: Bytes, page: nat): Bytes
    requires FileOk(file, page)
  {
    var segs := Segments(file);
    var (base, end) := (Trunc(Low(segs), page), Round(High(segs), page));
    if base <= end then Copied(file, segs, page, base, end - base) else []
  }

  /** The address the reservation stands for. */
  ghost function Base(file: Bytes, page: nat): nat
    requires FileOk(file, page)
  {
    Trunc(Low(Segments(file)), page)
  }

  /** The address of the dynamic table, when there is something to load. */
  ghost function DynamicAddress(file: Bytes, page: nat): Option<nat>
    requires FileOk(file, page)
  {
    if Low(Segments(file)) == NOWHERE then None else LastDynamic(Segments(file))
  }

  /** A segment holds the dynamic table, and the tables it names are there. */
  ghost predicate ObjectOk(file: Bytes, page: nat, start: nat, n: nat, count: nat, strings: nat)
    requires FileOk(file, page)
  {
    var (m, base) := (MemoryImage(file, page), Base(file, page));
    && 0 < start && Aligned(start, page) && start + |m| + page <= TWO_64
    && match DynamicAddress(file, page)
       case None => true
       case Some(at) =>
         && base <= at && Ends(m, at - base, n)
         && Linkable(m, DynamicOf(m, at - base, n), (start - base) % TWO_64, start, count, strings)
  }

  /** The object its dynamic table describes, with all its relocations' stores made and counted. */
  ghost predicate IsLinked(m: Bytes, base: nat, start: nat, at: nat, host: Bytes -> Address,
                           n: nat, count: nat, strings: nat, o: Object, stats: Stats, after: Bytes)
    requires Ends(m, at, n) && Linkable(m, DynamicOf(m, at, n), base, start, count, strings)
  {
    var d := DynamicOf(m, at, n);
    && o == ObjectOf(d, base, start, count) && Inside(o.symtab, start, |m|) && Inside(o.strtab, start, |m|)
    && (if count > 0 then Relocatable(o, m, d, strings) else d.relasz.GetOr(0) == 0 && d.pltrelsz.GetOr(0) == 0)
    && Fits(AllWrites(o, host, m, d, strings), |m|) && after == Patched(m, AllWrites(o, host, m, d, strings))
    && stats == AllTally(o, m, d, strings) && forall e :: !AnyUnresolved(o, host, m, d, strings, e)
  }

  /** The reasons to refuse one. */
  ghost predicate IsRefused(m: Bytes, base: nat, start: nat, at: nat, host: Bytes -> Address,
                            n: nat, count: nat, strings: nat, e: LoadError)
    requires Ends(m, at, n) && Linkable(m, DynamicOf(m, at, n), base, start, count, strings)
  {
    var d := DynamicOf(m, at, n);
    var o := ObjectOf(d, base, start, count);
    var outside := (o.symtab != 0 && !Inside(o.symtab, start, |m|)) || (o.strtab != 0 && !Inside(o.strtab, start, |m|));
    if outside then e == TablesOutside
    else if o.symtab == 0 || o.strtab == 0 then e == MissingTables
    else if count == 0 then (d.relasz.GetOr(0) > 0 || d.pltrelsz.GetOr(0) > 0) && e == NoSymbolCount
    else e.BadRelocation? && Relocatable(o, m, d, strings) && AnyUnresolved(o, host, m, d, strings, e.why)
  }

  lemma NoRelocations(o: Object, host: Bytes -> Address, m: Bytes, d: Dynamic, strings: nat)
    ensures o.symcount == 0 ==>
      && AllWrites(o, host, m, d, strings) == [] && Fits([], |m|) && Patched(m, []) == m
      && AllTally(o, m, d, strings) == Stats(0, 0, 0, 0, 0)
      && forall e :: !AnyUnresolved(o, host, m, d, strings, e)
  {
  }

  /** From the dynamic table on. */
  method Link(memory: array<Byte>, base: nat, start: nat, at: nat, host: Bytes -> Address,
              ghost n: nat, ghost count: nat, ghost strings: nat)
    returns (r: Result<Image, LoadError>)
    requires Ends(memory[..], at, n)
    requires Linkable(memory[..], DynamicOf(memory[..], at, n), base, start, count, strings)
    modifies memory
    ensures match r
      case Ok(image) =>
        image.memory == memory
        && IsLinked(old(memory[..]), base, start, at, host, n, count, strings, image.o, image.stats, memory[..])
      case Err(e) => IsRefused(old(memory[..]), base, start, at, host, n, count, strings, e)
  {
    hide AnyUnresolved, AllWrites, AllTally;
    hide Relocatable, Patched, CountIs, Pointer, Ends, LastOf;
    var d := ParseDynamic(memory, at, n);
    var symtab, strtab := Pointer(base, d.symtab), Pointer(base, d.strtab);
    if (symtab != 0 && !Inside(symtab, start, memory.Length))
      || (strtab != 0 && !Inside(strtab, start, memory.Length)) {
      return Err(TablesOutside);
    }
    if symtab == 0 || strtab == 0 {
      return Err(MissingTables);
    }
    var symcount := CountSymbols(memory, d, base, start, count);
    if symcount == 0 && (d.relasz.GetOr(0) != 0 || d.pltrelsz.GetOr(0) != 0) {
      return Err(NoSymbolCount);
    }
    var o := Object(base, start, symtab, strtab, symcount, d.strsz.GetOr(0));
    NoRelocations(o, host, memory[..], d, strings);
    var stats := Stats(0, 0, 0, 0, 0);
    if symcount > 0 {
      var error;
      error, stats := Relocate(memory, o, host, d, strings);
      if error.Some? {
        return Err(BadRelocation(error.value));
      }
    }
    r := Ok(Image(memory, o, stats));
  }

  /** The reservation with the segments in it; nothing to load, or no dynamic table, is an error. */
  method MapSegments(file: Bytes, page: nat, mapping: Option<nat>)
    returns (error: Option<LoadError>, memory: array<Byte>, base: nat, dynamic: nat)
    requires FileOk(file, page)
    ensures error == Some(NoSegments) <==> DynamicAddress(file, page) == None
    ensures error in {None, Some(NoSegments), Some(NoReservation)}
    ensures error == Some(NoReservation) <==> DynamicAddress(file, page).Some? && mapping.None?
    ensures error == None ==> mapping.Some?
    ensures error == None ==>
      && fresh(memory) && memory[..] == MemoryImage(file, page)
      && base == Base(file, page) && DynamicAddress(file, page) == Some(dynamic)
  {
    var segs := Segments(file);
    var low, high, at := Span(segs);
    SpanFits(file, segs, page);
    error, base, dynamic := None, 0, 0;
    memory := new Byte[0];
    if low == NOWHERE || at.None? {
      return Some(NoSegments), memory, base, dynamic;
    }
    if mapping.None? {
      return Some(NoReservation), memory, base, dynamic;
    }
    ReservationHolds(low, high, page);
    SegmentsFit(file, segs, page, low, high);
    hide Trunc, Round, Loaded, Low, High, LastDynamic, Copied, Spans, SegmentsOk, End;
    base, dynamic := Trunc(low, page), at.value;
    memory := CopySegments(file, segs, page, base, Round(high, page) - base);
  }

  /** What loading comes to once there is a reservation: the file's image with exactly the relocations'
      stores made, or the reason it cannot be linked. */
  ghost predicate IsLoaded(file: Bytes, page: nat, start: nat, host: Bytes -> Address, n: nat, count: nat, strings: nat,
                           o: Object, stats: Stats, after: Bytes)
    requires FileOk(file, page) && ObjectOk(file, page, start, n, count, strings)
  {
    var (m, base) := (MemoryImage(file, page), Base(file, page));
    match DynamicAddress(file, page)
    case None => false
    case Some(at) => IsLinked(m, (start - base) % TWO_64, start, at - base, host, n, count, strings, o, stats, after)
  }

  ghost predicate CannotLoad(file: Bytes, page: nat, start: nat, host: Bytes -> Address,
                             n: nat, count: nat, strings: nat, e: LoadError)
    requires FileOk(file, page) && ObjectOk(file, page, start, n, count, strings)
  {
    var (m, base) := (MemoryImage(file, page), Base(file, page));
    match DynamicAddress(file, page)
    case None => e == NoSegments
    case Some(at) => IsRefused(m, (start - base) % TWO_64, start, at - base, host, n, count, strings, e)
  }

  /** The whole of it; `mapping` is the address the system reserves, if it can. */
  method Load(file: Bytes, page: nat, mapping: Option<nat>, host: Bytes -> Address,
              ghost n: nat, ghost count: nat, ghost strings: nat)
    returns (r: Result<Image, LoadError>)
    requires HeaderError(file) == None ==>
      FileOk(file, page) && (mapping.Some? ==> ObjectOk(file, page, mapping.value, n, count, strings))
    ensures HeaderError(file).Some? ==> r == Err(HeaderError(file).value)
    ensures HeaderError(file) == None && mapping == None ==>
      r == Err(if DynamicAddress(file, page) == None then NoSegments else NoReservation)
    ensures HeaderError(file) == None && mapping.Some? ==>
      match r
      case Ok(image) =>
        fresh(image.memory)
        && IsLoaded(file, page, mapping.value, host, n, count, strings, image.o, image.stats, image.memory[..])
      case Err(e) => CannotLoad(file, page, mapping.value, host, n, count, strings, e)
  {
    hide Ends, Linkable, DynamicOf, Aligned, HeaderError, MemoryImage, FileOk, Base, DynamicAddress, IsLinked,
         IsRefused, Inside, ObjectOf;
    var bad := HeaderError(file);
    if bad.Some? {
      return Err(bad.value);
    }
    var error, memory, base, dynamic := MapSegments(file, page, mapping);
    if error.Some? {
      return Err(error.value);
    }
    r := Link(memory, (mapping.value - base) % TWO_64, mapping.value, dynamic - base, host, n, count, strings);
  }

  /** Memory at an address is what the file has for the segment there. */
  lemma CopiedByte(file: Bytes, segs: seq<Segment>, page: nat, base: nat, span: nat, k: nat)
    requires SegmentsOk(file, segs, page) && SegmentsDisjoint(segs) && k < span
    ensures IsFileByte(file, segs, base + k, Copied(file, segs, page, base, span)[k])
  {
    hide Loaded, SegmentsDisjoint;
    assert forall i :: 0 <= i < |segs| ==> SegmentOk(file, segs[i], page);
    var v := base + k;
    LoadedByte(file, segs, |segs|, v);
    assert forall i :: 0 <= i < |segs| ==>
      (Holds(segs[i], v) <==> segs[i].kind == 1 && segs[i].vaddr <= v < segs[i].vaddr + segs[i].memsz);
  }

  lemma ImageIsCopied(file: Bytes, page: nat)
    requires FileOk(file, page)
    ensures MemoryImage(file, page)
            == Copied(file, Segments(file), page, Base(file, page), |MemoryImage(file, page)|)
  {
    hide Segments, Trunc, Round, Low, High, Loaded;
  }

  /** The relocations of a table. */
  ghost function TableEntries(o: Object, m: Bytes, table: Option<nat>, size: Option<nat>): seq<Rela>
    requires table.Some? ==>
      0 <= Index(o.base, o.start, table) && Index(o.base, o.start, table) + RELA_SIZE * Entries(size) <= |m|
  {
    if table.None? then [] else EntriesOf(m, Index(o.base, o.start, table), Entries(size))
  }

  /** Those of both tables, in the order they are applied. */
  ghost function AllEntries(o: Object, m: Bytes, d: Dynamic, strings: nat): seq<Rela> {
    if o.symcount > 0 && Relocatable(o, m, d, strings) then
      TableEntries(o, m, d.rela, d.relasz) + TableEntries(o, m, d.jmprel, d.pltrelsz)
    else []
  }

  /** A table's stores are its entries'; when all are resolved every entry has its word. */
  lemma TableStores(o: Object, host: Bytes -> Address, m: Bytes, table: Option<nat>, size: Option<nat>)
    requires SymbolsIn(o, |m|)
    requires table.Some? ==>
      0 <= Index(o.base, o.start, table) && Index(o.base, o.start, table) + RELA_SIZE * Entries(size) <= |m|
    ensures TableWrites(o, host, m, table, size) == StoresOf(o, host, m, TableEntries(o, m, table, size))
    ensures (forall e :: !Unresolved(o, host, m, table, size, e)) ==>
      forall i :: 0 <= i < |TableEntries(o, m, table, size)| ==>
        Value(o, host, m, TableEntries(o, m, table, size)[i]).Ok?
  {
    if table.Some? {
      var (at, n) := (Index(o.base, o.start, table), Entries(size));
      WritesAreStores(o, host, m, at, n);
      EntriesListed(m, at, n);
      hide Value, Entry, EntriesOf, WritesOf, StoresOf;
      if forall e :: !Unresolved(o, host, m, table, size, e) {
        forall i | 0 <= i < n
          ensures Value(o, host, m, Entry(m, at, i)).Ok?
        {
          var v := Value(o, host, m, Entry(m, at, i));
          assert v.Err? ==> Unresolved(o, host, m, table, size, v.error);
        }
      }
    }
  }

  lemma AllStores(o: Object, host: Bytes -> Address, m: Bytes, d: Dynamic, strings: nat)
    requires o.symcount > 0 && Relocatable(o, m, d, strings)
    ensures AllWrites(o, host, m, d, strings) == StoresOf(o, host, m, AllEntries(o, m, d, strings))
    ensures (forall e :: !AnyUnresolved(o, host, m, d, strings, e)) ==>
      forall i :: 0 <= i < |AllEntries(o, m, d, strings)| ==>
        Value(o, host, m, AllEntries(o, m, d, strings)[i]).Ok?
  {
    hide Value, StoresOf, TableWrites, TableEntries, Unresolved, NamesIn, SlotsOk;
    TablesFit(o, m, d, strings);
    TableStores(o, host, m, d.rela, d.relasz);
    TableStores(o, host, m, d.jmprel, d.pltrelsz);
    StoresConcat(o, host, m, TableEntries(o, m, d.rela, d.relasz), TableEntries(o, m, d.jmprel, d.pltrelsz));
    if forall e :: !AnyUnresolved(o, host, m, d, strings, e) {
      forall e
        ensures !Unresolved(o, host, m, d.rela, d.relasz, e) && !Unresolved(o, host, m, d.jmprel, d.pltrelsz, e)
      {
        assert !AnyUnresolved(o, host, m, d, strings, e);
      }
    }
  }

  lemma TablesFit(o: Object, m: Bytes, d: Dynamic, strings: nat)
    requires Relocatable(o, m, d, strings)
    ensures d.rela.Some? ==> Index(o.base, o.start, d.rela) + RELA_SIZE * Entries(d.relasz) <= |m|
    ensures d.jmprel.Some? ==> Index(o.base, o.start, d.jmprel) + RELA_SIZE * Entries(d.pltrelsz) <= |m|
  {
    hide TablesIn;
  }

  /** Octet `k` is that of the relocation with a slot there, or has none and is `before`. */
  ghost predicate OctetExplained(o: Object, host: Bytes -> Address, m: Bytes, rs: seq<Rela>, k: nat, octet: Byte)
    requires k < |m|
  {
    && (forall i :: 0 <= i < |rs| && Stores(rs[i]) && InSlot(o, rs[i], k) ==>
          IsOctetOf(o, host, m, rs[i], k, octet))
    && ((forall i :: 0 <= i < |rs| && Stores(rs[i]) ==> !InSlot(o, rs[i], k)) ==> octet == m[k])
  }

  /** After linking with disjoint slots every relocation's word is in place, and no other octet changed. */
  lemma LinkedOctets(o: Object, host: Bytes -> Address, m: Bytes, d: Dynamic, strings: nat, k: nat)
    requires o.symcount > 0 && Relocatable(o, m, d, strings) && k < |m|
    requires Fits(AllWrites(o, host, m, d, strings), |m|) && SlotsApart(o, AllEntries(o, m, d, strings))
    requires forall e :: !AnyUnresolved(o, host, m, d, strings, e)
    ensures
      var (rs, after) := (AllEntries(o, m, d, strings), Patched(m, AllWrites(o, host, m, d, strings)));
      && (forall i :: 0 <= i < |rs| ==> Relocated(o, host, m, rs[i], after))
      && OctetExplained(o, host, m, rs, k, after[k])
  {
    hide Value, StoresOf, Patched, Fits, SlotsApart, AllEntries, AllWrites, NamesIn, SlotsOk, RelaOk, Relocated,
         AnyUnresolved, IsOctetOf, InSlot, Stores;
    AllStores(o, host, m, d, strings);
    var rs := AllEntries(o, m, d, strings);
    forall i | 0 <= i < |rs|
      ensures Relocated(o, host, m, rs[i], Patched(m, StoresOf(o, host, m, rs)))
    {
      AllRelocated(o, host, m, rs, i);
    }
    forall i | 0 <= i < |rs| && Stores(rs[i]) && InSlot(o, rs[i], k)
      ensures IsOctetOf(o, host, m, rs[i], k, Patched(m, StoresOf(o, host, m, rs))[k])
    {
      OctetStored(o, host, m, rs, i, k);
    }
    if forall i :: 0 <= i < |rs| && Stores(rs[i]) ==> !InSlot(o, rs[i], k) {
      OthersKept(o, host, m, rs, k);
    }
  }

  lemma LinkedBytes(m: Bytes, base: nat, start: nat, at: nat, host: Bytes -> Address, n: nat, count: nat, strings: nat,
                    o: Object, stats: Stats, after: Bytes, k: nat)
    requires Ends(m, at, n) && Linkable(m, DynamicOf(m, at, n), base, start, count, strings) && k < |m|
    requires IsLinked(m, base, start, at, host, n, count, strings, o, stats, after)
    requires SlotsApart(o, AllEntries(o, m, DynamicOf(m, at, n), strings))
    ensures |after| == |m|
    ensures
      var rs := AllEntries(o, m, DynamicOf(m, at, n), strings);
      (forall i :: 0 <= i < |rs| ==> Relocated(o, host, m, rs[i], after)) && OctetExplained(o, host, m, rs, k, after[k])
  {
    hide Patched, Fits, Linkable, Relocatable, SlotsApart, AnyUnresolved, AllTally, Relocated, DynamicOf, AllWrites,
         Inside, TableEntries;
    var d := DynamicOf(m, at, n);
    if count > 0 {
      LinkedOctets(o, host, m, d, strings, k);
    } else {
      NoRelocations(o, host, m, d, strings);
    }
  }

  /** The relocations of a file that is loaded as `o`. */
  ghost function EntriesIn(file: Bytes, page: nat, n: nat, o: Object, strings: nat): seq<Rela>
    requires FileOk(file, page)
  {
    var (m, address) := (MemoryImage(file, page), DynamicAddress(file, page));
    if address.Some? && Base(file, page) <= address.value
       && address.value - Base(file, page) + DYN_SIZE * n <= |m|
    then AllEntries(o, m, DynamicOf(m, address.value - Base(file, page), n), strings)
    else []
  }

  /** Every byte of a loaded object with disjoint segments and slots: an octet of the word of the relocation there,
      and otherwise the byte that the file has for the segment there, or zero. */
  lemma EveryByte(file: Bytes, page: nat, start: nat, host: Bytes -> Address, n: nat, count: nat, strings: nat,
                  o: Object, stats: Stats, after: Bytes, k: nat)
    requires FileOk(file, page) && ObjectOk(file, page, start, n, count, strings)
    requires SegmentsDisjoint(Segments(file)) && k < |MemoryImage(file, page)|
    requires IsLoaded(file, page, start, host, n, count, strings, o, stats, after)
    requires SlotsApart(o, EntriesIn(file, page, n, o, strings))
    ensures |after| == |MemoryImage(file, page)|
    ensures
      var (m, rs) := (MemoryImage(file, page), EntriesIn(file, page, n, o, strings));
      && (forall i :: 0 <= i < |rs| ==> Relocated(o, host, m, rs[i], after))
      && (forall i :: 0 <= i < |rs| && Stores(rs[i]) && InSlot(o, rs[i], k) ==>
            IsOctetOf(o, host, m, rs[i], k, after[k]))
      && ((forall i :: 0 <= i < |rs| && Stores(rs[i]) ==> !InSlot(o, rs[i], k)) ==>
            IsFileByte(file, Segments(file), Base(file, page) + k, after[k]))
  {
    hide MemoryImage, Base, IsFileByte, FileOk, SegmentsDisjoint, Linkable, Relocatable, AllEntries, SlotsApart,
         IsLinked, Relocated, IsOctetOf, InSlot, Stores, DynamicOf, Segments, DynamicAddress, Copied;
    FileByte(file, page, k);
    var (base, at) := (Base(file, page), DynamicAddress(file, page).value);
    LinkedBytes(MemoryImage(file, page), (start - base) % TWO_64, start, at - base, host, n, count, strings, o, stats,
                after, k);
  }

  lemma FileByte(file: Bytes, page: nat, k: nat)
    requires FileOk(file, page) && SegmentsDisjoint(Segments(file)) && k < |MemoryImage(file, page)|
    ensures IsFileByte(file, Segments(file), Base(file, page) + k, MemoryImage(file, page)[k])
  {
    hide Segments, MemoryImage, Base, Copied, IsFileByte, SegmentsDisjoint, SegmentsOk;
    ImageIsCopied(file, page);
    CopiedByte(file, Segments(file), page, Base(file, page), |MemoryImage(file, page)|, k);
  }

  /** The byte at `v` that the file has for the segment there, or zero without one. */
  ghost predicate IsFileByte(file: Bytes, segs: seq<Segment>, v: nat, b: Byte) {
    && (forall i :: 0 <= i < |segs| && segs[i].kind == 1 && segs[i].vaddr <= v < segs[i].vaddr + segs[i].memsz ==>
          var (s, k) := (segs[i], v - segs[i].vaddr);
          s.offset + s.filesz <= |file| && b == if k < s.filesz then file[s.offset + k] else 0)
    && ((forall i :: 0 <= i < |segs| ==>
           !(segs[i].kind == 1 && segs[i].vaddr <= v < segs[i].vaddr + segs[i].memsz)) ==> b == 0)
  }

  // ---- by the numbers of the dynamic tags ---------------------------------------------

  /** Entry `k` of the dynamic table: its tag, then its value, in 16 octets. */
  ghost predicate EntryIs(m: Bytes, at: nat, k: nat, tag: nat, v: nat) {
    at + 16 * k + 16 <= |m| && Word(m, at + 16 * k) == tag && Word(m, at + 16 * k + 8) == v
  }

  ghost predicate IsLast(m: Bytes, at: nat, n: nat, tag: nat, v: nat, k: nat) {
    EntryIs(m, at, k, tag, v) && forall j: nat, u: nat :: k < j < n ==> !EntryIs(m, at, j, tag, u)
  }

  /** The last of the first `n` entries with a tag has that value. */
  ghost predicate LastValue(m: Bytes, at: nat, n: nat, tag: nat, v: nat) {
    exists k: nat :: k < n && IsLast(m, at, n, tag, v, k)
  }

  lemma {:induction false} LastOfIsLast(m: Bytes, at: nat, n: nat, tag: nat, v: nat)
    requires at + DYN_SIZE * n <= |m| && LastValue(m, at, n, tag, v)
    ensures LastOf(m, at, n, tag) == Some(v)
  {
    hide Word;
    if n > 0 {
      var k: nat :| k < n && IsLast(m, at, n, tag, v, k);
      if k < n - 1 {
        assert !EntryIs(m, at, n - 1, tag, Val(m, at, n - 1));
        assert IsLast(m, at, n - 1, tag, v, k);
        assert LastValue(m, at, n - 1, tag, v);
        LastOfIsLast(m, at, n - 1, tag, v);
      }
    }
  }

  /** The entries of the table with tag `tag`, whose size is `size` octets, are filled in. */
  lemma LinkedTable(m: Bytes, base: nat, start: nat, at: nat, host: Bytes -> Address, n: nat, count: nat, strings: nat,
                    o: Object, stats: Stats, after: Bytes, tag: nat, table: nat, size: nat, k: nat)
    requires Ends(m, at, n) && Linkable(m, DynamicOf(m, at, n), base, start, count, strings)
    requires IsLinked(m, base, start, at, host, n, count, strings, o, stats, after)
    requires SlotsApart(o, AllEntries(o, m, DynamicOf(m, at, n), strings))
    requires (tag == 7 && LastValue(m, at, n, 8, size)) || (tag == 23 && LastValue(m, at, n, 2, size))
    requires LastValue(m, at, n, tag, table) && k < size / 24
    ensures FilledAt(o, host, m, (base + table) % TWO_64 - start + 24 * k, after)
  {
    hide Patched, Fits, Linkable, SlotsApart, AnyUnresolved, AllTally, Relocated, AllWrites, Word, Half,
         LastValue, LastOf, SlotsOk, TablesIn, OctetExplained, EntriesOf, Tag;
    LastOfIsLast(m, at, n, tag, table);
    LastOfIsLast(m, at, n, if tag == 7 then 8 else 2, size);
    LinkedBytes(m, base, start, at, host, n, count, strings, o, stats, after, 0);
    var d := DynamicOf(m, at, n);
    TablesFit(o, m, d, strings);
    EntryOfTable(o, m, d, strings, k);
  }

  /** Where the entries are among all. */
  lemma EntryOfTable(o: Object, m: Bytes, d: Dynamic, strings: nat, k: nat)
    requires o.symcount > 0 && Relocatable(o, m, d, strings)
    ensures
      var rs := AllEntries(o, m, d, strings);
      && (d.rela.Some? && k < Entries(d.relasz) ==>
            k < |rs| && rs[k] == Entry(m, Index(o.base, o.start, d.rela), k))
      && (d.jmprel.Some? && k < Entries(d.pltrelsz) ==>
            exists i :: 0 <= i < |rs| && rs[i] == Entry(m, Index(o.base, o.start, d.jmprel), k))
  {
    hide NamesIn, SlotsOk, TablesIn, Entry, EntriesOf;
    TablesFit(o, m, d, strings);
    var (first, second) := (TableEntries(o, m, d.rela, d.relasz), TableEntries(o, m, d.jmprel, d.pltrelsz));
    if d.rela.Some? {
      EntriesListed(m, Index(o.base, o.start, d.rela), Entries(d.relasz));
    }
    if d.jmprel.Some? {
      EntriesListed(m, Index(o.base, o.start, d.jmprel), Entries(d.pltrelsz));
      var rs := AllEntries(o, m, d, strings);
      assert k < Entries(d.pltrelsz) ==> rs[|first| + k] == second[k];
    }
  }

  /** A loaded object with disjoint slots: the entries of the tables that the dynamic tags 7 and 23 name, their sizes
      under tags 8 and 2, are filled in; the tags 6, 5 and 10 name its symbols, their names and the size of those. */
  lemma EveryRelocation(file: Bytes, page: nat, start: nat, host: Bytes -> Address, n: nat, count: nat, strings: nat,
                        o: Object, stats: Stats, after: Bytes, at: nat, tag: nat, table: nat, size: nat, k: nat)
    requires FileOk(file, page) && ObjectOk(file, page, start, n, count, strings)
    requires IsLoaded(file, page, start, host, n, count, strings, o, stats, after)
    requires SlotsApart(o, EntriesIn(file, page, n, o, strings))
    requires DynamicAddress(file, page) == Some(Base(file, page) + at)
    requires var m := MemoryImage(file, page);
      && LastValue(m, at, n, tag, table) && k < size / 24
      && ((tag == 7 && LastValue(m, at, n, 8, size)) || (tag == 23 && LastValue(m, at, n, 2, size)))
    ensures FilledAt(o, host, MemoryImage(file, page), (o.base + table) % TWO_64 - start + 24 * k, after)
    ensures o.base == (start - Base(file, page)) % TWO_64 && o.start == start
    ensures TablesNamed(MemoryImage(file, page), at, n, o)
  {
    hide MemoryImage, Base, FileOk, Linkable, Relocatable, AllEntries, SlotsApart, AllWrites, AllTally, AnyUnresolved,
         DynamicOf, Segments, DynamicAddress, Copied, FilledAt, LastValue, Inside, TablesNamed, Patched, Fits, Tag;
    var (m, base) := (MemoryImage(file, page), (start - Base(file, page)) % TWO_64);
    LinkedTable(m, base, start, at, host, n, count, strings, o, stats, after, tag, table, size, k);
    NamedByTags(m, base, start, at, n, count, o);
  }

  /** The symbol table is under tag 6, the names under tag 5 and their size under tag 10. */
  ghost predicate TablesNamed(m: Bytes, at: nat, n: nat, o: Object) {
    && (forall v: nat :: LastValue(m, at, n, 6, v) ==> o.symtab == (o.base + v) % TWO_64)
    && (forall v: nat :: LastValue(m, at, n, 5, v) ==> o.strtab == (o.base + v) % TWO_64)
    && (forall v: nat :: LastValue(m, at, n, 10, v) ==> o.strsz == v)
  }

  lemma NamedByTags(m: Bytes, base: nat, start: nat, at: nat, n: nat, count: nat, o: Object)
    requires Ends(m, at, n) && o == ObjectOf(DynamicOf(m, at, n), base, start, count)
    ensures TablesNamed(m, at, n, o)
  {
    hide Word, LastValue, LastOf, Tag;
    forall tag: nat, v: nat | LastValue(m, at, n, tag, v)
      ensures LastOf(m, at, n, tag) == Some(v)
    {
      LastOfIsLast(m, at, n, tag, v);
    }
  }

  /** A defined symbol of that name: the first in the table. */
  method FindSymbol(memory: array<Byte>, o: Object, name: Bytes) returns (address: Option<nat>)
    requires o.symtab != 0 && o.strtab != 0 ==> SymbolsIn(o, memory.Length)
    ensures o.symtab == 0 || o.strtab == 0 ==> address == None
    ensures o.symtab != 0 && o.strtab != 0 ==>
      match address
      case None => forall k :: 0 <= k < o.symcount ==> !Exports(o, memory[..], k, name)
      case Some(a) =>
        exists k ::
          && 0 <= k < o.symcount && Exports(o, memory[..], k, name)
          && a == (o.base + Word(memory[..], o.symtab - o.start + 24 * k + 8)) % TWO_64
          && forall j :: 0 <= j < k ==> !Exports(o, memory[..], j, name)
  {
    hide Word, Half, IsString;
    if o.symtab == 0 || o.strtab == 0 {
      return None;
    }
    var k := 0;
    while k < o.symcount
      invariant k <= o.symcount && forall j :: 0 <= j < k ==> !Exports(o, memory[..], j, name)
    {
      var s := SymbolEntry(memory[..], o.symtab - o.start, k);
      NameIs(memory[..], o.strtab - o.start + s.name, name);
      if s.defined && Name(memory[..], o.strtab - o.start + s.name) == name {
        assert Exports(o, memory[..], k, name);
        return Some((o.base + s.value) % TWO_64);
      }
      k := k + 1;
    }
    return None;
  }

  lemma NameIs(m: Bytes, at: nat, name: Bytes)
    ensures Name(m, at) == name <==> IsString(m, at, name)
  {
    NameIsString(m, at);
    if IsString(m, at, name) {
      StringIsName(m, at, name);
    }
  }

  /** Symbol `k` is defined, its section number at octet 6 not 0, and of that name. */
  ghost predicate Exports(o: Object, m: Bytes, k: nat, name: Bytes)
    requires SymbolsIn(o, |m|) && k < o.symcount
  {
    var at := o.symtab - o.start + 24 * k;
    (m[at + 6] != 0 || m[at + 7] != 0) && IsString(m, o.strtab - o.start + Half(m, at), name)
  }
}
