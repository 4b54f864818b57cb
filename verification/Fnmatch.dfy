/**
 fnmatch(3), the backtracking matcher (section 2.13 of POSIX.1-2017 Shell & Utilities),
 for the flags NOESCAPE and PATHNAME.
 */
module Fnmatch {
  import opened CStrings
  import opened Wrappers

  datatype Flags = Flags(noEscape: bool, pathname: bool)

  // ---- what a pattern means -------------------------------------------------

  datatype Range = Range(lo: char, hi: char)

  datatype Element =
    | Literal(c: char)
    | AnyChar
    | AnyString
    | Bracket(negated: bool, ranges: seq<Range>)

  predicate InRanges(ranges: seq<Range>, c: char) {
    exists r :: r in ranges && r.lo <= c <= r.hi
  }

  predicate Fits(e: Element, piece: CString, flags: Flags) {
    match e
    case Literal(c) => |piece| == 1 && piece[0] == c
    case AnyString => flags.pathname ==> '/' !in piece
    case AnyChar => |piece| == 1 && (flags.pathname ==> piece[0] != '/')
    case Bracket(negated, ranges) =>
      |piece| == 1 && (flags.pathname ==> piece[0] != '/') && InRanges(ranges, piece[0]) != negated
  }

  function Concat(pieces: seq<CString>): CString {
    if pieces == [] then [] else pieces[0] + Concat(pieces[1..])
  }

  ghost predicate Splits(es: seq<Element>, s: CString, flags: Flags, pieces: seq<CString>) {
    && |pieces| == |es| && Concat(pieces) == s
    && forall k :: 0 <= k < |es| ==> Fits(es[k], pieces[k], flags)
  }

  /** The string is a sequence of pieces, one for each element. */
  ghost predicate Matches(es: seq<Element>, s: CString, flags: Flags) {
    exists pieces :: Splits(es, s, flags, pieces)
  }

  /** A possibly escaped character at `i`, and where it is. */
  function Escaped(p: CString, i: nat, flags: Flags): (r: (CChar, nat))
    requires i < |p|
    ensures i <= r.1 < |p|
  {
    if p[i] == '\\' && !flags.noEscape && i + 1 < |p| then (p[i + 1], i + 1) else (p[i], i)
  }

  /** The ranges of a bracket expression from `i`, and the index past its `]`; nothing when the
      expression is malformed. A `]` that comes first stands for itself. */
  function Ranges(p: CString, i: nat, first: bool, flags: Flags): (r: Option<(seq<Range>, nat)>)
    ensures r.Some? ==> i < r.value.1 <= |p|
    decreases |p| - i
  {
    if i >= |p| then None
    else if !first && p[i] == ']' then Some(([], i + 1))
    else
      var (lo, at) := Escaped(p, i, flags);
      if lo == '/' && flags.pathname then None
      else
        var dash := At(p, at + 1) == '-' && At(p, at + 2) != '\0' && At(p, at + 2) != ']';
        var (hi, end) := if dash then Escaped(p, at + 2, flags) else (lo, at);
        match Ranges(p, end + 1, false, flags)
        case Some((ranges, next)) => Some(([Range(lo, hi)] + ranges, next))
        case None => None
  }

  /** The bracket expression whose `[` precedes `i`. */
  function BracketAt(p: CString, i: nat, flags: Flags): (r: Option<(Element, nat)>)
    ensures r.Some? ==> i < r.value.1 <= |p| && r.value.0.Bracket?
  {
    var negated := At(p, i) == '!' || At(p, i) == '^';
    match Ranges(p, if negated then i + 1 else i, true, flags)
    case Some((ranges, next)) => Some((Bracket(negated, ranges), next))
    case None => None
  }

  /** One element of the pattern, and where the next one starts. */
  function ElementAt(p: CString, i: nat, flags: Flags): (r: (Element, nat))
    requires i < |p|
    ensures i < r.1 <= |p|
  {
    if p[i] == '?' then (AnyChar, i + 1)
    else if p[i] == '*' then (AnyString, i + 1)
    else if p[i] == '[' then
      match BracketAt(p, i + 1, flags)
      case Some((e, next)) => (e, next)
      case None => (Literal('['), i + 1)
    else if p[i] == '\\' && !flags.noEscape && i + 1 < |p| then (Literal(p[i + 1]), i + 2)
    else (Literal(p[i]), i + 1)
  }

  function Elements(p: CString, i: nat, flags: Flags): seq<Element>
    requires i <= |p|
    decreases |p| - i
  {
    if i == |p| then [] else
      var (e, next) := ElementAt(p, i, flags);
      [e] + Elements(p, next, flags)
  }

  // ---- how elements are spelled -----------------------------------------------

  /** A character that stands for itself. */
  function Spelled(c: CChar, flags: Flags): CString {
    if flags.noEscape then [c] else ['\\', c]
  }

  predicate RangeOk(r: Range, flags: Flags) {
    && r.lo != '\0' && r.hi != '\0' && (flags.pathname ==> r.lo != '/')
    && (flags.noEscape ==> r.lo != ']' && r.hi != ']')
  }

  /** Elements that can be spelled; without escapes some characters cannot. */
  predicate ElementOk(e: Element, flags: Flags) {
    match e
    case Literal(c) => c != '\0' && (flags.noEscape ==> c !in {'?', '*', '['})
    case Bracket(negated, ranges) =>
      && ranges != [] && (forall r :: r in ranges ==> RangeOk(r, flags))
      && (flags.noEscape && !negated ==> ranges[0].lo != '!' && ranges[0].lo != '^')
    case _ => true
  }

  function SpellRange(r: Range, flags: Flags): CString
    requires RangeOk(r, flags)
  {
    Spelled(r.lo, flags) + ['-'] + Spelled(r.hi, flags)
  }

  function SpellRanges(ranges: seq<Range>, flags: Flags): CString
    requires forall r :: r in ranges ==> RangeOk(r, flags)
  {
    if ranges == [] then [] else SpellRange(ranges[0], flags) + SpellRanges(ranges[1..], flags)
  }

  /** `sign` negates a bracket expression. */
  function SpellElement(e: Element, sign: CChar, flags: Flags): CString
    requires ElementOk(e, flags)
  {
    match e
    case Literal(c) => Spelled(c, flags)
    case AnyChar => ['?']
    case AnyString => ['*']
    case Bracket(negated, ranges) => ['['] + (if negated then [sign] else []) + SpellRanges(ranges, flags) + [']']
  }

  function Spell(es: seq<Element>, sign: CChar, flags: Flags): CString
    requires forall e :: e in es ==> ElementOk(e, flags)
  {
    if es == [] then [] else SpellElement(es[0], sign, flags) + Spell(es[1..], sign, flags)
  }

  lemma {:induction false} RangesSpelled(p: CString, i: nat, first: bool, ranges: seq<Range>, tail: CString,
                                         flags: Flags)
    requires (forall r :: r in ranges ==> RangeOk(r, flags)) && (first ==> ranges != [])
    requires i <= |p| && p[i..] == SpellRanges(ranges, flags) + [']'] + tail
    ensures Ranges(p, i, first, flags) == Some((ranges, |p| - |tail|))
    decreases |ranges|
  {
    if ranges == [] {
      assert p[i] == p[i..][0] == ']';
    } else {
      var (r, rest) := (ranges[0], ranges[1..]);
      var after := SpellRanges(rest, flags) + [']'] + tail;
      assert RangeOk(r, flags) && ranges == [r] + rest;
      assert p[i..] == SpellRange(r, flags) + after;
      hide Ranges, SpellRange;
      RangeSpelled(p, i, first, r, after, flags);
      RangesSpelled(p, i + |SpellRange(r, flags)|, false, rest, tail, flags);
    }
  }

  lemma RangeSpelled(p: CString, i: nat, first: bool, r: Range, after: CString, flags: Flags)
    requires RangeOk(r, flags) && i <= |p| && p[i..] == SpellRange(r, flags) + after && after != []
    ensures i + |SpellRange(r, flags)| < |p| && p[i + |SpellRange(r, flags)|..] == after
    ensures Ranges(p, i, first, flags) == With([r], Ranges(p, i + |SpellRange(r, flags)|, false, flags))
  {
    hide Ranges;
    var d, n := p[i..], |SpellRange(r, flags)|;
    assert p[i + n..] == d[n..] == after;
    RangesStep(p, i, first, flags);
    if flags.noEscape {
      assert d[0] == p[i] && d[1] == p[i + 1] && d[2] == p[i + 2];
    } else {
      assert d[0] == p[i] && d[1] == p[i + 1] && d[2] == p[i + 2] && d[3] == p[i + 3] && d[4] == p[i + 4];
    }
  }

  lemma FirstSpelled(ranges: seq<Range>, flags: Flags)
    requires ranges != [] && forall r :: r in ranges ==> RangeOk(r, flags)
    ensures SpellRanges(ranges, flags) != []
    ensures SpellRanges(ranges, flags)[0] == if flags.noEscape then ranges[0].lo else '\\'
  {
    assert RangeOk(ranges[0], flags);
  }

  lemma BracketSpelled(p: CString, i: nat, e: Element, sign: CChar, tail: CString, flags: Flags)
    requires e.Bracket? && ElementOk(e, flags) && sign in {'!', '^'}
    requires i <= |p| && p[i..] == SpellElement(e, sign, flags) + tail
    ensures i < |p| && BracketAt(p, i + 1, flags) == Some((e, |p| - |tail|))
  {
    hide Ranges, SpellRanges, RangeOk;
    FirstSpelled(e.ranges, flags);
    var start := if e.negated then i + 2 else i + 1;
    var ranges := SpellRanges(e.ranges, flags);
    assert p[i..] == ['['] + (if e.negated then [sign] else []) + ranges + [']'] + tail;
    assert p[start..] == p[i..][start - i..] == ranges + [']'] + tail;
    assert At(p, i + 1) == p[i..][1];
    RangesSpelled(p, start, true, e.ranges, tail, flags);
  }

  lemma ElementSpelled(p: CString, i: nat, e: Element, sign: CChar, tail: CString, flags: Flags)
    requires ElementOk(e, flags) && sign in {'!', '^'}
    requires i <= |p| && p[i..] == SpellElement(e, sign, flags) + tail
    ensures i < |p| && ElementAt(p, i, flags) == (e, |p| - |tail|)
  {
    hide BracketAt, SpellRanges;
    assert forall k :: 0 <= k < |p| - i ==> p[i + k] == p[i..][k];
    assert i < |p| && p[i] == p[i..][0];
    if e.Bracket? {
      BracketSpelled(p, i, e, sign, tail, flags);
    }
  }

  /** A pattern means the elements it was spelled from: `!` and `^` negate, ranges run from the first to the second
      of two characters, and escaped characters stand for themselves. */
  lemma {:induction false} ElementsOfSpelled(p: CString, i: nat, es: seq<Element>, sign: CChar, flags: Flags)
    requires (forall e :: e in es ==> ElementOk(e, flags)) && sign in {'!', '^'}
    requires i <= |p| && p[i..] == Spell(es, sign, flags)
    ensures Elements(p, i, flags) == es
    decreases |es|
  {
    hide ElementAt, SpellElement, ElementOk;
    if es == [] {
      assert i == |p|;
    } else {
      var tail := Spell(es[1..], sign, flags);
      assert es == [es[0]] + es[1..];
      ElementSpelled(p, i, es[0], sign, tail, flags);
      ElementsStep(p, i, flags);
      assert p[|p| - |tail|..] == p[i..][|p| - i - |tail|..] == tail;
      ElementsOfSpelled(p, |p| - |tail|, es[1..], sign, flags);
    }
  }

  // ---- the first element ------------------------------------------------------

  lemma ConcatCons(piece: CString, rest: seq<CString>)
    ensures Concat([piece] + rest) == piece + Concat(rest)
  {
  }

  /** The first piece is a prefix; the others match the rest. */
  lemma MatchesCons(e: Element, es: seq<Element>, s: CString, flags: Flags)
    ensures Matches([e] + es, s, flags)
       <==> exists k: nat :: k <= |s| && Fits(e, s[..k], flags) && Matches(es, s[k..], flags)
  {
    hide Fits;
    if Matches([e] + es, s, flags) {
      var pieces :| Splits([e] + es, s, flags, pieces);
      var k := |pieces[0]|;
      assert pieces == [pieces[0]] + pieces[1..];
      assert s == pieces[0] + Concat(pieces[1..]);
      assert s[..k] == pieces[0] && s[k..] == Concat(pieces[1..]);
      forall i | 0 <= i < |es|
        ensures Fits(es[i], pieces[1..][i], flags)
      {
        assert ([e] + es)[i + 1] == es[i] && pieces[i + 1] == pieces[1..][i];
      }
      assert Splits(es, s[k..], flags, pieces[1..]);
      assert Fits(([e] + es)[0], pieces[0], flags);
    }
    if k: nat :| k <= |s| && Fits(e, s[..k], flags) && Matches(es, s[k..], flags) {
      var rest :| Splits(es, s[k..], flags, rest);
      ConcatCons(s[..k], rest);
      assert s == s[..k] + s[k..];
      assert Splits([e] + es, s, flags, [s[..k]] + rest);
    }
  }

  /** What one element of a pattern is good for. */
  lemma ElementMatches(e: Element, s: CString, flags: Flags)
    ensures Matches([e], s, flags) <==>
      match e
      case Literal(c) => s == [c]
      case AnyString => flags.pathname ==> forall i :: 0 <= i < |s| ==> s[i] != '/'
      case AnyChar => |s| == 1 && (flags.pathname ==> s[0] != '/')
      case Bracket(negated, ranges) =>
        && |s| == 1 && (flags.pathname ==> s[0] != '/')
        && (negated <==> forall i :: 0 <= i < |ranges| ==> !(ranges[i].lo <= s[0] <= ranges[i].hi))
  {
    hide Matches;
    MatchesCons(e, [], s, flags);
    forall k: nat | k <= |s|
      ensures Matches([], s[k..], flags) <==> k == |s|
    {
      MatchesNone(s[k..], flags);
    }
    assert s[..|s|] == s && [e] + [] == [e];
    assert flags.pathname && '/' in s ==> exists i :: 0 <= i < |s| && s[i] == '/';
    if e.Bracket? && |s| == 1 {
      assert InRanges(e.ranges, s[0]) <==> exists i :: 0 <= i < |e.ranges| && e.ranges[i].lo <= s[0] <= e.ranges[i].hi;
    }
  }

  /** An element that takes exactly one character. */
  lemma MatchesOne(e: Element, es: seq<Element>, s: CString, flags: Flags)
    requires !e.AnyString?
    ensures Matches([e] + es, s, flags)
       <==> s != [] && Fits(e, [s[0]], flags) && Matches(es, s[1..], flags)
  {
    hide Matches;
    MatchesCons(e, es, s, flags);
    assert forall k: nat :: k <= |s| && Fits(e, s[..k], flags) ==> k == 1;
    if s != [] { assert s[..1] == [s[0]]; }
  }

  lemma MatchesNone(s: CString, flags: Flags)
    ensures Matches([], s, flags) <==> s == []
  {
    if s == [] { assert Splits([], s, flags, []); }
  }

  /** `*` against a string: a prefix of it, then the rest. */
  ghost predicate StarMatches(es: seq<Element>, s: CString, flags: Flags) {
    exists k: nat :: k <= |s| && Fits(AnyString, s[..k], flags) && Matches(es, s[k..], flags)
  }

  lemma MatchesStar(es: seq<Element>, s: CString, flags: Flags)
    ensures Matches([AnyString] + es, s, flags) <==> StarMatches(es, s, flags)
  {
    MatchesCons(AnyString, es, s, flags);
  }

  /** Two stars in a row are one. */
  lemma MatchesStarTwice(es: seq<Element>, s: CString, flags: Flags)
    ensures Matches([AnyString] + ([AnyString] + es), s, flags) <==> Matches([AnyString] + es, s, flags)
  {
    hide Matches;
    MatchesStar([AnyString] + es, s, flags);
    MatchesStar(es, s, flags);
    if StarMatches([AnyString] + es, s, flags) {
      var k: nat :| k <= |s| && Fits(AnyString, s[..k], flags) && Matches([AnyString] + es, s[k..], flags);
      MatchesStar(es, s[k..], flags);
      var t := s[k..];
      var j: nat :| j <= |t| && Fits(AnyString, t[..j], flags) && Matches(es, t[j..], flags);
      assert s[..k + j] == s[..k] + t[..j] && s[k + j..] == t[j..];
    }
    if StarMatches(es, s, flags) {
      assert s[..0] == [] && s[0..] == s;
    }
  }

  /** A last `*` takes everything it may. */
  lemma MatchesLastStar(s: CString, flags: Flags)
    ensures Matches([AnyString], s, flags) <==> Fits(AnyString, s, flags)
  {
    hide Matches;
    MatchesStar([], s, flags);
    assert [AnyString] + [] == [AnyString];
    forall k: nat | k <= |s|
      ensures Matches([], s[k..], flags) <==> k == |s|
    {
      MatchesNone(s[k..], flags);
    }
    assert s[..|s|] == s;
  }

  // ---- the matcher ----------------------------------------------------------

  function With(done: seq<Range>, r: Option<(seq<Range>, nat)>): Option<(seq<Range>, nat)> {
    match r
    case Some((ranges, next)) => Some((done + ranges, next))
    case None => None
  }

  lemma WithMore(done: seq<Range>, range: Range, r: Option<(seq<Range>, nat)>)
    ensures With(done, With([range], r)) == With(done + [range], r)
    ensures With([], r) == r
  {
    if r.Some? {
      assert done + ([range] + r.value.0) == done + [range] + r.value.0;
      assert [] + r.value.0 == r.value.0;
    }
  }

  lemma RangesStep(p: CString, i: nat, first: bool, flags: Flags)
    ensures i >= |p| ==> Ranges(p, i, first, flags) == None
    ensures i < |p| && !first && p[i] == ']' ==> Ranges(p, i, first, flags) == Some(([], i + 1))
    ensures i < |p| && (first || p[i] != ']') ==>
      var (lo, at) := Escaped(p, i, flags);
      var dash := At(p, at + 1) == '-' && At(p, at + 2) != '\0' && At(p, at + 2) != ']';
      var (hi, end) := if dash then Escaped(p, at + 2, flags) else (lo, at);
      Ranges(p, i, first, flags) == if lo == '/' && flags.pathname then None
                                    else With([Range(lo, hi)], Ranges(p, end + 1, false, flags))
  {
  }

  lemma InRangesMore(done: seq<Range>, range: Range, c: char)
    ensures InRanges(done + [range], c) <==> InRanges(done, c) || range.lo <= c <= range.hi
  {
    assert range in done + [range];
    assert forall r :: r in done + [range] <==> r in done || r == range;
  }

  /** Compares `c` with the bracket expression whose `[` precedes `i`: 1 or 0, and -1 when it is
      malformed. */
  method MatchBracket(p: CString, i: nat, c: CChar, flags: Flags) returns (r: int, next: nat)
    ensures match BracketAt(p, i, flags)
            case None => r == -1
            case Some((e, end)) => e.Bracket? && next == end
                                   && r == if InRanges(e.ranges, c) != e.negated then 1 else 0
  {
    hide Ranges, InRanges, With;
    next := i;
    var q := i;
    var negate, matched := false, false;
    if At(p, q) == '!' || At(p, q) == '^' {
      negate := true;
      q := q + 1;
    }
    ghost var start, done: seq<Range> := q, [];
    var first := true;
    WithMore([], Range('a', 'a'), Ranges(p, start, true, flags));
    NoRanges(c);
    while q < |p| && (first || p[q] != ']')
      invariant matched == InRanges(done, c)
      invariant Ranges(p, start, true, flags) == With(done, Ranges(p, q, first, flags))
      decreases |p| - q
    {
      RangesStep(p, q, first, flags);
      first := false;
      var lo := p[q];
      if lo == '\\' && !flags.noEscape && At(p, q + 1) != '\0' {
        q := q + 1;
        lo := p[q];
      }
      if lo == '/' && flags.pathname {
        WithNone(done, 0);
        return -1, i;
      }
      q := q + 1;
      var hi := lo;
      if At(p, q) == '-' && At(p, q + 1) != '\0' && At(p, q + 1) != ']' {
        q := q + 1;
        hi := p[q];
        if hi == '\\' && !flags.noEscape && At(p, q + 1) != '\0' {
          q := q + 1;
          hi := p[q];
        }
        q := q + 1;
      }
      if lo <= c <= hi {
        matched := true;
      }
      WithMore(done, Range(lo, hi), Ranges(p, q, false, flags));
      InRangesMore(done, Range(lo, hi), c);
      done := done + [Range(lo, hi)];
    }
    RangesStep(p, q, first, flags);
    WithNone(done, q + 1);
    if At(p, q) != ']' {
      return -1, i;
    }
    return if matched != negate then 1 else 0, q + 1;
  }

  lemma NoRanges(c: char)
    ensures !InRanges([], c)
  {
  }

  lemma WithNone(done: seq<Range>, next: nat)
    ensures With(done, None) == None && With(done, Some(([], next))) == Some((done, next))
  {
    assert done + [] == done;
  }

  lemma ElementsStep(p: CString, i: nat, flags: Flags)
    requires i < |p|
    ensures var (e, next) := ElementAt(p, i, flags);
      Elements(p, i, flags) == [e] + Elements(p, next, flags)
  {
  }

  lemma ElementsEnd(p: CString, flags: Flags)
    ensures Elements(p, |p|, flags) == []
  {
  }

  /** The rest of the pattern against the rest of the string. */
  ghost predicate RestMatches(p: CString, i: nat, s: CString, j: nat, flags: Flags)
    requires i <= |p| && j <= |s|
  {
    Matches(Elements(p, i, flags), s[j..], flags)
  }

  lemma OneStep(p: CString, i: nat, s: CString, j: nat, flags: Flags)
    requires i < |p| && j <= |s|
    ensures var (e, next) := ElementAt(p, i, flags);
      !e.AnyString? ==>
        (RestMatches(p, i, s, j, flags)
         <==> j < |s| && Fits(e, [s[j]], flags) && RestMatches(p, next, s, j + 1, flags))
  {
    hide Matches, ElementAt, Elements, Fits;
    var (e, next) := ElementAt(p, i, flags);
    ElementsStep(p, i, flags);
    if !e.AnyString? { MatchesOne(e, Elements(p, next, flags), s[j..], flags); }
    if j < |s| { assert s[j..][1..] == s[j + 1..]; }
  }

  lemma AtEnd(p: CString, s: CString, j: nat, flags: Flags)
    requires j <= |s|
    ensures RestMatches(p, |p|, s, j, flags) <==> j == |s|
  {
    MatchesNone(s[j..], flags);
  }

  lemma StarStar(p: CString, i: nat, s: CString, j: nat, flags: Flags)
    requires i + 1 < |p| && p[i] == '*' && p[i + 1] == '*' && j <= |s|
    ensures RestMatches(p, i, s, j, flags) <==> RestMatches(p, i + 1, s, j, flags)
  {
    hide Matches, Elements;
    ElementsStep(p, i, flags);
    ElementsStep(p, i + 1, flags);
    MatchesStarTwice(Elements(p, i + 2, flags), s[j..], flags);
  }

  lemma LastStar(p: CString, i: nat, s: CString, j: nat, flags: Flags)
    requires i + 1 == |p| && p[i] == '*' && j <= |s|
    ensures RestMatches(p, i, s, j, flags) <==> Fits(AnyString, s[j..], flags)
  {
    hide Matches, Elements, Fits;
    ElementsStep(p, i, flags);
    ElementsEnd(p, flags);
    assert [AnyString] + [] == [AnyString];
    MatchesLastStar(s[j..], flags);
  }

  /** A star reaches `k` when it may take what lies between. */
  predicate Reaches(s: CString, j: nat, k: nat, flags: Flags) {
    j <= k <= |s| && Fits(AnyString, s[j..k], flags)
  }

  lemma StarReach(p: CString, i: nat, s: CString, j: nat, flags: Flags)
    requires i < |p| && p[i] == '*' && j <= |s|
    ensures RestMatches(p, i, s, j, flags)
       <==> exists k: nat :: Reaches(s, j, k, flags) && RestMatches(p, i + 1, s, k, flags)
  {
    hide Matches, Elements, Fits;
    ElementsStep(p, i, flags);
    var es, t := Elements(p, i + 1, flags), s[j..];
    MatchesStar(es, t, flags);
    if StarMatches(es, t, flags) {
      var k: nat :| k <= |t| && Fits(AnyString, t[..k], flags) && Matches(es, t[k..], flags);
      assert t[..k] == s[j..j + k] && t[k..] == s[j + k..];
      assert Reaches(s, j, j + k, flags) && RestMatches(p, i + 1, s, j + k, flags);
    }
    if k: nat :| Reaches(s, j, k, flags) && RestMatches(p, i + 1, s, k, flags) {
      assert t[..k - j] == s[j..k] && t[k - j..] == s[k..];
    }
  }

  lemma PastSlash(s: CString, j: nat, k: nat, slash: nat, flags: Flags)
    requires flags.pathname && j <= slash < |s| && s[slash] == '/' && Reaches(s, j, k, flags)
    ensures k <= slash
  {
  }

  /** Under PATHNAME a star before a slash ends at the first slash. */
  lemma StarBeforeSlash(p: CString, i: nat, s: CString, j: nat, slash: nat, flags: Flags)
    requires i + 1 < |p| && p[i] == '*' && p[i + 1] == '/' && flags.pathname
    requires j <= slash <= |s| && '/' !in s[j..slash] && (slash < |s| ==> s[slash] == '/')
    ensures RestMatches(p, i, s, j, flags) <==> slash < |s| && RestMatches(p, i + 1, s, slash, flags)
  {
    hide RestMatches;
    StarReach(p, i, s, j, flags);
    forall k: nat | Reaches(s, j, k, flags) && RestMatches(p, i + 1, s, k, flags)
      ensures k == slash
    {
      OneStep(p, i + 1, s, k, flags);
      assert k < |s| && s[k] == '/';
      if slash < |s| { PastSlash(s, j, k, slash, flags); }
    }
    OneStep(p, i + 1, s, slash, flags);
    assert Reaches(s, j, slash, flags);
  }

  /** The matcher: true for a match. It is called with ever shorter patterns. */
  method FnmatchAt(p: CString, start: nat, s: CString, from: nat, flags: Flags) returns (r: bool)
    requires start <= |p| && from <= |s|
    ensures r == RestMatches(p, start, s, from, flags)
    decreases |p| - start
  {
    hide Matches, Elements, RestMatches, BracketAt, InRanges;
    var i, j := start, from;
    while true
      invariant start <= i <= |p| && from <= j <= |s|
      invariant RestMatches(p, start, s, from, flags) == RestMatches(p, i, s, j, flags)
      decreases |p| - i
    {
      if i == |p| {
        AtEnd(p, s, j, flags);
        return j == |s|;
      }
      OneStep(p, i, s, j, flags);
      var c: char := p[i];
      i := i + 1;
      if c == '?' {
        if j == |s| || (flags.pathname && s[j] == '/') {
          return false;
        }
        j := j + 1;
      } else if c == '*' {
        ghost var star := i - 1;
        while i < |p| && p[i] == '*'
          invariant star < i <= |p| && p[i - 1] == '*'
          invariant RestMatches(p, star, s, j, flags) == RestMatches(p, i - 1, s, j, flags)
        {
          StarStar(p, i - 1, s, j, flags);
          i := i + 1;
        }
        if i == |p| {
          LastStar(p, i - 1, s, j, flags);
          return !flags.pathname || '/' !in s[j..];
        }
        if p[i] == '/' && flags.pathname {
          var slash := Find(s, j);
          StarBeforeSlash(p, i - 1, s, j, slash, flags);
          if slash == |s| {
            return false;
          }
          j := slash;
        } else {
          r := TryEach(p, i, s, j, flags);
          return;
        }
      } else if c == '[' {
        if j == |s| || (flags.pathname && s[j] == '/') {
          return false;
        }
        var matched, next := MatchBracket(p, i, s[j], flags);
        if matched < 0 {
          if s[j] != '[' {
            return false;
          }
        } else {
          if matched == 0 {
            return false;
          }
          i := next;
        }
        j := j + 1;
      } else {
        if c == '\\' && !flags.noEscape && i < |p| {
          c := p[i];
          i := i + 1;
        }
        if c != At(s, j) {
          return false;
        }
        j := j + 1;
      }
    }
  }

  /** strchr(s, '/') from `j`, or the end. */
  method Find(s: CString, j: nat) returns (k: nat)
    requires j <= |s|
    ensures j <= k <= |s| && '/' !in s[j..k] && (k < |s| ==> s[k] == '/')
  {
    k := j;
    while k < |s| && s[k] != '/'
      invariant j <= k <= |s| && '/' !in s[j..k]
    {
      k := k + 1;
    }
  }

  /** What follows a `*` is tried at every place the star can reach. */
  method TryEach(p: CString, i: nat, s: CString, from: nat, flags: Flags) returns (r: bool)
    requires 0 < i < |p| && from <= |s| && p[i - 1] == '*'
    ensures r == RestMatches(p, i - 1, s, from, flags)
    decreases |p| - i + 1, 0
  {
    hide Matches, Elements, RestMatches;
    var j := from;
    StarReach(p, i - 1, s, from, flags);
    while j < |s|
      invariant from <= j <= |s|
      invariant forall k :: from <= k < j ==> !RestMatches(p, i, s, k, flags)
      invariant flags.pathname ==> '/' !in s[from..j]
    {
      r := FnmatchAt(p, i, s, j, flags);
      if r {
        assert Reaches(s, from, j, flags);
        return;
      }
      if s[j] == '/' && flags.pathname {
        forall k: nat | Reaches(s, from, k, flags)
          ensures k <= j
        {
          PastSlash(s, from, k, j, flags);
        }
        break;
      }
      j := j + 1;
    }
    assert Reaches(s, from, j, flags);
    r := FnmatchAt(p, i, s, j, flags);
  }

  /** With PATHNAME every slash of the string is one the pattern spells out. */
  lemma {:induction false} SlashesAreSpelled(es: seq<Element>, s: CString, flags: Flags)
    requires flags.pathname && Matches(es, s, flags)
    ensures multiset(s)['/'] == multiset(es)[Literal('/')]
  {
    if es == [] {
      MatchesNone(s, flags);
    } else {
      hide *;
      assert es == [es[0]] + es[1..];
      MatchesCons(es[0], es[1..], s, flags);
      var k: nat :| k <= |s| && Fits(es[0], s[..k], flags) && Matches(es[1..], s[k..], flags);
      SlashesAreSpelled(es[1..], s[k..], flags);
      SlashesIn(es[0], s[..k], flags);
      SlashesAdd(es[0], es[1..], s[..k], s[k..]);
      TwoParts(s, k);
    }
  }

  lemma TwoParts(s: CString, k: nat)
    requires k <= |s|
    ensures s == s[..k] + s[k..]
  {
  }

  lemma SlashesAdd(e: Element, es: seq<Element>, piece: CString, rest: CString)
    ensures multiset(piece + rest)['/'] == multiset(piece)['/'] + multiset(rest)['/']
    ensures multiset([e] + es)[Literal('/')] == (if e == Literal('/') then 1 else 0) + multiset(es)[Literal('/')]
  {
  }

  lemma SlashesIn(e: Element, piece: CString, flags: Flags)
    requires flags.pathname && Fits(e, piece, flags)
    ensures multiset(piece)['/'] == if e == Literal('/') then 1 else 0
  {
    if |piece| == 1 {
      assert piece == [piece[0]];
    }
  }

  /** fnmatch(3): the string splits along the elements of the pattern. */
  method Match(pattern: CString, string_: CString, flags: Flags) returns (r: bool)
    ensures r <==> Matches(Elements(pattern, 0, flags), string_, flags)
  {
    assert string_[0..] == string_;
    r := FnmatchAt(pattern, 0, string_, 0, flags);
  }
}
