/**
 The timestamps of pictures still to come: packets feed them in any order, and a picture takes the
 smallest one pending.
 */
module Timestamps {

  const MAX_PENDING: nat := 24

  predicate Sorted(s: seq<real>) {
    forall i, j :: 0 <= i < j < |s| ==> s[i] <= s[j]
  }

  /** std::multiset::insert, on the sorted list of its elements. */
  function Insert(s: seq<real>, t: real): (r: seq<real>)
    ensures |r| == |s| + 1 && multiset(r) == multiset(s) + multiset{t}
    ensures forall x :: x in r <==> x in s || x == t
  {
    if s == [] || t <= s[0] then [t] + s else
      InsertRest(s, t);
      [s[0]] + Insert(s[1..], t)
  }

  lemma InsertRest(s: seq<real>, t: real)
    requires s != []
    ensures s == [s[0]] + s[1..]
  {
  }

  lemma {:induction false} InsertSorted(s: seq<real>, t: real)
    requires Sorted(s)
    ensures Sorted(Insert(s, t))
  {
    if s != [] && t > s[0] {
      var rest := Insert(s[1..], t);
      InsertSorted(s[1..], t);
      forall j | 0 <= j < |rest|
        ensures s[0] <= rest[j]
      {
        assert rest[j] in rest;
      }
    }
  }

  /** The pending set after a new timestamp: beyond the limit the smallest are stale. */
  function Feed(s: seq<real>, t: real): seq<real> {
    var all := Insert(s, t);
    if |all| > MAX_PENDING then all[|all| - MAX_PENDING..] else all
  }

  /** `dropped` went from `all`, and nothing smaller than it stayed. */
  ghost predicate DroppedSmallest(all: multiset<real>, dropped: seq<real>, kept: seq<real>) {
    && multiset(dropped) + multiset(kept) == all
    && (forall i, j :: 0 <= i < |dropped| && 0 <= j < |kept| ==> dropped[i] <= kept[j])
    && (dropped != [] ==> |kept| == MAX_PENDING)
  }

  /** The limit holds after every feed, order is kept, and only the smallest go. */
  lemma FeedKeepsLargest(s: seq<real>, t: real)
    requires Sorted(s)
    ensures Sorted(Feed(s, t)) && |Feed(s, t)| <= MAX_PENDING
    ensures exists dropped :: DroppedSmallest(multiset(s) + multiset{t}, dropped, Feed(s, t))
  {
    InsertSorted(s, t);
    hide Insert;
    var all, kept := Insert(s, t), Feed(s, t);
    var dropped := all[..|all| - |kept|];
    assert all == dropped + kept;
    forall i, j | 0 <= i < |dropped| && 0 <= j < |kept|
      ensures dropped[i] <= kept[j]
    {
      assert dropped[i] == all[i] && kept[j] == all[|dropped| + j];
    }
    assert DroppedSmallest(multiset(s) + multiset{t}, dropped, kept);
  }

  /** All of them up to 24, and beyond that the 24 largest. */
  ghost predicate LargestOf(all: multiset<real>, kept: seq<real>) {
    && Sorted(kept) && multiset(kept) <= all && |kept| == (if |all| <= 24 then |all| else 24)
    && forall x, y :: x in all - multiset(kept) && y in kept ==> x <= y
  }

  lemma FeedIsLargest(s: seq<real>, t: real)
    requires Sorted(s) && |s| <= MAX_PENDING
    ensures LargestOf(multiset(s) + multiset{t}, Feed(s, t))
  {
    FeedKeepsLargest(s, t);
    hide Feed, Sorted;
    var all, kept := multiset(s) + multiset{t}, Feed(s, t);
    var dropped :| DroppedSmallest(all, dropped, kept);
    assert |dropped| + |kept| == |multiset(dropped)| + |multiset(kept)| == |all| == |s| + 1;
    assert all - multiset(kept) == multiset(dropped);
  }

  datatype Event = Fed(t: real) | Shown

  /** Pending timestamps, the latest given out, and all given out. */
  datatype Clock = Clock(pending: seq<real>, last: real, given: seq<real>)

  /** The timestamp of the next picture: the smallest pending one, or one frame after the latest. */
  function NextPts(c: Clock, frameDuration: real): Clock {
    var t := if c.pending != [] then c.pending[0] else c.last + frameDuration;
    Clock(if c.pending != [] then c.pending[1..] else [], t, c.given + [t])
  }

  /** From a reset on, when `first` was the latest timestamp. */
  function Run(events: seq<Event>, first: real, frameDuration: real): Clock {
    if events == [] then Clock([], first, []) else
      var before := Run(events[..|events| - 1], first, frameDuration);
      match events[|events| - 1]
      case Fed(t) => before.(pending := Feed(before.pending, t))
      case Shown => NextPts(before, frameDuration)
  }

  function FedSet(events: seq<Event>): multiset<real> {
    if events == [] then multiset{} else
      FedSet(events[..|events| - 1])
      + match events[|events| - 1] case Fed(t) => multiset{t} case Shown => multiset{}
  }

  function ShownCount(events: seq<Event>): nat {
    if events == [] then 0 else
      ShownCount(events[..|events| - 1]) + if events[|events| - 1].Shown? then 1 else 0
  }

  /** Pictures come in display order, each after its own unit and the earlier ones were fed, and
      never more than the limit are pending. */
  ghost predicate InDisplayOrder(events: seq<Event>, display: seq<real>) {
    && FedSet(events) <= multiset(display)
    && forall n :: 0 <= n <= |events| ==>
         var k := ShownCount(events[..n]);
         && k <= |display| && multiset(display[..k]) <= FedSet(events[..n])
         && |FedSet(events[..n])| - k <= MAX_PENDING
         && (n < |events| && events[n].Shown? ==>
               k < |display| && multiset(display[..k + 1]) <= FedSet(events[..n]))
  }

  /** What is pending, relative to the pictures shown. */
  ghost predicate Matches(c: Clock, fed: multiset<real>, display: seq<real>, k: nat) {
    && k <= |display| && Sorted(c.pending) && c.given == display[..k]
    && multiset(display[..k]) <= fed && fed == multiset(c.pending) + multiset(display[..k])
  }

  lemma FeedMatches(c: Clock, fed: multiset<real>, display: seq<real>, k: nat, t: real)
    requires Matches(c, fed, display, k) && |fed| + 1 - k <= MAX_PENDING
    ensures Matches(c.(pending := Feed(c.pending, t)), fed + multiset{t}, display, k)
  {
    InsertSorted(c.pending, t);
    assert |fed| == |c.pending| + k;
  }

  lemma ShowMatches(c: Clock, fed: multiset<real>, display: seq<real>, k: nat, frameDuration: real)
    requires Matches(c, fed, display, k) && Sorted(display) && k < |display|
    requires multiset(display[..k + 1]) <= fed <= multiset(display)
    ensures Matches(NextPts(c, frameDuration), fed, display, k + 1)
  {
    var x := display[k];
    assert display[..k + 1] == display[..k] + [x];
    assert multiset(c.pending)[x] == fed[x] - multiset(display[..k])[x] > 0;
    NoneSmaller(c.pending, fed, display, k);
    SmallestFirst(c.pending, x);
    assert c.pending == [x] + c.pending[1..];
  }

  lemma SmallestFirst(pending: seq<real>, x: real)
    requires Sorted(pending) && x in pending && forall y :: y in pending ==> x <= y
    ensures pending != [] && pending[0] == x
  {
    var i :| 0 <= i < |pending| && pending[i] == x;
    assert pending[0] <= x && pending[0] in pending;
  }

  lemma NoneSmaller(pending: seq<real>, fed: multiset<real>, display: seq<real>, k: nat)
    requires Sorted(display) && k < |display| && fed <= multiset(display)
    requires fed == multiset(pending) + multiset(display[..k])
    ensures forall y :: y in pending ==> display[k] <= y
  {
    assert display == display[..k] + display[k..];
    forall y | y in pending
      ensures display[k] <= y
    {
      assert multiset(pending)[y] > 0;
      assert multiset(display[k..])[y] == multiset(display)[y] - multiset(display[..k])[y] > 0;
      var i :| 0 <= i < |display| - k && display[k..][i] == y;
      assert display[k + i] == y;
    }
  }

  /** Then the k-th picture gets the k-th smallest timestamp. */
  lemma {:induction false} PicturesGetTheirTimestamps(events: seq<Event>, display: seq<real>, first: real,
                                                     frameDuration: real)
    requires Sorted(display) && InDisplayOrder(events, display)
    ensures Run(events, first, frameDuration).given == display[..ShownCount(events)]
  {
    MatchesAt(events, display, first, frameDuration, |events|);
    assert events[..|events|] == events;
  }

  lemma {:induction false} FedGrows(events: seq<Event>, n: nat)
    requires n <= |events|
    ensures FedSet(events[..n]) <= FedSet(events)
    decreases |events| - n
  {
    if n == |events| {
      assert events[..n] == events;
    } else {
      FedGrows(events, n + 1);
      assert events[..n + 1][..n] == events[..n];
    }
  }

  lemma OneMore(events: seq<Event>, n: nat, first: real, frameDuration: real)
    requires 0 < n <= |events|
    ensures var (a, b, e) := (events[..n - 1], events[..n], events[n - 1]);
      && Run(b, first, frameDuration) == (match e
           case Fed(t) => Run(a, first, frameDuration).(pending := Feed(Run(a, first, frameDuration).pending, t))
           case Shown => NextPts(Run(a, first, frameDuration), frameDuration))
      && FedSet(b) == FedSet(a) + (match e case Fed(t) => multiset{t} case Shown => multiset{})
      && ShownCount(b) == ShownCount(a) + (if e.Shown? then 1 else 0)
  {
    assert events[..n][..n - 1] == events[..n - 1];
  }

  lemma {:induction false} MatchesAt(events: seq<Event>, display: seq<real>, first: real, frameDuration: real, n: nat)
    requires n <= |events| && Sorted(display) && InDisplayOrder(events, display)
    ensures Matches(Run(events[..n], first, frameDuration), FedSet(events[..n]), display, ShownCount(events[..n]))
    decreases n
  {
    hide Matches, Run, FedSet, ShownCount, InDisplayOrder, Sorted, Feed, NextPts;
    if n == 0 {
      assert events[..0] == [];
      AtStart(display, first, frameDuration);
    } else {
      MatchesAt(events, display, first, frameDuration, n - 1);
      OneMore(events, n, first, frameDuration);
      FedGrows(events, n - 1);
      StepMatches(events, display, first, frameDuration, n);
    }
  }

  lemma StepMatches(events: seq<Event>, display: seq<real>, first: real, frameDuration: real, n: nat)
    requires 0 < n <= |events| && Sorted(display) && InDisplayOrder(events, display)
    requires FedSet(events[..n - 1]) <= FedSet(events)
    requires var (c, fed) := (Run(events[..n - 1], first, frameDuration), FedSet(events[..n - 1]));
      Matches(c, fed, display, ShownCount(events[..n - 1]))
    ensures Matches(Run(events[..n], first, frameDuration), FedSet(events[..n]), display, ShownCount(events[..n]))
  {
    OneMore(events, n, first, frameDuration);
    hide Matches, Feed, Sorted, NextPts, Run, FedSet, ShownCount;
    var before, e := events[..n - 1], events[n - 1];
    var c, fed, k := Run(before, first, frameDuration), FedSet(before), ShownCount(before);
    assert |FedSet(events[..n])| - ShownCount(events[..n]) <= MAX_PENDING;
    assert e.Shown? ==> k < |display| && multiset(display[..k + 1]) <= fed;
    if e.Fed? {
      FeedMatches(c, fed, display, k, e.t);
    } else {
      ShowMatches(c, fed, display, k, frameDuration);
    }
  }

  lemma AtStart(display: seq<real>, first: real, frameDuration: real)
    ensures Matches(Run([], first, frameDuration), FedSet([]), display, ShownCount([]))
  {
  }

  /** The pending set is always in order and within the limit, whatever the run. */
  lemma {:induction false} PendingBounded(events: seq<Event>, first: real, frameDuration: real)
    ensures var c := Run(events, first, frameDuration);
      Sorted(c.pending) && |c.pending| <= MAX_PENDING && |c.given| == ShownCount(events)
  {
    if events != [] {
      PendingBounded(events[..|events| - 1], first, frameDuration);
      var before := Run(events[..|events| - 1], first, frameDuration);
      if events[|events| - 1].Fed? {
        FeedKeepsLargest(before.pending, events[|events| - 1].t);
      }
    }
  }

  lemma Appended(events: seq<Event>, e: Event, first: real, frameDuration: real)
    ensures var (before, after) := (Run(events, first, frameDuration), Run(events + [e], first, frameDuration));
      after == match e
        case Fed(t) => before.(pending := Feed(before.pending, t))
        case Shown => NextPts(before, frameDuration)
  {
    assert (events + [e])[..|events|] == events;
  }
}
