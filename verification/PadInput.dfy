/**
 The controller bridge: each poll compares the pad with the last poll and injects key
 presses and releases. A 32-bit button word is the set of its bit numbers.
 */
module PadInput {
  import opened Wrappers

  const WORD_BITS: nat := 32
  const UP: nat := 4
  const RIGHT: nat := 5
  const DOWN: nat := 6
  const LEFT: nat := 7
  const DIRECTIONS: set<nat> := {UP, RIGHT, DOWN, LEFT}
  const REPEAT_DELAY: int := 400
  const REPEAT_RATE: int := 80
  const DEADZONE: int := 64

  datatype Key =
    | KeyUp | KeyDown | KeyLeft | KeyRight | Return | Backspace | ContextC | InfoI
    | MediaPlayPause | PageUp | PageDown | RewindR | ForwardF | DebugO | MenuM | Escape

  /** The key of a button bit; most bits have none. */
  function KeyOf(bit: nat): Option<Key> {
    match bit
    case 1 => Some(DebugO)
    case 2 => Some(MenuM)
    case 3 => Some(MediaPlayPause)
    case 4 => Some(KeyUp)
    case 5 => Some(KeyRight)
    case 6 => Some(KeyDown)
    case 7 => Some(KeyLeft)
    case 8 => Some(RewindR)
    case 9 => Some(ForwardF)
    case 10 => Some(PageUp)
    case 11 => Some(PageDown)
    case 12 => Some(ContextC)
    case 13 => Some(Backspace)
    case 14 => Some(Return)
    case 15 => Some(InfoI)
    case 20 => Some(Escape)
    case _ => None
  }

  lemma KeysAreDistinct(a: nat, b: nat)
    requires KeyOf(a).Some? && KeyOf(a) == KeyOf(b)
    ensures a == b
  {
  }

  datatype Event = Event(key: Key, down: bool)

  function Emit(bit: nat, down: bool): seq<Event> {
    match KeyOf(bit)
    case Some(key) => [Event(key, down)]
    case None => []
  }

  /** Direction bits of the left stick, a byte for each axis. */
  function StickToDpad(x: int, y: int, deadzone: int): set<nat> {
    (if x < 128 - deadzone then {LEFT} else if x > 128 + deadzone then {RIGHT} else {})
    + (if y < 128 - deadzone then {UP} else if y > 128 + deadzone then {DOWN} else {})
  }

  // ---- one poll ---------------------------------------------------------------

  datatype Input =
    | Unreadable
    | Reading(buttons: set<nat>, x: int, y: int, keyboard: bool, now: int)
  {
    predicate Valid() {
      Reading? ==> forall b :: b in buttons ==> b < WORD_BITS
    }

    /** The stick drives the directions while the d-pad is idle. */
    function Pressed(): set<nat>
      requires Reading?
    {
      if buttons * DIRECTIONS == {} then buttons + StickToDpad(x, y, DEADZONE) else buttons
    }
  }

  datatype PadState = PadState(last: set<nat>, held: Option<nat>, wait: bool, next: int)

  const START: PadState := PadState({}, None, false, 0)

  function Releases(bits: set<nat>, bit: nat): seq<Event>
    requires bit <= WORD_BITS
    decreases WORD_BITS - bit
  {
    if bit == WORD_BITS then []
    else (if bit in bits then Emit(bit, false) else []) + Releases(bits, bit + 1)
  }

  /** Events, repeating direction and its due time. */
  datatype Changes = Changes(events: seq<Event>, held: Option<nat>, next: int)

  /** From `bit` on, every button that differs gets its event. */
  function ChangesFrom(last: set<nat>, pressed: set<nat>, bit: nat, held: Option<nat>, next: int, now: int): Changes
    requires bit <= WORD_BITS
    decreases WORD_BITS - bit
  {
    if bit == WORD_BITS then Changes([], held, next)
    else if (bit in last) == (bit in pressed) then ChangesFrom(last, pressed, bit + 1, held, next, now)
    else
      var down := bit in pressed;
      var held' := if bit !in DIRECTIONS then held
                   else if down then Some(bit) else if held == Some(bit) then None else held;
      var next' := if bit in DIRECTIONS && down then now + REPEAT_DELAY else next;
      var rest := ChangesFrom(last, pressed, bit + 1, held', next', now);
      rest.(events := Emit(bit, down) + rest.events)
  }

  lemma ReleasesStep(bits: set<nat>, bit: nat)
    requires bit <= WORD_BITS
    ensures Releases(bits, bit)
         == if bit == WORD_BITS then []
            else (if bit in bits then Emit(bit, false) else []) + Releases(bits, bit + 1)
  {
  }

  lemma ChangesStep(last: set<nat>, pressed: set<nat>, bit: nat, held: Option<nat>, next: int, now: int)
    requires bit <= WORD_BITS
    ensures ChangesFrom(last, pressed, bit, held, next, now)
         == if bit == WORD_BITS then Changes([], held, next)
            else if (bit in last) == (bit in pressed) then ChangesFrom(last, pressed, bit + 1, held, next, now)
            else
              var down := bit in pressed;
              var held' := if bit !in DIRECTIONS then held
                           else if down then Some(bit) else if held == Some(bit) then None else held;
              var next' := if bit in DIRECTIONS && down then now + REPEAT_DELAY else next;
              var rest := ChangesFrom(last, pressed, bit + 1, held', next', now);
              rest.(events := Emit(bit, down) + rest.events)
  {
  }

  function Step(s: PadState, input: Input): (PadState, seq<Event>) {
    match input
    case Unreadable =>
      if s.last == {} then (s, []) else (s.(last := {}, held := None), Releases(s.last, 0))
    case Reading(_, _, _, keyboard, now) =>
      var pressed := input.Pressed();
      if keyboard || s.wait then
        (PadState({}, None, keyboard || pressed != {},
                  if keyboard && pressed != {} && now >= s.next then now + REPEAT_RATE else s.next),
         Releases(s.last, 0))
      else
        var c := ChangesFrom(s.last, pressed, 0, s.held, s.next, now);
        if c.held.Some? && c.held.value in pressed && now >= c.next then
          (PadState(pressed, c.held, false, now + REPEAT_RATE), c.events + Emit(c.held.value, true))
        else
          (PadState(pressed, c.held, false, c.next), c.events)
  }

  class Pad {
    /** The open port; 0 or less when there is none. */
    var handle: int
    var lastButtons: set<nat>
    var heldRepeat: Option<nat>
    var waitForRelease: bool
    var nextRepeat: int
    /** Everything injected so far. */
    ghost var events: seq<Event>

    function State(): PadState
      reads this
    {
      PadState(lastButtons, heldRepeat, waitForRelease, nextRepeat)
    }

    method EmitKey(bit: nat, down: bool)
      modifies this`events
      ensures events == old(events) + Emit(bit, down)
    {
      events := events + Emit(bit, down);
    }

    /** Releases what the pad held. */
    method ReleaseAll()
      modifies this`events
      ensures events == old(events) + Releases(lastButtons, 0)
    {
      hide Releases, Emit;
      ghost var before, last := events, lastButtons;
      var bit := 0;
      while bit < WORD_BITS
        invariant bit <= WORD_BITS && lastButtons == last
        invariant events + Releases(last, bit) == before + Releases(last, 0)
      {
        ReleasesStep(last, bit);
        if bit in lastButtons {
          EmitKey(bit, false);
        }
        bit := bit + 1;
      }
      ReleasesStep(last, bit);
    }

    method PollPad(input: Input)
      modifies this
      ensures handle == old(handle)
      ensures handle <= 0 ==> State() == old(State()) && events == old(events)
      ensures handle > 0 ==>
        (State(), events) == (Step(old(State()), input).0, old(events) + Step(old(State()), input).1)
    {
      hide Releases, ChangesFrom, Emit, StickToDpad;
      if handle <= 0 {
        return;
      }
      if input.Unreadable? {
        assert events + [] == events;
        if lastButtons != {} {
          ReleaseAll();
          lastButtons := {};
          heldRepeat := None;
        }
        return;
      }
      var buttons := input.buttons;
      if buttons * DIRECTIONS == {} {
        buttons := buttons + StickToDpad(input.x, input.y, DEADZONE);
      }
      var now, keyboard := input.now, input.keyboard;
      if keyboard || waitForRelease {
        ReleaseAll();
        lastButtons := {};
        heldRepeat := None;
        waitForRelease := keyboard || buttons != {};
        if keyboard && buttons != {} && now >= nextRepeat {
          nextRepeat := now + REPEAT_RATE;
        }
        return;
      }
      EmitChanges(buttons, now);
      ghost var c := ChangesFrom(lastButtons, buttons, 0, old(heldRepeat), old(nextRepeat), now);
      if heldRepeat.Some? && heldRepeat.value in buttons && now >= nextRepeat {
        EmitKey(heldRepeat.value, true);
        nextRepeat := now + REPEAT_RATE;
        assert events == old(events) + (c.events + Emit(heldRepeat.value, true));
      }
      lastButtons := buttons;
    }

    /** The loop over the changed bits. */
    method EmitChanges(buttons: set<nat>, now: int)
      modifies this`events, this`heldRepeat, this`nextRepeat
      ensures var c := ChangesFrom(lastButtons, buttons, 0, old(heldRepeat), old(nextRepeat), now);
        events == old(events) + c.events && heldRepeat == c.held && nextRepeat == c.next
    {
      hide ChangesFrom, Emit;
      ghost var before := events;
      ghost var whole := ChangesFrom(lastButtons, buttons, 0, heldRepeat, nextRepeat, now);
      var bit := 0;
      while bit < WORD_BITS
        invariant bit <= WORD_BITS && lastButtons == old(lastButtons)
        invariant var c := ChangesFrom(lastButtons, buttons, bit, heldRepeat, nextRepeat, now);
          events + c.events == before + whole.events && c.held == whole.held && c.next == whole.next
      {
        ChangesStep(lastButtons, buttons, bit, heldRepeat, nextRepeat, now);
        if (bit in lastButtons) != (bit in buttons) {
          var down := bit in buttons;
          EmitKey(bit, down);
          if bit in DIRECTIONS {
            if down {
              heldRepeat := Some(bit);
              nextRepeat := now + REPEAT_DELAY;
            } else if heldRepeat == Some(bit) {
              heldRepeat := None;
            }
          }
        }
        bit := bit + 1;
      }
      ChangesStep(lastButtons, buttons, bit, heldRepeat, nextRepeat, now);
    }
  }

  // ---- what the application has seen -------------------------------------------

  /** The keys whose latest event is a press. */
  function KeysDown(before: set<Key>, events: seq<Event>): set<Key> {
    if events == [] then before else
      var e := events[|events| - 1];
      var down := KeysDown(before, events[..|events| - 1]);
      if e.down then down + {e.key} else down - {e.key}
  }

  /** A press is of a key that is up, or repeats a direction; a release is of a key that is down. */
  predicate Sensible(before: set<Key>, events: seq<Event>) {
    events == [] ||
    var e := events[|events| - 1];
    var down := KeysDown(before, events[..|events| - 1]);
    && Sensible(before, events[..|events| - 1])
    && if e.down then e.key !in down || e.key in {KeyUp, KeyDown, KeyLeft, KeyRight} else e.key in down
  }

  /** The keys of a set of buttons. */
  function KeysOf(bits: set<nat>): set<Key> {
    set b | b in bits && KeyOf(b).Some? :: KeyOf(b).value
  }

  predicate ValidState(s: PadState) {
    && (forall b :: b in s.last ==> b < WORD_BITS)
    && (s.held.Some? ==> s.held.value in s.last && s.held.value in DIRECTIONS)
  }

  lemma {:induction false} KeysDownConcat(before: set<Key>, a: seq<Event>, b: seq<Event>)
    ensures KeysDown(before, a + b) == KeysDown(KeysDown(before, a), b)
    ensures Sensible(before, a + b) <==> Sensible(before, a) && Sensible(KeysDown(before, a), b)
    decreases |b|
  {
    if b == [] {
      assert a + b == a;
    } else {
      var b' := b[..|b| - 1];
      assert (a + b)[..|a + b| - 1] == a + b';
      KeysDownConcat(before, a, b');
    }
  }

  /** The buttons seen as down once the bits below `bit` have had their events. */
  function Mixed(last: set<nat>, pressed: set<nat>, bit: nat): set<nat> {
    set b | b in last + pressed && (if b < bit then b in pressed else b in last)
  }

  lemma EmitOne(bits: set<nat>, bit: nat, down: bool)
    requires (bit in bits) != down
    ensures var after := if down then bits + {bit} else bits - {bit};
      KeysDown(KeysOf(bits), Emit(bit, down)) == KeysOf(after)
      && Sensible(KeysOf(bits), Emit(bit, down))
  {
    var events := Emit(bit, down);
    var after := if down then bits + {bit} else bits - {bit};
    forall b | b in bits && KeyOf(b).Some? && KeyOf(b) == KeyOf(bit)
      ensures b == bit
    {
      KeysAreDistinct(b, bit);
    }
    if KeyOf(bit).Some? {
      assert events[..0] == [];
    } else {
      assert KeysOf(after) == KeysOf(bits);
    }
  }

  lemma {:induction false} ChangesFollow(last: set<nat>, pressed: set<nat>, bit: nat, held: Option<nat>, next: int,
                                         now: int)
    requires bit <= WORD_BITS && forall b :: b in last + pressed ==> b < WORD_BITS
    requires held.Some? ==> held.value in Mixed(last, pressed, bit) && held.value in DIRECTIONS
    ensures var c := ChangesFrom(last, pressed, bit, held, next, now);
      && KeysDown(KeysOf(Mixed(last, pressed, bit)), c.events) == KeysOf(pressed)
      && Sensible(KeysOf(Mixed(last, pressed, bit)), c.events)
      && (c.held.Some? ==> c.held.value in pressed && c.held.value in DIRECTIONS)
    decreases WORD_BITS - bit
  {
    hide KeysDown, Sensible, KeysOf, Emit, KeyOf, ChangesFrom;
    ChangesStep(last, pressed, bit, held, next, now);
    var before := Mixed(last, pressed, bit);
    if bit == WORD_BITS {
      assert before == pressed;
      NoEvents(KeysOf(pressed));
    } else {
      var after := Mixed(last, pressed, bit + 1);
      if (bit in last) == (bit in pressed) {
        assert after == before;
        ChangesFollow(last, pressed, bit + 1, held, next, now);
      } else {
        var down := bit in pressed;
        assert after == if down then before + {bit} else before - {bit};
        EmitOne(before, bit, down);
        var held' := if bit !in DIRECTIONS then held
                     else if down then Some(bit) else if held == Some(bit) then None else held;
        var next' := if bit in DIRECTIONS && down then now + REPEAT_DELAY else next;
        ChangesFollow(last, pressed, bit + 1, held', next', now);
        var rest := ChangesFrom(last, pressed, bit + 1, held', next', now);
        KeysDownConcat(KeysOf(before), Emit(bit, down), rest.events);
      }
    }
  }

  lemma NoEvents(before: set<Key>)
    ensures KeysDown(before, []) == before && Sensible(before, [])
  {
  }

  function FromBit(bits: set<nat>, bit: nat): set<nat> {
    set b | b in bits && bit <= b
  }

  lemma {:induction false} ReleasesFollow(bits: set<nat>, bit: nat)
    requires bit <= WORD_BITS && forall b :: b in bits ==> b < WORD_BITS
    ensures KeysDown(KeysOf(FromBit(bits, bit)), Releases(bits, bit)) == {}
    ensures Sensible(KeysOf(FromBit(bits, bit)), Releases(bits, bit))
    ensures forall e :: e in Releases(bits, bit) ==> !e.down
    decreases WORD_BITS - bit
  {
    hide KeysDown, Sensible, Releases;
    ReleasesStep(bits, bit);
    var from, next := FromBit(bits, bit), FromBit(bits, bit + 1);
    if bit == WORD_BITS {
      assert KeysOf(from) == {};
      NoEvents({});
    } else {
      ReleasesFollow(bits, bit + 1);
      if bit in bits {
        assert next == from - {bit};
        EmitOne(from, bit, false);
        KeysDownConcat(KeysOf(from), Emit(bit, false), Releases(bits, bit + 1));
      } else {
        assert next == from && [] + Releases(bits, bit + 1) == Releases(bits, bit + 1);
      }
    }
  }

  /** A repeat is of a direction that is down. */
  lemma RepeatFollows(pressed: set<nat>, bit: nat)
    requires bit in pressed && bit in DIRECTIONS
    ensures KeysDown(KeysOf(pressed), Emit(bit, true)) == KeysOf(pressed)
    ensures Sensible(KeysOf(pressed), Emit(bit, true))
  {
    var events := Emit(bit, true);
    assert events[..0] == [];
    assert KeyOf(bit).value in KeysOf(pressed);
  }

  lemma StepFollows(s: PadState, input: Input)
    requires ValidState(s) && input.Valid()
    ensures var (after, events) := Step(s, input);
      && ValidState(after)
      && KeysDown(KeysOf(s.last), events) == KeysOf(after.last)
      && Sensible(KeysOf(s.last), events)
  {
    hide KeysOf, Emit, Releases, ChangesFrom, StickToDpad;
    assert FromBit(s.last, 0) == s.last;
    ReleasesFollow(s.last, 0);
    NoEvents(KeysOf(s.last));
    NoKeys();
    if input.Reading? {
      var pressed := input.Pressed();
      StickBits(input.x, input.y);
      assert Mixed(s.last, pressed, 0) == s.last;
      ChangesFollow(s.last, pressed, 0, s.held, s.next, input.now);
      var c := ChangesFrom(s.last, pressed, 0, s.held, s.next, input.now);
      if c.held.Some? && c.held.value in pressed {
        RepeatFollows(pressed, c.held.value);
        KeysDownConcat(KeysOf(s.last), c.events, Emit(c.held.value, true));
      }
    }
  }

  lemma NoKeys()
    ensures KeysOf({}) == {}
  {
  }

  lemma StickBits(x: int, y: int)
    ensures StickToDpad(x, y, DEADZONE) <= DIRECTIONS
  {
  }

  // ---- runs -------------------------------------------------------------------

  function Run(inputs: seq<Input>): (PadState, seq<Event>) {
    if inputs == [] then (START, []) else
      var (s, events) := Run(inputs[..|inputs| - 1]);
      var (after, more) := Step(s, inputs[|inputs| - 1]);
      (after, events + more)
  }

  /** The events of one more poll. */
  function MoreEvents(inputs: seq<Input>, input: Input): seq<Event> {
    var (before, after) := (Run(inputs).1, Run(inputs + [input]).1);
    if |before| <= |after| then after[|before|..] else []
  }

  lemma RunStep(inputs: seq<Input>, input: Input)
    ensures Run(inputs + [input]).0 == Step(Run(inputs).0, input).0
    ensures Run(inputs + [input]).1 == Run(inputs).1 + Step(Run(inputs).0, input).1
    ensures MoreEvents(inputs, input) == Step(Run(inputs).0, input).1
  {
    hide Step;
    assert (inputs + [input])[..|inputs|] == inputs;
  }

  predicate AllValid(inputs: seq<Input>) {
    forall input :: input in inputs ==> input.Valid()
  }

  /** Over any run the keys whose latest event is a press are exactly those of the buttons of the
      last poll, every release is of a pressed key, and only directions repeat. */
  lemma {:induction false} RunFollows(inputs: seq<Input>)
    requires AllValid(inputs)
    ensures var (s, events) := Run(inputs);
      ValidState(s) && KeysDown({}, events) == KeysOf(s.last) && Sensible({}, events)
  {
    if inputs == [] {
      NoKeys();
    } else {
      hide Step, KeysDown, Sensible, KeysOf;
      var before, input := inputs[..|inputs| - 1], inputs[|inputs| - 1];
      RunFollows(before);
      var (s, events) := Run(before);
      StepFollows(s, input);
      KeysDownConcat({}, events, Step(s, input).1);
    }
  }

  /** After a poll without a readable pad, or with the keyboard open, no key is down; and with the
      keyboard open, or until the pad was seen at rest, nothing is pressed. */
  lemma NothingHeld(inputs: seq<Input>, input: Input)
    requires AllValid(inputs) && input.Valid()
    requires input.Unreadable? || input.keyboard || Run(inputs).0.wait
    ensures var (s, events) := Run(inputs + [input]);
      s.last == {} && KeysDown({}, events) == {}
    ensures Run(inputs).1 <= Run(inputs + [input]).1
    ensures forall e :: e in MoreEvents(inputs, input) ==> !e.down
  {
    hide Releases, ChangesFrom, KeysDown, KeysOf;
    RunStep(inputs, input);
    RunFollows(inputs);
    RunFollows(inputs + [input]);
    NoKeys();
    ReleasesFollow(Run(inputs).0.last, 0);
  }

  /** A connected poll without the keyboard and with nothing pressed. */
  predicate AtRest(input: Input) {
    input.Reading? && !input.keyboard && input.Pressed() == {}
  }

  /** Once the keyboard was seen, `wait` stays set until a poll at rest. */
  lemma {:induction false} WaitsForRest(inputs: seq<Input>, i: nat)
    requires i < |inputs| && inputs[i].Reading? && inputs[i].keyboard
    requires forall k :: i < k < |inputs| ==> !AtRest(inputs[k])
    ensures Run(inputs).0.wait
    decreases |inputs|
  {
    hide Releases, ChangesFrom, StickToDpad;
    var before := inputs[..|inputs| - 1];
    if i < |inputs| - 1 {
      assert !AtRest(inputs[|inputs| - 1]);
      WaitsForRest(before, i);
    }
  }

  /** After the keyboard closes no key is pressed before a poll with nothing pressed. */
  lemma QuietAfterKeyboard(inputs: seq<Input>, i: nat, input: Input)
    requires AllValid(inputs) && input.Valid()
    requires i < |inputs| && inputs[i].Reading? && inputs[i].keyboard
    requires forall k :: i < k < |inputs| ==> !AtRest(inputs[k])
    ensures forall e :: e in MoreEvents(inputs, input) ==> !e.down
  {
    WaitsForRest(inputs, i);
    NothingHeld(inputs, input);
  }

  // ---- one poll more, by bit numbers and stick positions -------------------------

  /** A readable poll waits exactly while the keyboard is open, or goes on waiting until no button is down and
      the stick is inside 64..192; the keyboard hears of input every 80 milliseconds at most. */
  lemma WaitsExactly(inputs: seq<Input>, input: Input)
    ensures
      var (before, after) := (Run(inputs).0, Run(inputs + [input]).0);
      if input.Unreadable? then after.wait == before.wait && after.next == before.next
      else
        var rest := input.buttons == {} && 64 <= input.x <= 192 && 64 <= input.y <= 192;
        && (after.wait <==> input.keyboard || (before.wait && !rest))
        && (input.keyboard || before.wait ==>
              after.next == if input.keyboard && !rest && input.now >= before.next then input.now + 80 else before.next)
  {
    hide Releases, ChangesFrom;
    RunStep(inputs, input);
    if input.Reading? {
      var stick := StickToDpad(input.x, input.y, DEADZONE);
      assert input.Pressed() == {} <==> input.buttons == {} && stick == {} by {
        assert input.buttons == {} ==> input.buttons * DIRECTIONS == {};
        assert forall b :: b in input.buttons ==> b in input.Pressed();
      }
      assert LEFT in stick <==> input.x < 64;
      assert RIGHT in stick <==> input.x > 192;
      assert UP in stick <==> input.y < 64;
      assert DOWN in stick <==> input.y > 192;
    }
  }

  /** When it does not wait, the buttons are those of the pad: with none of the bits 4 to 7 among them the stick
      adds left (7), right (5), up (4) and down (6). */
  lemma ButtonsAreSeen(inputs: seq<Input>, input: Input)
    requires input.Reading? && !input.keyboard && !Run(inputs).0.wait
    ensures
      var (b, x, y) := (input.buttons, input.x, input.y);
      Run(inputs + [input]).0.last
      == if 4 in b || 5 in b || 6 in b || 7 in b then b
         else b + (if x < 64 then {7} else if x > 192 then {5} else {})
                + (if y < 64 then {4} else if y > 192 then {6} else {})
  {
    hide ChangesFrom, Releases, Run;
    RunStep(inputs, input);
    DirectionsIn(input.buttons);
  }

  lemma DirectionsIn(b: set<nat>)
    ensures b * DIRECTIONS == {} <==> !(4 in b || 5 in b || 6 in b || 7 in b)
  {
    assert forall k :: k in b * DIRECTIONS <==> k in b && (k == 4 || k == 5 || k == 6 || k == 7);
  }

  /** A direction pressed since the last poll. */
  predicate NewDirection(before: set<nat>, after: set<nat>, bit: nat) {
    4 <= bit <= 7 && bit in after && bit !in before
  }

  /** The direction held, pressed before and due to be repeated. */
  predicate Due(before: PadState, after: PadState, now: int) {
    && before.held.Some? && before.held.value in after.last && now >= before.next
    && forall bit: nat :: 4 <= bit <= 7 ==> !NewDirection(before.last, after.last, bit)
  }

  /** Then the key of a button that went down is pressed once, of one that came up released once; the direction
      held is pressed once more when it is due; and there is nothing else. */
  lemma KeysOfPoll(inputs: seq<Input>, input: Input, bit: nat)
    requires AllValid(inputs) && input.Valid()
    requires input.Reading? && !input.keyboard && !Run(inputs).0.wait && KeyOf(bit).Some?
    ensures
      var (before, after, more) := (Run(inputs).0, Run(inputs + [input]).0, multiset(MoreEvents(inputs, input)));
      && more[Event(KeyOf(bit).value, true)]
         == (if bit in after.last && bit !in before.last then 1 else 0)
            + (if Due(before, after, input.now) && before.held == Some(bit) then 1 else 0)
      && more[Event(KeyOf(bit).value, false)] == (if bit in before.last && bit !in after.last then 1 else 0)
  {
    hide Step, Run, KeyOf, Due, KeysDown, Sensible, KeysOf;
    RunStep(inputs, input);
    RunFollows(inputs);
    StepKeys(Run(inputs).0, input, bit);
  }

  lemma StepKeys(s: PadState, input: Input, bit: nat)
    requires ValidState(s) && input.Reading? && !input.keyboard && !s.wait && KeyOf(bit).Some?
    ensures
      var (after, more) := (Step(s, input).0, multiset(Step(s, input).1));
      && more[Event(KeyOf(bit).value, true)]
         == (if bit in after.last && bit !in s.last then 1 else 0)
            + (if Due(s, after, input.now) && s.held == Some(bit) then 1 else 0)
      && more[Event(KeyOf(bit).value, false)] == (if bit in s.last && bit !in after.last then 1 else 0)
  {
    hide ChangesFrom, Releases, KeyOf, StickToDpad, Emit, Input.Pressed;
    var pressed := input.Pressed();
    ChangesCount(s.last, pressed, 0, s.held, s.next, input.now, bit);
    ChangesHeld(s.last, pressed, 0, s.held, s.next, input.now);
    var c := ChangesFrom(s.last, pressed, 0, s.held, s.next, input.now);
    if c.held.Some? {
      EmitCount(c.held.value, true, bit);
    }
  }

  /** A direction just pressed is held, the highest bit of several, and due after 400 milliseconds; one repeated
      is due again after 80; and one that came up is not held any more. */
  lemma HeldDirection(inputs: seq<Input>, input: Input)
    requires AllValid(inputs) && input.Valid()
    requires input.Reading? && !input.keyboard && !Run(inputs).0.wait
    ensures
      var (before, after) := (Run(inputs).0, Run(inputs + [input]).0);
      && (forall bit: nat :: NewDirection(before.last, after.last, bit) ==>
            && after.held.Some? && bit <= after.held.value && NewDirection(before.last, after.last, after.held.value)
            && after.next == input.now + 400)
      && ((forall bit: nat :: 4 <= bit <= 7 ==> !NewDirection(before.last, after.last, bit)) ==>
            && after.held == (if before.held.Some? && before.held.value in after.last then before.held else None)
            && after.next == if Due(before, after, input.now) then input.now + 80 else before.next)
  {
    hide ChangesFrom, Releases, KeyOf, StickToDpad, Run, KeysDown, Sensible, KeysOf, Input.Pressed;
    RunStep(inputs, input);
    RunFollows(inputs);
    var (s, pressed) := (Run(inputs).0, input.Pressed());
    ChangesHeld(s.last, pressed, 0, s.held, s.next, input.now);
  }

  /** One event has one key. */
  lemma EmitCount(bit: nat, down: bool, b: nat)
    requires KeyOf(b).Some?
    ensures forall d :: multiset(Emit(bit, down))[Event(KeyOf(b).value, d)] == if bit == b && d == down then 1 else 0
  {
    if KeyOf(bit) == KeyOf(b) {
      KeysAreDistinct(bit, b);
    }
  }

  lemma {:induction false} ChangesCount(last: set<nat>, pressed: set<nat>, bit: nat, held: Option<nat>, next: int,
                                        now: int, b: nat)
    requires bit <= WORD_BITS && KeyOf(b).Some?
    ensures
      var events := multiset(ChangesFrom(last, pressed, bit, held, next, now).events);
      && events[Event(KeyOf(b).value, true)] == (if bit <= b && b in pressed && b !in last then 1 else 0)
      && events[Event(KeyOf(b).value, false)] == (if bit <= b && b in last && b !in pressed then 1 else 0)
    decreases WORD_BITS - bit
  {
    hide ChangesFrom, Emit;
    ChangesStep(last, pressed, bit, held, next, now);
    if bit == WORD_BITS {
      assert b < WORD_BITS;
    } else if (bit in last) == (bit in pressed) {
      ChangesCount(last, pressed, bit + 1, held, next, now, b);
    } else {
      hide KeyOf;
      var down := bit in pressed;
      var held' := if bit !in DIRECTIONS then held
                   else if down then Some(bit) else if held == Some(bit) then None else held;
      var next' := if bit in DIRECTIONS && down then now + REPEAT_DELAY else next;
      ChangesCount(last, pressed, bit + 1, held', next', now, b);
      EmitCount(bit, down, b);
    }
  }

  /** Who is held once the bits from `bit` on had their turn, and until when. */
  lemma {:induction false} ChangesHeld(last: set<nat>, pressed: set<nat>, bit: nat, held: Option<nat>, next: int,
                                       now: int)
    requires bit <= WORD_BITS
    ensures
      var c := ChangesFrom(last, pressed, bit, held, next, now);
      && (forall b: nat :: bit <= b && NewDirection(last, pressed, b) ==>
            && c.held.Some? && b <= c.held.value && NewDirection(last, pressed, c.held.value)
            && c.next == now + 400)
      && ((forall b: nat :: bit <= b <= 7 ==> !NewDirection(last, pressed, b)) ==>
            && c.next == next
            && c.held == if held.Some? && bit <= held.value <= 7 && held.value in last && held.value !in pressed
                            && held.value in DIRECTIONS
                         then None else held)
    decreases WORD_BITS - bit
  {
    hide ChangesFrom, Emit;
    ChangesStep(last, pressed, bit, held, next, now);
    if bit < WORD_BITS {
      if (bit in last) == (bit in pressed) {
        ChangesHeld(last, pressed, bit + 1, held, next, now);
      } else {
        var down := bit in pressed;
        var held' := if bit !in DIRECTIONS then held
                     else if down then Some(bit) else if held == Some(bit) then None else held;
        var next' := if bit in DIRECTIONS && down then now + REPEAT_DELAY else next;
        assert NewDirection(last, pressed, bit) <==> down && bit in DIRECTIONS;
        ChangesHeld(last, pressed, bit + 1, held', next', now);
      }
    }
  }
}
