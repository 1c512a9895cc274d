/** The keyboard driver of src/keyboard.c: the handler's control keys, and the ring with
    interrupts arriving between the statements of getchar. */
module Keyboard {
  import opened Machine
  import opened KeyRing

  datatype Option<T> = None | Some(value: T)

  /** A keymap_t without its controls. */
  datatype Keymap = Keymap(scancodes: seq<byte>, shiftScancodes: seq<byte>, controlMap: seq<byte>) {
    predicate Valid() { |scancodes| == 128 && |shiftScancodes| == 128 && |controlMap| == 8 }
  }

  const RELEASED: int := 0x80
  const CONTROL: bv8 := 0x1
  const LSHIFT: bv8 := 0x8
  const RSHIFT: bv8 := 0x10
  const CAPSLOCK: bv8 := 0x20

  /** 1 << i */
  function Flag(i: nat): bv8
    requires i < 8
  {
    match i
    case 0 => 0x01 case 1 => 0x02 case 2 => 0x04 case 3 => 0x08
    case 4 => 0x10 case 5 => 0x20 case 6 => 0x40 case _ => 0x80
  }

  predicate On(controls: bv8, i: nat)
    requires i < 8
  {
    controls & Flag(i) != 0
  }

  lemma FlagIsShift(i: nat)
    requires i < 8
    ensures Flag(i) == 1 << i
  {
  }

  lemma OnOfCleared(controls: bv8, i: nat, j: nat)
    requires i < 8 && j < 8
    ensures On(controls & !Flag(i), j) <==> j != i && On(controls, j)
  {
  }

  lemma OnOfSet(controls: bv8, i: nat, j: nat)
    requires i < 8 && j < 8
    ensures On(controls | Flag(i), j) <==> j == i || On(controls, j)
  {
  }

  /** The first of the leading `limit` control keys with this code, or limit. */
  function FirstMatch(keys: seq<byte>, code: int, limit: nat): (i: nat)
    requires limit <= |keys|
    ensures i <= limit && (i < limit ==> keys[i] == code) && forall j :: 0 <= j < i ==> keys[j] != code
  {
    if limit == 0 then 0
    else
      var i := FirstMatch(keys, code, limit - 1);
      if i < limit - 1 || keys[limit - 1] == code then i else limit
  }

  function Toggled(controls: bv8, i: nat): bv8
    requires i < 8
  {
    if On(controls, i) then controls & !Flag(i) else controls | Flag(i)
  }

  /** The controls after a scancode: a release switches off one of the first five keys, a
      press inverts any of the eight. */
  function NextControls(keys: seq<byte>, controls: bv8, code: byte): bv8
    requires |keys| == 8
  {
    if code >= RELEASED then
      var i := FirstMatch(keys, code - RELEASED, 5);
      if i < 5 then controls & !Flag(i) else controls
    else
      var i := FirstMatch(keys, code, 8);
      if i < 8 then Toggled(controls, i) else controls
  }

  predicate Shifting(controls: bv8) {
    controls & (LSHIFT | RSHIFT | CAPSLOCK) != 0 && controls & CONTROL == 0
  }

  /** The character a scancode offers to the ring: none for a release or a control key. */
  function Offered(m: Keymap, controls: bv8, code: byte): Option<byte>
    requires m.Valid()
  {
    if code >= RELEASED || FirstMatch(m.controlMap, code, 8) < 8 then None
    else Some(if Shifting(controls) then m.shiftScancodes[code] else m.scancodes[code])
  }

  /** What a run of scancodes leaves in the controls and offers to the ring. */
  function ControlsAfter(m: Keymap, controls: bv8, codes: seq<byte>): bv8
    requires m.Valid()
  {
    if codes == [] then controls
    else NextControls(m.controlMap, ControlsAfter(m, controls, codes[..|codes| - 1]), codes[|codes| - 1])
  }

  function OfferedBy(m: Keymap, controls: bv8, codes: seq<byte>): seq<Event>
    requires m.Valid()
  {
    if codes == [] then []
    else
      var front, code := codes[..|codes| - 1], codes[|codes| - 1];
      OfferedBy(m, controls, front) + EventOf(Offered(m, ControlsAfter(m, controls, front), code))
  }

  function EventOf(c: Option<byte>): seq<Event> {
    if c.Some? then [Press(c.value)] else []
  }

  // ---------------------------------------------------------------- the control keys

  /** How often key i went down: since it was last let go for the first five, ever for the locks. */
  function Presses(keys: seq<byte>, i: nat, codes: seq<byte>): nat
    requires i < 8 && |keys| == 8
  {
    if codes == [] then 0
    else
      var before := Presses(keys, i, codes[..|codes| - 1]);
      var code := codes[|codes| - 1];
      if code == keys[i] && code < RELEASED then before + 1
      else if i < 5 && code == keys[i] + RELEASED then 0
      else before
  }

  lemma OnOfToggled(controls: bv8, i: nat, j: nat)
    requires i < 8 && j < 8
    ensures On(Toggled(controls, i), j) <==> (if j == i then !On(controls, i) else On(controls, j))
  {
    hide On, Flag;
    OnOfCleared(controls, i, j);
    OnOfSet(controls, i, j);
  }

  lemma FirstMatchIs(keys: seq<byte>, code: int, limit: nat, i: nat)
    requires i < limit <= |keys| && keys[i] == code && forall j :: 0 <= j < i ==> keys[j] != code
    ensures FirstMatch(keys, code, limit) == i
  {
    hide FirstMatch;
  }

  /** One scancode acts on one control: the first with its code. */
  lemma ControlStep(keys: seq<byte>, controls: bv8, code: byte, i: nat)
    requires |keys| == 8 && i < 8 && forall j :: 0 <= j < i ==> keys[j] != keys[i]
    requires forall j :: 0 <= j < 8 ==> keys[j] < RELEASED
    ensures On(NextControls(keys, controls, code), i) <==>
              if code == keys[i] then !On(controls, i)
              else if i < 5 && code == keys[i] + RELEASED then false
              else On(controls, i)
  {
    hide On, Flag, FirstMatch, Toggled;
    var limit := if code >= RELEASED then 5 else 8;
    var key := if code >= RELEASED then code - RELEASED else code;
    if key == keys[i] && i < limit {
      FirstMatchIs(keys, key, limit, i);
    }
    var k := FirstMatch(keys, key, limit);
    if k < limit {
      OnOfCleared(controls, k, i);
      OnOfToggled(controls, k, i);
    }
  }

  /** After any scancodes a control is on exactly when its key went down an odd number of
      times: since its last release for control, alt, alt-gr and the shifts, since the
      start for the locks. */
  lemma {:induction false} ControlsCountPresses(m: Keymap, codes: seq<byte>, i: nat)
    requires m.Valid() && i < 8 && forall j :: 0 <= j < i ==> m.controlMap[j] != m.controlMap[i]
    requires forall j :: 0 <= j < 8 ==> m.controlMap[j] < RELEASED
    ensures On(ControlsAfter(m, 0, codes), i) <==> Presses(m.controlMap, i, codes) % 2 == 1
  {
    if codes == [] {
    } else {
      var front := codes[..|codes| - 1];
      ControlsCountPresses(m, front, i);
      ControlStep(m.controlMap, ControlsAfter(m, 0, front), codes[|codes| - 1], i);
    }
  }

  /** Key i went down an odd number of times. */
  predicate Odd(m: Keymap, i: nat, codes: seq<byte>)
    requires m.Valid() && i < 8
  {
    Presses(m.controlMap, i, codes) % 2 == 1
  }

  /** The control keys that decide between the two maps (control, the two shifts and caps lock)
      have codes that no control key before them has. */
  predicate Plain(m: Keymap)
    requires m.Valid()
  {
    && (forall j :: 0 <= j < 8 ==> m.controlMap[j] < RELEASED)
    && (forall j :: 0 <= j < 3 ==> m.controlMap[j] != m.controlMap[3])
    && (forall j :: 0 <= j < 4 ==> m.controlMap[j] != m.controlMap[4])
    && (forall j :: 0 <= j < 5 ==> m.controlMap[j] != m.controlMap[5])
  }

  lemma ShiftingBits(controls: bv8)
    ensures Shifting(controls) <==> (On(controls, 3) || On(controls, 4) || On(controls, 5)) && !On(controls, 0)
  {
  }

  /** What a scancode types after others: nothing if it lets a key go or is a control key; otherwise
      the character of the shifted map exactly when a shift or caps lock went down an odd
      number of times and control an even one. */
  function TypedBy(m: Keymap, codes: seq<byte>, code: byte): seq<Event>
    requires m.Valid()
  {
    if code >= 0x80 || exists j :: 0 <= j < 8 && m.controlMap[j] == code then []
    else if (Odd(m, 3, codes) || Odd(m, 4, codes) || Odd(m, 5, codes)) && !Odd(m, 0, codes)
    then [Press(m.shiftScancodes[code])]
    else [Press(m.scancodes[code])]
  }

  /** What the keyboard offers to the ring is that, after any scancodes. */
  lemma KeyTypes(m: Keymap, codes: seq<byte>, code: byte)
    requires m.Valid() && Plain(m) && code < 0x80 && forall j :: 0 <= j < 8 ==> m.controlMap[j] != code
    ensures EventOf(Offered(m, ControlsAfter(m, 0, codes), code)) == TypedBy(m, codes, code)
    ensures OfferedBy(m, 0, codes + [code]) == OfferedBy(m, 0, codes)
              + [Press(if (Odd(m, 3, codes) || Odd(m, 4, codes) || Odd(m, 5, codes)) && !Odd(m, 0, codes)
                       then m.shiftScancodes[code] else m.scancodes[code])]
  {
    hide On, Shifting, FirstMatch, NextControls, Presses;
    assert (codes + [code])[..|codes + [code]| - 1] == codes;
    var controls := ControlsAfter(m, 0, codes);
    ControlsCountPresses(m, codes, 0);
    ControlsCountPresses(m, codes, 3);
    ControlsCountPresses(m, codes, 4);
    ControlsCountPresses(m, codes, 5);
    ShiftingBits(controls);
    assert FirstMatch(m.controlMap, code, 8) == 8;
  }

  /** A control key types nothing, nor does letting any key go. */
  lemma OthersTypeNothing(m: Keymap, codes: seq<byte>, code: byte)
    requires m.Valid() && (code >= 0x80 || exists j :: 0 <= j < 8 && m.controlMap[j] == code)
    ensures Offered(m, ControlsAfter(m, 0, codes), code) == None && TypedBy(m, codes, code) == []
    ensures OfferedBy(m, 0, codes + [code]) == OfferedBy(m, 0, codes)
  {
    hide FirstMatch, NextControls, Shifting;
    assert (codes + [code])[..|codes + [code]| - 1] == codes;
    assert code < 0x80 ==> FirstMatch(m.controlMap, code, 8) < 8;
  }

  lemma CodesNext(m: Keymap, codes: seq<byte>, code: byte)
    requires m.Valid()
    ensures ControlsAfter(m, 0, codes + [code]) == NextControls(m.controlMap, ControlsAfter(m, 0, codes), code)
    ensures Plain(m) ==> EventOf(Offered(m, ControlsAfter(m, 0, codes), code)) == TypedBy(m, codes, code)
  {
    hide Offered, NextControls, TypedBy, Plain;
    assert (codes + [code])[..|codes + [code]| - 1] == codes;
    if code >= 0x80 || exists j :: 0 <= j < 8 && m.controlMap[j] == code {
      OthersTypeNothing(m, codes, code);
    } else if Plain(m) {
      KeyTypes(m, codes, code);
    }
  }

  // ---------------------------------------------------------------- the driver

  class Keyboard {
    const layout: Keymap
    var controls: bv8
    const buffer: array<byte>
    var start: int
    var end: int

    /** What has happened to the ring since the start, and the ring that leaves. */
    ghost const initial: seq<byte>
    ghost var events: seq<Event>
    ghost var ring: Ring
    /** The scancodes handled since the start. */
    ghost var codes: seq<byte>

    ghost predicate Valid()
      reads this, buffer
    {
      && layout.Valid() && buffer.Length == RING && |initial| == RING
      && controls == ControlsAfter(layout, 0, codes)
      && ring == After(initial, events, false)
      && buffer[..] == ring.buf && start == ring.start && end == ring.end
    }

    /** init_keyboard_driver, over whatever the buffer holds. */
    constructor (layout: Keymap, buffer: array<byte>)
      requires layout.Valid() && buffer.Length == RING
      ensures Valid() && this.layout == layout && this.buffer == buffer
      ensures events == [] && codes == [] && controls == 0 && ring.pc == Idle
    {
      this.layout := layout;
      this.buffer := buffer;
      controls := 0;
      start := 0;
      end := 0;
      initial := buffer[..];
      events, codes := [], [];
      ring := Init(buffer[..]);
    }

    /** The first loop of the handler: letting a key go always switches it off. */
    method LetGo(key: byte)
      requires layout.Valid()
      modifies this`controls
      ensures var i := FirstMatch(layout.controlMap, key, 5);
              controls == if i < 5 then old(controls) & !Flag(i) else old(controls)
    {
      hide Flag, FirstMatch;
      for i := 0 to 5
        invariant controls == old(controls)
        invariant forall j :: 0 <= j < i ==> layout.controlMap[j] != key
      {
        if layout.controlMap[i] == key {
          FirstMatchIs(layout.controlMap, key, 5, i);
          controls := controls & !Flag(i);
          return;
        }
      }
    }

    /** The second loop: a control key inverts its bit and offers no character. */
    method Invert(scancode: byte) returns (isControl: bool)
      requires layout.Valid()
      modifies this`controls
      ensures var i := FirstMatch(layout.controlMap, scancode, 8);
              isControl == (i < 8) && controls == if i < 8 then Toggled(old(controls), i) else old(controls)
    {
      hide Flag, FirstMatch, On;
      for i := 0 to 8
        invariant controls == old(controls)
        invariant forall j :: 0 <= j < i ==> layout.controlMap[j] != scancode
      {
        if layout.controlMap[i] == scancode {
          FirstMatchIs(layout.controlMap, scancode, 8, i);
          if On(controls, i) {
            controls := controls & !Flag(i);
          } else {
            controls := controls | Flag(i);
          }
          return true;
        }
      }
      return false;
    }

    /** The end of the handler. */
    method Store(c: byte)
      requires Valid()
      modifies this`end, this`events, this`ring, buffer
      ensures Valid() && events == old(events) + [Press(c)]
      ensures ring.pc == old(ring.pc) && ring.taken == old(ring.taken) && old(ring.accepted) <= ring.accepted
    {
      AfterOne(initial, events, Press(c));
      if !Full(start, end) {
        buffer[end] := c;
        end := end + 1;
        end := end % RING;
      }
      ring := Key(ring, c);
      events := events + [Press(c)];
    }

    /** keyboard_handler, from the scancode read to its return. */
    method Handler(scancode: byte)
      requires Valid()
      modifies this, buffer
      ensures Valid() && codes == old(codes) + [scancode]
      ensures controls == NextControls(layout.controlMap, old(controls), scancode)
      ensures events == old(events) + EventOf(Offered(layout, old(controls), scancode))
      ensures Plain(layout) ==> events == old(events) + TypedBy(layout, old(codes), scancode)
      ensures ring.pc == old(ring.pc) && ring.taken == old(ring.taken) && old(ring.accepted) <= ring.accepted
    {
      hide After, On, Flag, Shifting, FirstMatch, TypedBy, Plain, ControlsAfter;
      CodesNext(layout, codes, scancode);
      if scancode >= RELEASED {
        LetGo(scancode - RELEASED);
      } else {
        var isControl := Invert(scancode);
        if !isControl {
          var scancodes := layout.scancodes;
          if Shifting(controls) {
            scancodes := layout.shiftScancodes;
          }
          Store(scancodes[scancode]);
        }
      }
      codes := codes + [scancode];
    }

    /** Interrupts that arrive between two statements. */
    method Interrupts(codes: seq<byte>)
      requires Valid()
      modifies this, buffer
      ensures Valid() && controls == ControlsAfter(layout, old(controls), codes)
      ensures events == old(events) + OfferedBy(layout, old(controls), codes)
      ensures ring.pc == old(ring.pc) && ring.taken == old(ring.taken) && old(ring.accepted) <= ring.accepted
    {
      hide After, EventOf, OfferedBy, ControlsAfter, Offered, NextControls, TypedBy, Plain;
      NoCodes(layout, controls, codes);
      for i := 0 to |codes|
        invariant Valid() && controls == ControlsAfter(layout, old(controls), codes[..i])
        invariant events == old(events) + OfferedBy(layout, old(controls), codes[..i])
        invariant ring.pc == old(ring.pc) && ring.taken == old(ring.taken) && old(ring.accepted) <= ring.accepted
      {
        NextCode(layout, old(controls), codes, i);
        Handler(codes[i]);
      }
      assert codes[..|codes|] == codes;
    }

    /** The ghost side of one statement of getchar. */
    ghost method Statement()
      requires |initial| == RING && ring == After(initial, events, false)
      modifies this`events, this`ring
      ensures ring == Next(old(ring)) == After(initial, events, false) && events == old(events) + [Consume]
    {
      AfterOne(initial, events, Consume);
      ring := Next(ring);
      events := events + [Consume];
    }

    /** What keyboard_getchar does when the ring was not empty at the test. */
    method Take(before: seq<byte>, loaded: seq<byte>, bumped: seq<byte>) returns (c: byte)
      requires Valid() && ring.pc.Tested?
      modifies this, buffer
      ensures Valid() && ring.pc == Idle && old(events) <= events
      ensures ring.taken == old(ring.taken) + [c] && old(ring.accepted) <= ring.accepted
    {
      hide After, HoldsNext, OfferedBy, ControlsAfter, EventOf;
      RingCorrect(initial, events);
      Interrupts(before);
      RingCorrect(initial, events);
      c := buffer[start];
      Statement();
      Interrupts(loaded);
      start := start + 1;
      Statement();
      Interrupts(bumped);
      start := start % RING;
      Statement();
    }

    /** keyboard_getchar with interrupts before each of its four statements: the oldest
        accepted character that was not yet taken, or 0 when none was there at the test. */
    method GetChar(arrivals: seq<seq<byte>>) returns (c: byte)
      requires Valid() && ring.pc == Idle && |arrivals| == 4
      modifies this, buffer
      ensures Valid() && ring.pc == Idle
      ensures old(events) <= events
      ensures var atTest := After(initial, old(events) + OfferedBy(layout, old(controls), arrivals[0]), false);
              if |atTest.accepted| <= |old(ring.taken)| then c == 0 && ring.taken == old(ring.taken)
              else c == atTest.accepted[|old(ring.taken)|] && ring.taken == old(ring.taken) + [c]
    {
      hide After, HoldsNext, OfferedBy, ControlsAfter, EventOf;
      Interrupts(arrivals[0]);
      RingCorrect(initial, events);
      ghost var atTest := ring;
      Statement();
      if start != end {
        c := Take(arrivals[1], arrivals[2], arrivals[3]);
        RingCorrect(initial, events);
      } else {
        c := 0;
      }
    }
  }

  lemma NoCodes(m: Keymap, controls: bv8, codes: seq<byte>)
    requires m.Valid()
    ensures ControlsAfter(m, controls, codes[..0]) == controls && OfferedBy(m, controls, codes[..0]) == []
  {
  }

  lemma NextCode(m: Keymap, controls: bv8, codes: seq<byte>, i: nat)
    requires m.Valid() && i < |codes|
    ensures var c := ControlsAfter(m, controls, codes[..i]);
            && ControlsAfter(m, controls, codes[..i + 1]) == NextControls(m.controlMap, c, codes[i])
            && OfferedBy(m, controls, codes[..i + 1]) ==
                 OfferedBy(m, controls, codes[..i]) + EventOf(Offered(m, c, codes[i]))
  {
    hide NextControls, Offered, EventOf;
    assert codes[..i + 1][..i] == codes[..i];
  }

  lemma AfterOne(initial: seq<byte>, events: seq<Event>, e: Event)
    requires |initial| == RING
    ensures After(initial, events + [e], false) == Happen(After(initial, events, false), e, false)
  {
    hide Happen;
    assert (events + [e])[..|events + [e]| - 1] == events;
  }
}
