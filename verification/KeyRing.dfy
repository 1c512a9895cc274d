/** The keyboard ring of src/keyboard.c under interrupts: getchar statement by statement,
    with the handler free to run, as one atomic step, before each of them. */
module KeyRing {
  import opened Machine

  const RING := 256

  /** Where getchar stands: outside, past the test, past the load of a character, past the
      increment of the start index (which is then 1..256 until it is masked). */
  datatype Pc = Idle | Tested | Loaded(c: byte) | Bumped(c: byte)

  /** accepted are the keys put into the ring, taken those getchar has taken out. */
  datatype Ring = Ring(buf: seq<byte>, start: int, end: int, pc: Pc, accepted: seq<byte>, taken: seq<byte>)

  function Init(buf: seq<byte>): Ring {
    Ring(buf, 0, 0, Idle, [], [])
  }

  /** No room: 255 keys are unread. */
  predicate Full(start: int, end: int) { end == (start + RING - 1) % RING }

  /** Line 289 as written: start - 1 in 32 bits. */
  predicate TextFull(start: int, end: int) { end == Wrap(start - 1) }

  /** The end of keyboard_handler: a character is stored or dropped. */
  function Push(r: Ring, c: byte): Ring
    requires |r.buf| == RING && 0 <= r.end < RING
  {
    Ring(r.buf[r.end := c], r.start, (r.end + 1) % RING, r.pc, r.accepted + [c], r.taken)
  }

  function Key(r: Ring, c: byte): Ring
    requires |r.buf| == RING && 0 <= r.end < RING
  {
    if Full(r.start, r.end) then r else Push(r, c)
  }

  function TextKey(r: Ring, c: byte): Ring
    requires |r.buf| == RING && 0 <= r.end < RING
  {
    if TextFull(r.start, r.end) then r else Push(r, c)
  }

  /** The next statement of keyboard_getchar. */
  function Next(r: Ring): Ring
    requires |r.buf| == RING && 0 <= r.start <= RING && (r.start == RING ==> r.pc.Bumped?)
  {
    match r.pc
    case Idle => if r.start != r.end then r.(pc := Tested) else r
    case Tested => r.(pc := Loaded(r.buf[r.start]))
    case Loaded(c) => Ring(r.buf, r.start + 1, r.end, Bumped(c), r.accepted, r.taken + [c])
    case Bumped(c) => r.(start := r.start % RING, pc := Idle)
  }

  // ---------------------------------------------------------------- the invariant

  function Unread(r: Ring): int { (r.end - r.start) % RING }

  /** The slot that is read after k more characters. */
  function Slot(start: int, k: int): (i: int)
    ensures 0 <= i < RING
  {
    (start + k) % RING
  }

  /** The k-th unread slot holds the k-th accepted key that has not been taken. */
  ghost predicate HoldsNext(r: Ring, k: int) {
    0 <= |r.taken| + k < |r.accepted| && |r.buf| == RING
    && r.buf[Slot(r.start, k)] == r.accepted[|r.taken| + k]
  }

  /** The unread part of the ring is the accepted keys that have not been taken, in order. */
  ghost predicate Inv(r: Ring) {
    && |r.buf| == RING && 0 <= r.start <= RING && 0 <= r.end < RING
    && (r.start == RING ==> r.pc.Bumped?)
    && |r.accepted| == |r.taken| + Unread(r) && r.taken <= r.accepted
    && (forall k :: 0 <= k < Unread(r) ==> HoldsNext(r, k))
    && (r.pc.Tested? || r.pc.Loaded? ==> Unread(r) > 0)
    && (r.pc.Loaded? ==> r.pc.c == r.buf[r.start])
  }

  lemma SlotNotEnd(start: int, end: int, k: int)
    requires 0 <= start <= RING && 0 <= end < RING && 0 <= k < (end - start) % RING
    ensures Slot(start, k) != end
  {
  }

  lemma PushCounts(start: int, end: int)
    requires 0 <= start <= RING && 0 <= end < RING
    ensures Full(start, end) <==> (end - start) % RING == RING - 1
    ensures !Full(start, end) ==> ((end + 1) % RING - start) % RING == (end - start) % RING + 1
    ensures Slot(start, (end - start) % RING) == end
  {
  }

  lemma PushKeeps(r: Ring, c: byte)
    requires Inv(r) && !Full(r.start, r.end)
    ensures Inv(Push(r, c)) && Unread(Push(r, c)) == Unread(r) + 1
  {
    hide Slot, Full, HoldsNext;
    var p := Push(r, c);
    assert Unread(p) == Unread(r) + 1 by { PushCounts(r.start, r.end); }
    forall k | 0 <= k < Unread(p) ensures HoldsNext(p, k) {
      PushHolds(r, c, k);
    }
    assert r.pc.Loaded? ==> r.start != r.end;
  }

  lemma PushHolds(r: Ring, c: byte, k: int)
    requires Inv(r) && !Full(r.start, r.end) && 0 <= k <= Unread(r)
    ensures HoldsNext(Push(r, c), k)
  {
    hide Slot, Full;
    PushCounts(r.start, r.end);
    if k < Unread(r) {
      SlotNotEnd(r.start, r.end, k);
      assert HoldsNext(r, k);
    } else {
      assert Slot(r.start, k) == r.end;
      assert Push(r, c).accepted[|r.taken| + k] == c;
    }
  }

  lemma KeyKeeps(r: Ring, c: byte)
    requires Inv(r)
    ensures Inv(Key(r, c))
    ensures Key(r, c).accepted == r.accepted <==> Unread(r) == RING - 1
  {
    hide Inv;
    assert Full(r.start, r.end) <==> Unread(r) == RING - 1 by { InvBounds(r); PushCounts(r.start, r.end); }
    if !Full(r.start, r.end) {
      InvBounds(r);
      PushKeeps(r, c);
    }
  }

  lemma InvBounds(r: Ring)
    requires Inv(r)
    ensures |r.buf| == RING && 0 <= r.start <= RING && 0 <= r.end < RING
  {
  }

  /** A step of getchar adds nothing; the step that counts takes the oldest unread key. */
  lemma NextKeeps(r: Ring)
    requires Inv(r)
    ensures Inv(Next(r)) && Next(r).accepted == r.accepted
  {
    hide Slot, HoldsNext, Inv, Next;
    if r.pc.Loaded? {
      TakeKeeps(r);
    } else {
      StayKeeps(r);
    }
  }

  /** The steps that take nothing. */
  lemma StayKeeps(r: Ring)
    requires Inv(r) && !r.pc.Loaded?
    ensures Inv(Next(r)) && Next(r).accepted == r.accepted
  {
    hide Slot, HoldsNext;
    var n := Next(r);
    assert Unread(n) == Unread(r);
    forall k | 0 <= k < Unread(n) ensures HoldsNext(n, k) {
      assert HoldsNext(r, k);
      SameHolds(r, n, k);
    }
  }

  /** The increment of the start index. */
  lemma TakeKeeps(r: Ring)
    requires Inv(r) && r.pc.Loaded?
    ensures Inv(Next(r)) && Next(r).accepted == r.accepted
  {
    hide Slot, HoldsNext;
    var n := Next(r);
    assert Unread(n) == Unread(r) - 1;
    assert HoldsNext(r, 0);
    FirstHeld(r);
    forall k | 0 <= k < Unread(n) ensures HoldsNext(n, k) {
      assert HoldsNext(r, k + 1);
      TakenHolds(r, n, k);
    }
  }

  lemma SameHolds(r: Ring, n: Ring, k: int)
    requires HoldsNext(r, k) && n.buf == r.buf && n.accepted == r.accepted && n.taken == r.taken
    requires 0 <= r.start <= RING && (n.start == r.start || n.start == r.start % RING)
    ensures HoldsNext(n, k)
  {
    assert Slot(n.start, k) == Slot(r.start, k);
  }

  lemma TakenHolds(r: Ring, n: Ring, k: int)
    requires HoldsNext(r, k + 1) && n.buf == r.buf && n.accepted == r.accepted
    requires |n.taken| == |r.taken| + 1 && n.start == r.start + 1
    ensures HoldsNext(n, k)
  {
  }

  lemma FirstHeld(r: Ring)
    requires HoldsNext(r, 0) && 0 <= r.start < RING && r.taken <= r.accepted
    ensures r.taken + [r.buf[r.start]] <= r.accepted
  {
  }

  // ---------------------------------------------------------------- every interleaving

  datatype Event = Press(c: byte) | Consume

  /** Enough for every step to be defined, whatever it does to the keys. */
  predicate Shape(r: Ring) {
    |r.buf| == RING && 0 <= r.start <= RING && 0 <= r.end < RING && (r.start == RING ==> r.pc.Bumped?)
  }

  function Happen(r: Ring, e: Event, text: bool): (n: Ring)
    requires Shape(r)
    ensures Shape(n)
  {
    match e
    case Press(c) => if text then TextKey(r, c) else Key(r, c)
    case Consume => Next(r)
  }

  /** The ring after an interleaving of key presses and statements of getchar, from the
      empty ring init_keyboard_driver leaves; text says which full test the handler makes. */
  function After(buf: seq<byte>, events: seq<Event>, text: bool): (r: Ring)
    requires |buf| == RING
    ensures Shape(r)
  {
    if events == [] then Init(buf)
    else Happen(After(buf, events[..|events| - 1], text), events[|events| - 1], text)
  }

  /** Under every interleaving the characters taken are the accepted ones, in order and
      each once, and at most 255 wait. */
  lemma {:induction false} RingCorrect(buf: seq<byte>, events: seq<Event>)
    requires |buf| == RING
    ensures var r := After(buf, events, false);
            Inv(r) && r.taken <= r.accepted && |r.accepted| - |r.taken| == Unread(r) <= RING - 1
  {
    if events != [] {
      var front := events[..|events| - 1];
      RingCorrect(buf, front);
      match events[|events| - 1]
      case Press(c) => KeyKeeps(After(buf, front, false), c);
      case Consume => NextKeeps(After(buf, front, false));
    }
  }

  /** A press at any point of any interleaving is dropped exactly when 255 keys are unread,
      and otherwise is the last accepted key; a statement of getchar accepts nothing. */
  lemma DroppedIffFull(buf: seq<byte>, events: seq<Event>, e: Event)
    requires |buf| == RING
    ensures var r := After(buf, events, false);
            After(buf, events + [e], false).accepted ==
              if e.Consume? || |r.accepted| - |r.taken| == RING - 1 then r.accepted else r.accepted + [e.c]
  {
    RingCorrect(buf, events);
    var r := After(buf, events, false);
    assert (events + [e])[..|events + [e]| - 1] == events;
    match e
    case Press(c) => KeyKeeps(r, c);
    case Consume => NextKeeps(r);
  }

  // ---------------------------------------------------------------- the text of line 289

  /** The written test is the right one except when start is 0 and the ring is full. */
  lemma TextFullIff(start: int, end: int)
    requires 0 <= start <= RING && 0 <= end < RING
    ensures (TextFull(start, end) <==> Full(start, end)) <==> !(start == 0 && end == RING - 1)
  {
  }

  /** So the text keeps the ring right exactly when it is not in that state. */
  lemma TextKeyIff(r: Ring, c: byte)
    requires Inv(r)
    ensures Inv(TextKey(r, c)) <==> !(r.start == 0 && r.end == RING - 1)
  {
    TextFullIff(r.start, r.end);
    if !(r.start == 0 && r.end == RING - 1) {
      KeyKeeps(r, c);
    }
  }

  predicate PressWhenFull(buf: seq<byte>, events: seq<Event>, n: nat)
    requires |buf| == RING && n < |events|
  {
    var r := After(buf, events[..n], true);
    events[n].Press? && r.start == 0 && r.end == RING - 1
  }

  /** With the written test a run stays right for as long as, and only as long as, no key
      is pressed in that state. */
  lemma {:induction false} TextRunIff(buf: seq<byte>, events: seq<Event>)
    requires |buf| == RING
    ensures (forall n :: 0 <= n <= |events| ==> Inv(After(buf, events[..n], true))) <==>
            (forall n :: 0 <= n < |events| ==> !PressWhenFull(buf, events, n))
  {
    if forall n :: 0 <= n < |events| ==> !PressWhenFull(buf, events, n) {
      forall n | 0 <= n <= |events| ensures Inv(After(buf, events[..n], true)) {
        TextRunKept(buf, events, n);
      }
    } else {
      var n :| 0 <= n < |events| && PressWhenFull(buf, events, n);
      if Inv(After(buf, events[..n], true)) {
        TextStep(buf, events, n);
        assert !Inv(After(buf, events[..n + 1], true));
      }
    }
  }

  lemma TextHappen(r: Ring, e: Event)
    requires Inv(r)
    ensures Inv(Happen(r, e, true)) <==> !(e.Press? && r.start == 0 && r.end == RING - 1)
  {
    match e
    case Press(c) => TextKeyIff(r, c);
    case Consume => NextKeeps(r);
  }

  lemma AfterNext(buf: seq<byte>, events: seq<Event>, n: nat, text: bool)
    requires |buf| == RING && n < |events|
    ensures After(buf, events[..n + 1], text) == Happen(After(buf, events[..n], text), events[n], text)
  {
    hide Happen;
    var upTo := events[..n + 1];
    assert upTo[..|upTo| - 1] == events[..n] && upTo[|upTo| - 1] == events[n];
  }

  lemma TextStep(buf: seq<byte>, events: seq<Event>, n: nat)
    requires |buf| == RING && n < |events| && Inv(After(buf, events[..n], true))
    ensures Inv(After(buf, events[..n + 1], true)) <==> !PressWhenFull(buf, events, n)
  {
    hide Inv, Happen, After;
    AfterNext(buf, events, n, true);
    TextHappen(After(buf, events[..n], true), events[n]);
  }

  lemma {:induction false} TextRunKept(buf: seq<byte>, events: seq<Event>, n: nat)
    requires |buf| == RING && n <= |events|
    requires forall i :: 0 <= i < |events| ==> !PressWhenFull(buf, events, i)
    ensures Inv(After(buf, events[..n], true))
  {
    if n > 0 {
      TextRunKept(buf, events, n - 1);
      TextStep(buf, events, n - 1);
    }
  }

  function PressEvents(cs: seq<byte>): seq<Event> {
    seq(|cs|, i requires 0 <= i < |cs| => Press(cs[i]))
  }

  lemma TypedStep(r: Ring, c: byte)
    requires |r.buf| == RING && r.start == 0 && 0 <= r.end < RING
    ensures TextKey(r, c) == Push(r, c)
  {
    hide Push;
  }

  /** The state is reached: no key typed before the first is read is refused. */
  lemma {:induction false} TypedState(buf: seq<byte>, cs: seq<byte>)
    requires |buf| == RING && |cs| <= RING
    ensures var r := After(buf, PressEvents(cs), true);
            r.start == 0 && r.end == |cs| % RING && r.pc == Idle && r.accepted == cs && r.taken == []
  {
    hide TextKey;
    if cs != [] {
      var front, c := cs[..|cs| - 1], cs[|cs| - 1];
      TypedState(buf, front);
      TypedStep(After(buf, PressEvents(front), true), c);
      assert PressEvents(cs)[..|PressEvents(cs)| - 1] == PressEvents(front);
      assert Happen(After(buf, PressEvents(front), true), Press(c), true)
        == TextKey(After(buf, PressEvents(front), true), c);
      assert front + [c] == cs;
    }
  }

  /** So 256 keys typed before the first is read are all accepted and all lost: getchar
      finds the ring empty. */
  lemma TextLosesAll(buf: seq<byte>, cs: seq<byte>)
    requires |buf| == RING && |cs| == RING
    ensures var r := After(buf, PressEvents(cs), true);
            r.accepted == cs && r.taken == [] && r.pc == Idle && r.start == r.end && Next(r) == r
  {
    TypedState(buf, cs);
  }
}
