/** The text console of src/monitor.c: an 80 by 25 screen that scrolls in place, against an
    endless terminal that never scrolls. */
module Console {
  const WIDTH := 80
  const HEIGHT := 25
  const SCREEN := 2000

  /** C's signed char. */
  type char8 = c: int | -128 <= c < 128
  type uint16 = x: int | 0 <= x < 0x1_0000

  const BACKSPACE: char8 := 0x08
  const TAB: char8 := 0x09
  const NEWLINE: char8 := 0x0A
  const RETURN: char8 := 0x0D
  const SPACE: char8 := 0x20

  /** What monitor_clear writes, and what scroll puts into a new bottom row. */
  const CLEARED: uint16 := 0x0020
  const BLANK: uint16 := 0x0F20

  /** A printable character with the attribute byte, white on black. */
  function Glyph(c: char8): uint16
    requires c >= SPACE
  {
    0x0F00 + c
  }

  lemma GlyphIsOr(c: bv16)
    requires 0x20 <= c < 0x80
    ensures c | 0x0F00 == 0x0F00 + c
  {
  }

  function TabStop(x: int): int { x - x % 4 + 4 }

  lemma TabStopIsMask(x: bv8)
    requires x < 80
    ensures (x + 4) & !3 == x - x % 4 + 4
  {
  }

  // ---------------------------------------------------------------- the endless terminal

  /** A ribbon of cells, 80 to a row, without end. Only the written ones are recorded; the
      cursor is in column x of row y. */
  datatype Terminal = Terminal(written: map<int, uint16>, x: int, y: int) {
    predicate Valid() { 0 <= x < WIDTH && 0 <= y }

    /** The cursor's place on the ribbon. */
    function Pos(): int { WIDTH * y + x }

    function Cell(k: int): uint16 {
      if k in written then written[k] else if k < SCREEN then CLEARED else BLANK
    }

    /** The first row a 25-row window at the bottom shows. */
    function Top(): int { if y < HEIGHT then 0 else y - (HEIGHT - 1) }
  }

  const EMPTY := Terminal(map[], 0, 0)

  /** A character on the endless terminal. */
  function Typed(t: Terminal, c: char8): (n: Terminal)
    requires t.Valid()
    ensures n.Valid()
  {
    if c == BACKSPACE then Terminal(t.written, if t.x > 0 then t.x - 1 else 0, t.y)
    else if c == TAB then Wrapped(t.written, TabStop(t.x), t.y)
    else if c == RETURN then Terminal(t.written, 0, t.y)
    else if c == NEWLINE then Terminal(t.written, 0, t.y + 1)
    else if c >= SPACE then Wrapped(t.written[t.Pos() := Glyph(c)], t.x + 1, t.y)
    else t
  }

  /** A cursor that reaches column 80 goes to the start of the next row. */
  function Wrapped(written: map<int, uint16>, x: int, y: int): Terminal {
    if x >= WIDTH then Terminal(written, 0, y + 1) else Terminal(written, x, y)
  }

  function TypedAll(t: Terminal, s: seq<char8>): (n: Terminal)
    requires t.Valid()
    ensures n.Valid()
  {
    if s == [] then t else Typed(TypedAll(t, s[..|s| - 1]), s[|s| - 1])
  }

  lemma {:induction false} TypedAllJoin(t: Terminal, a: seq<char8>, b: seq<char8>)
    requires t.Valid()
    ensures TypedAll(t, a + b) == TypedAll(TypedAll(t, a), b)
  {
    if b == [] {
      assert a + b == a;
    } else {
      assert (a + b)[..|a + b| - 1] == a + b[..|b| - 1];
      TypedAllJoin(t, a, b[..|b| - 1]);
    }
  }

  lemma TypedNext(t: Terminal, s: seq<char8>, c: char8)
    requires t.Valid()
    ensures TypedAll(t, []) == t && TypedAll(t, s + [c]) == Typed(TypedAll(t, s), c)
  {
    assert (s + [c])[..|s + [c]| - 1] == s;
  }

  /** The cursor never goes up, and a row it has left is never written again. */
  lemma {:induction false} RowsAboveAreFinal(t: Terminal, s: seq<char8>, k: int)
    requires t.Valid() && k < WIDTH * t.y
    ensures TypedAll(t, s).y >= t.y && TypedAll(t, s).Cell(k) == t.Cell(k)
  {
    if s != [] {
      RowsAboveAreFinal(t, s[..|s| - 1], k);
    }
  }

  /** Printable text of any length lies on the ribbon as it was typed, from the cursor on,
      whatever rows and screens it crosses; the cursor ends after it and nothing else changes. */
  lemma {:induction false} TextIsLaidOut(t: Terminal, s: seq<char8>, k: int)
    requires t.Valid() && forall i :: 0 <= i < |s| ==> s[i] >= SPACE
    ensures TypedAll(t, s).Pos() == t.Pos() + |s|
    ensures TypedAll(t, s).Cell(k) ==
              if t.Pos() <= k < t.Pos() + |s| then 0x0F00 + s[k - t.Pos()] else t.Cell(k)
  {
    if s != [] {
      TextIsLaidOut(t, s[..|s| - 1], k);
    }
  }

  /** Lines with a newline after each. */
  function Lines(ls: seq<seq<char8>>): seq<char8> {
    if ls == [] then [] else Lines(ls[..|ls| - 1]) + ls[|ls| - 1] + ['\n' as int]
  }

  /** Printable text shorter than a row. */
  predicate Line(l: seq<char8>) {
    |l| < 80 && forall i :: 0 <= i < |l| ==> l[i] >= ' ' as int
  }

  /** Lines of printable text, each shorter than a row, lie one below the other, each from the
      start of its row; the cursor ends below the last one. */
  lemma {:induction false} LinesAreLaidOut(t: Terminal, ls: seq<seq<char8>>, j: nat, k: nat)
    requires t.Valid() && t.x == 0 && forall i :: 0 <= i < |ls| ==> Line(ls[i])
    ensures var n := TypedAll(t, Lines(ls));
            && n.x == 0 && n.y == t.y + |ls|
            && (j < |ls| && k < |ls[j]| ==> n.Cell(80 * (t.y + j) + k) == 0x0F00 + (ls[j][k] as int))
            && (j < |ls| && |ls[j]| <= k < 80 ==> n.Cell(80 * (t.y + j) + k) == t.Cell(80 * (t.y + j) + k))
            && (j >= |ls| && k < 80 ==> n.Cell(80 * (t.y + j) + k) == t.Cell(80 * (t.y + j) + k))
  {
    hide TypedAll, Typed, Terminal.Cell;
    TypedNext(t, [], ' ' as int);
    if ls != [] {
      var front, last := ls[..|ls| - 1], ls[|ls| - 1];
      LinesAreLaidOut(t, front, j, k);
      TypedAllJoin(t, Lines(front), last);
      TypedNext(t, Lines(front) + last, '\n' as int);
      NextLine(TypedAll(t, Lines(front)), last, 80 * (t.y + j) + k);
    }
  }

  lemma NextLine(t: Terminal, s: seq<char8>, k: int)
    requires t.Valid() && t.x == 0 && Line(s)
    ensures var n := Typed(TypedAll(t, s), '\n' as int);
            && n.x == 0 && n.y == t.y + 1
            && n.Cell(k) == if 80 * t.y <= k < 80 * t.y + |s| then 0x0F00 + (s[k - 80 * t.y] as int) else t.Cell(k)
  {
    hide TypedAll, Terminal.Cell;
    TextIsLaidOut(t, s, k);
    ControlsMove(TypedAll(t, s), '\n' as int);
    SameCells(TypedAll(t, s), Typed(TypedAll(t, s), '\n' as int), k);
  }

  lemma SameCells(t: Terminal, n: Terminal, k: int)
    requires n.written == t.written
    ensures n.Cell(k) == t.Cell(k)
  {
  }

  /** Return goes to the start of the row, so that what follows is written over it; backspace goes
      back one place, so that the last character can be typed again, but not out of the row;
      tab goes on to the next place of the ribbon that is a multiple of four. They write
      nothing; nor do the other characters below the blank, which do nothing at all. */
  lemma ControlsMove(t: Terminal, c: char8)
    requires t.Valid() && c < ' ' as int
    ensures Typed(t, c).written == t.written
    ensures c == '\r' as int ==> Typed(t, c).Pos() == 80 * t.y
    ensures c == 0x08 ==> Typed(t, c).Pos() == if t.Pos() % 80 == 0 then t.Pos() else t.Pos() - 1
    ensures c == '\t' as int ==> Typed(t, c).Pos() == t.Pos() - t.Pos() % 4 + 4
    ensures c == '\n' as int ==> Typed(t, c).Pos() == 80 * (t.y + 1)
    ensures c != '\r' as int && c != 0x08 && c != '\t' as int && c != '\n' as int ==> Typed(t, c) == t
  {
    PlaceInRow(t.x, t.y);
    assert t.Pos() % 80 == t.x && t.Pos() % 4 == t.x % 4;
  }

  lemma PlaceInRow(x: int, y: int)
    requires 0 <= x < 80
    ensures (80 * y + x) % 80 == x && (80 * y + x) % 4 == x % 4
  {
    assert 80 * y + x == 4 * (20 * y) + x;
  }

  /** Typing, taking back and typing again is typing once. */
  lemma Retyped(t: Terminal, c: char8, d: char8)
    requires t.Valid() && t.x < 79 && c >= ' ' as int && d >= ' ' as int
    ensures TypedAll(t, [c, 0x08, d]) == TypedAll(t, [d])
  {
    hide TypedAll, Typed;
    TypedNext(t, [], c);
    TypedNext(t, [c], 0x08);
    TypedNext(t, [c, 0x08], d);
    TypedNext(t, [], d);
    assert [] + [c] == [c] && [c] + [0x08] == [c, 0x08] && [c, 0x08] + [d] == [c, 0x08, d] && [] + [d] == [d];
    TypedOver(t, c, d);
  }

  lemma TypedOver(t: Terminal, c: char8, d: char8)
    requires t.Valid() && t.x < 79 && c >= ' ' as int && d >= ' ' as int
    ensures Typed(Typed(Typed(t, c), 0x08), d) == Typed(t, d)
  {
    var p := t.Pos();
    assert t.written[p := Glyph(c)][p := Glyph(d)] == t.written[p := Glyph(d)];
  }

  /** Cleared cells and blank ones: a space, black on black and white on black. */
  lemma BlankIs()
    ensures CLEARED == 0x20 && BLANK == 0x0F00 + ' ' as int && WIDTH == 80 && HEIGHT == 25
  {
  }

  // ---------------------------------------------------------------- the screen

  /** The screen is the 25 rows of the terminal that end with the cursor's, or its first 25. */
  ghost predicate Shows(video: seq<uint16>, x: int, y: int, t: Terminal) {
    && |video| == SCREEN && t.Valid() && x == t.x && y == t.y - t.Top()
    && forall i :: 0 <= i < SCREEN ==> video[i] == t.Cell(WIDTH * t.Top() + i)
  }

  /** The screen holds rows top to top + 24 of the ribbon. */
  ghost predicate Window(video: seq<uint16>, t: Terminal, top: int) {
    |video| == SCREEN && forall i :: 0 <= i < SCREEN ==> video[i] == t.Cell(WIDTH * top + i)
  }

  lemma WindowShows(video: seq<uint16>, x: int, y: int, t: Terminal)
    requires t.Valid() && Window(video, t, t.Top()) && x == t.x && y == t.y - t.Top()
    ensures Shows(video, x, y, t)
  {
  }

  /** Nothing is written below the cursor's row. */
  ghost predicate Untouched(t: Terminal) {
    forall k :: k in t.written ==> k < WIDTH * (t.y + 1)
  }

  /** One character moves the window's contents as monitor_put does, with the window still
      where it was; at most one row is then missing, and it is blank. */
  lemma TypedInWindow(v: seq<uint16>, t: Terminal, c: char8)
    requires t.Valid() && Window(v, t, t.Top()) && Untouched(t)
    ensures var n, at := Typed(t, c), WIDTH * (t.y - t.Top()) + t.x;
            && 0 <= at < SCREEN
            && Window(if c >= SPACE then v[at := Glyph(c)] else v, n, t.Top()) && Untouched(n)
            && t.y <= n.y <= t.y + 1 && (n.y > t.y ==> BlankFrom(n, WIDTH * n.y))
            && (n.y - t.Top() < HEIGHT ==> n.Top() == t.Top())
  {
    var n, at := Typed(t, c), WIDTH * (t.y - t.Top()) + t.x;
    assert WIDTH * t.Top() + at == t.Pos();
    var w := if c >= SPACE then v[at := Glyph(c)] else v;
    forall i | 0 <= i < SCREEN ensures w[i] == n.Cell(WIDTH * t.Top() + i) {
      assert v[i] == t.Cell(WIDTH * t.Top() + i);
    }
  }

  /** No written cell from place k on. */
  ghost predicate BlankFrom(t: Terminal, k: int) {
    forall j :: j in t.written ==> j < k
  }

  /** Moving the screen up a row and blanking the last one moves the window down a row. */
  lemma ScrolledWindow(v: seq<uint16>, w: seq<uint16>, t: Terminal, top: int)
    requires Window(v, t, top) && |w| == SCREEN && 0 <= top && BlankFrom(t, WIDTH * (top + HEIGHT))
    requires forall i :: 0 <= i < SCREEN - WIDTH ==> w[i] == v[i + WIDTH]
    requires forall i :: SCREEN - WIDTH <= i < SCREEN ==> w[i] == BLANK
    ensures Window(w, t, top + 1)
  {
    forall i | 0 <= i < SCREEN ensures w[i] == t.Cell(WIDTH * (top + 1) + i) {
      if i < SCREEN - WIDTH {
        assert v[i + WIDTH] == t.Cell(WIDTH * top + (i + WIDTH));
      }
    }
  }

  /** What monitor_put does to the screen v with the cursor in column x of row y, before it scrolls:
      the screen w, and the cursor in column x' of row y', which may be the row below the last. */
  ghost predicate Lands(v: seq<uint16>, x: int, y: int, c: char8, w: seq<uint16>, x': int, y': int) {
    && |v| == |w| == 2000 && 0 <= x < 80 && 0 <= y < 25
    && (c == 0x08 ==> w == v && x' == (if x > 0 then x - 1 else 0) && y' == y)
    && (c == '\r' as int ==> w == v && x' == 0 && y' == y)
    && (c == '\n' as int ==> w == v && x' == 0 && y' == y + 1)
    && (c == '\t' as int ==> w == v && if x < 76 then x' == x - x % 4 + 4 && y' == y else x' == 0 && y' == y + 1)
    && (c >= ' ' as int ==>
          && w == v[80 * y + x := 0x0F00 + c]
          && if x < 79 then x' == x + 1 && y' == y else x' == 0 && y' == y + 1)
    && (c < ' ' as int && c != 0x08 && c != '\r' as int && c != '\n' as int && c != '\t' as int ==>
          w == v && x' == x && y' == y)
  }

  /** And then: if the cursor is below the last row all rows move up, and the last one is blank. */
  ghost predicate Scrolls(v: seq<uint16>, y: int, w: seq<uint16>, y': int) {
    if y < 25 then w == v && y' == y
    else |w| == |v| == 2000 && y' == 24 && forall i :: 0 <= i < 2000 ==> w[i] == if i < 1920 then v[i + 80] else 0x0F20
  }

  /** Where a character leaves the cursor does not depend on what is written. */
  lemma TypedAnywhere(t: Terminal, x: int, y: int, c: char8)
    requires t.Valid() && x == t.x && 0 <= y
    ensures var n := Typed(Terminal(map[], x, y), c); n.x == Typed(t, c).x && n.y - y == Typed(t, c).y - t.y
  {
  }

  class Console {
    const video: array<uint16>
    var x: int
    var y: int
    ghost var term: Terminal

    ghost predicate Valid()
      reads this, video
    {
      Shows(video[..], x, y, term) && Untouched(term)
    }

    constructor (video: array<uint16>)
      ensures this.video == video && x == 0 && y == 0
    {
      this.video := video;
      x := 0;
      y := 0;
      term := EMPTY;
    }

    /** monitor_clear, over any screen and any cursor. */
    method Clear()
      requires video.Length == SCREEN
      modifies this, video
      ensures Valid() && term == EMPTY
    {
      for i := 0 to SCREEN
        invariant forall j :: 0 <= j < i ==> video[j] == CLEARED
      {
        video[i] := CLEARED;
      }
      x := 0;
      y := 0;
      term := EMPTY;
    }

    /** The two loops of scroll. */
    method MoveRows()
      requires video.Length == SCREEN
      modifies video
      ensures forall i :: 0 <= i < SCREEN - WIDTH ==> video[i] == old(video[i + WIDTH])
      ensures forall i :: SCREEN - WIDTH <= i < SCREEN ==> video[i] == BLANK
    {
      for i := 0 to (HEIGHT - 1) * WIDTH
        invariant forall j :: 0 <= j < i ==> video[j] == old(video[j + WIDTH])
        invariant forall j :: i <= j < SCREEN ==> video[j] == old(video[j])
      {
        video[i] := video[i + WIDTH];
      }
      for i := (HEIGHT - 1) * WIDTH to WIDTH * HEIGHT
        invariant forall j :: 0 <= j < (HEIGHT - 1) * WIDTH ==> video[j] == old(video[j + WIDTH])
        invariant forall j :: (HEIGHT - 1) * WIDTH <= j < i ==> video[j] == BLANK
      {
        video[i] := BLANK;
      }
    }

    /** scroll: when the cursor has left the bottom row, every row moves up one. */
    method Scroll(ghost t: Terminal)
      requires video.Length == SCREEN && t.Valid() && x == t.x && 0 <= y <= HEIGHT && y <= t.y
      requires Window(video[..], t, t.y - y) && (y < HEIGHT ==> t.y - y == t.Top())
      requires y == HEIGHT ==> BlankFrom(t, WIDTH * t.y)
      modifies this`y, video
      ensures Shows(video[..], x, y, t) && Scrolls(old(video[..]), old(y), video[..], y)
    {
      hide Window, BlankFrom;
      if y >= HEIGHT {
        ghost var v := video[..];
        MoveRows();
        ScrolledWindow(v, video[..], t, t.y - y);
        y := HEIGHT - 1;
      }
      WindowShows(video[..], x, y, t);
    }

    /** The cases of monitor_put, and the wrap at the end of a row. */
    method Move(c: char8)
      requires video.Length == SCREEN && 0 <= x < WIDTH && 0 <= y < HEIGHT
      modifies this`x, this`y, video
      ensures Lands(old(video[..]), old(x), old(y), c, video[..], x, y)
      ensures video[..] == (if c >= SPACE then old(video[..])[old(y) * WIDTH + old(x) := Glyph(c)] else old(video[..]))
      ensures var t := Typed(Terminal(map[], old(x), old(y)), c); x == t.x && y == t.y
    {
      if c == BACKSPACE && x > 0 {
        x := x - 1;
      } else if c == TAB {
        x := TabStop(x);
      } else if c == RETURN {
        x := 0;
      } else if c == NEWLINE {
        y := y + 1;
        x := 0;
      } else if c >= SPACE {
        video[y * WIDTH + x] := Glyph(c);
        x := x + 1;
      }
      if x >= WIDTH {
        y := y + 1;
        x := 0;
      }
    }

    /** monitor_put */
    method Put(c: char8)
      requires Valid()
      modifies this, video
      ensures Valid() && term == Typed(old(term), c)
      ensures 0 <= x < WIDTH && 0 <= y < HEIGHT
      ensures exists v: seq<uint16>, row ::
                Lands(old(video[..]), old(x), old(y), c, v, x, row) && Scrolls(v, row, video[..], y)
    {
      hide Window, Untouched, BlankFrom, Lands, Scrolls, Typed;
      ghost var before := term;
      TypedInWindow(video[..], before, c);
      TypedAnywhere(before, x, y, c);
      Move(c);
      ghost var v, row := video[..], y;
      term := Typed(before, c);
      Scroll(term);
      assert Lands(old(video[..]), old(x), old(y), c, v, x, row);
    }

    /** monitor_write: up to the terminating zero. */
    method Write(s: seq<char8>)
      requires Valid() && 0 in s
      modifies this, video
      ensures Valid() && term == TypedAll(old(term), BeforeNul(s))
    {
      var i := 0;
      while s[i] != 0
        invariant 0 <= i < |s| && 0 !in s[..i] && 0 in s[i..]
        invariant Valid() && term == TypedAll(old(term), s[..i])
        decreases |s| - i
      {
        TypedNext(old(term), s[..i], s[i]);
        assert s[..i + 1] == s[..i] + [s[i]];
        Put(s[i]);
        i := i + 1;
      }
      NulAt(s, i);
    }
  }

  /** A C string without its terminator. */
  function BeforeNul(s: seq<char8>): (r: seq<char8>)
    ensures r <= s && 0 !in r && (0 in s ==> |r| < |s| && s[|r|] == 0)
  {
    if s == [] || s[0] == 0 then [] else [s[0]] + BeforeNul(s[1..])
  }

  lemma {:induction false} NulAt(s: seq<char8>, i: nat)
    requires i < |s| && s[i] == 0 && 0 !in s[..i]
    ensures BeforeNul(s) == s[..i]
  {
    if i > 0 {
      assert s[0] in s[..i];
      assert s[..i][1..] == s[1..][..i - 1];
      NulAt(s[1..], i - 1);
    }
  }
}
