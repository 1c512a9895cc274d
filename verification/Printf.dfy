/** vprintf of src/printf.c over the console. */
module Printf {
  import opened Machine
  import opened Console
  import opened Numerals

  const PERCENT: char8 := 0x25
  const LETTER_C: char8 := 0x63
  const LETTER_S: char8 := 0x73
  const LETTER_D: char8 := 0x64
  const LETTER_U: char8 := 0x75
  const LETTER_X: char8 := 0x78

  /** One value of the argument list: a 32-bit word, or a pointer with the memory it points to. */
  datatype Arg = Word(w: uint32) | Str(memory: seq<char8>)

  /** Text is what is emitted. C leaves the other two undefined: no argument of the kind the
      directive reads, and reading past the memory given. */
  datatype Output = Text(s: seq<char8>) | NoArgument | PastEnd

  function Prepend(s: seq<char8>, o: Output): Output {
    if o.Text? then Text(s + o.s) else o
  }

  /** The conversion of an int to a char. */
  function LowChar(w: uint32): (c: char8)
    ensures (c - w) % 256 == 0
  {
    if w % 256 < 128 then w % 256 else w % 256 - 256
  }

  predicate IsDirective(d: char8) {
    d == LETTER_C || d == LETTER_S || d == LETTER_D || d == LETTER_U || d == LETTER_X
  }

  predicate Accepts(d: char8, arg: Arg)
    requires IsDirective(d)
  {
    if d == LETTER_S then arg.Str? && 0 in arg.memory else arg.Word?
  }

  /** What a directive shows of its argument. */
  function Shown(d: char8, arg: Arg): seq<char8>
    requires IsDirective(d) && Accepts(d, arg)
  {
    if d == LETTER_S then BeforeNul(arg.memory)
    else if d == LETTER_C then [LowChar(arg.w)]
    else if d == LETTER_D then SignedNumeral(Signed(arg.w))
    else if d == LETTER_U then Numeral(arg.w, 10)
    else Numeral(arg.w, 16)
  }

  /** What each directive has to show, whatever makes it: for %c the character, for %s the string,
      for %d a signed decimal numeral that reads back as the word's signed value, for %u and %x
      the decimal and the hexadecimal numeral without leading zeros that read back as the word. */
  ghost predicate Shows(d: char, arg: Arg, s: seq<char8>) {
    match d
    case 'c' => arg.Word? && |s| == 1 && (s[0] - arg.w) % 256 == 0
    case 's' => arg.Str? && s <= arg.memory && |s| < |arg.memory| && arg.memory[|s|] == 0 && 0 !in s
    case 'd' =>
      && arg.Word? && ParseSigned(s) == Signed(arg.w)
      && Canonical(if Signed(arg.w) < 0 then Tail(s) else s, 10)
    case 'u' => arg.Word? && Canonical(s, 10) && Parse(s, 10) == arg.w
    case 'x' => arg.Word? && Canonical(s, 16) && Parse(s, 16) == arg.w
    case _ => false
  }

  function Tail(s: seq<char8>): seq<char8> { if s == [] then [] else s[1..] }

  /** And it does: the letters are those of printf. */
  lemma ShownIs(d: char, arg: Arg)
    requires d as int < 128
    ensures IsDirective(d as int) <==> d in "csdux"
    ensures IsDirective(d as int) ==>
              (Accepts(d as int, arg) <==> if d == 's' then arg.Str? && 0 in arg.memory else arg.Word?)
    ensures IsDirective(d as int) && Accepts(d as int, arg) ==> Shows(d, arg, Shown(d as int, arg))
  {
    hide Canonical, Parse, ParseSigned, Numeral, SignedNumeral;
    if d == 'd' && arg.Word? {
      SignedParses(Signed(arg.w));
      assert SignedNumeral(Signed(arg.w)) != [] by { NotEmpty(Signed(arg.w)); }
    } else if d == 'u' && arg.Word? {
      NumeralParses(arg.w, 10);
    } else if d == 'x' && arg.Word? {
      NumeralParses(arg.w, 16);
    }
  }

  lemma NotEmpty(i: int)
    ensures SignedNumeral(i) != []
  {
  }

  /** What a format shows, read from memory that starts at the format. */
  function Formatted(fmt: seq<char8>, args: seq<Arg>): Output
    decreases |fmt|
  {
    if fmt == [] then PastEnd
    else if fmt[0] == 0 then Text([])
    else if fmt[0] != PERCENT then Prepend([fmt[0]], Formatted(fmt[1..], args))
    else if |fmt| == 1 then PastEnd
    else if !IsDirective(fmt[1]) then Prepend([fmt[1]], Formatted(fmt[2..], args))
    else if args == [] || !Accepts(fmt[1], args[0]) then NoArgument
    else Prepend(Shown(fmt[1], args[0]), Formatted(fmt[2..], args[1..]))
  }

  /** A format without a percent sign shows itself. */
  lemma {:induction false} PlainFormat(s: seq<char8>, rest: seq<char8>, args: seq<Arg>)
    requires 0 !in s && '%' as int !in s
    ensures Formatted(s + [0] + rest, args) == Text(s)
  {
    var all := s + [0] + rest;
    if s != [] {
      assert all[1..] == s[1..] + [0] + rest;
      PlainFormat(s[1..], rest, args);
    }
  }

  /** A percent sign and a letter: a directive shows its argument as it has to and goes on with the
      next one; any other character shows itself. */
  lemma FormattedDirective(d: char, arg: Arg, args: seq<Arg>, rest: seq<char8>) returns (s: seq<char8>)
    requires d as int < 128 && (d in "csdux" ==> if d == 's' then arg.Str? && 0 in arg.memory else arg.Word?)
    ensures d in "csdux" ==> Shows(d, arg, s)
    ensures d in "csdux" ==>
              Formatted(['%' as int, d as int] + rest, [arg] + args) == Prepend(s, Formatted(rest, args))
    ensures d !in "csdux" ==>
              Formatted(['%' as int, d as int] + rest, args) == Prepend([d as int], Formatted(rest, args))
  {
    hide Shown, Shows, Accepts, IsDirective;
    ShownIs(d, arg);
    var fmt := ['%' as int, d as int] + rest;
    assert fmt[2..] == rest && ([arg] + args)[1..] == args;
    s := if d in "csdux" then Shown(d as int, arg) else [];
  }

  /** A format of one directive shows what it has to, and that is all. */
  lemma OneDirective(fmt: seq<char8>, args: seq<Arg>)
    requires |fmt| >= 3 && fmt[0] == '%' as int && 0 <= fmt[1] && fmt[1] as char in "csdux" && fmt[2] == 0
    requires Formatted(fmt, args).Text?
    ensures args != [] && Shows(fmt[1] as char, args[0], Formatted(fmt, args).s)
  {
    hide Shown, Shows, Accepts, IsDirective;
    var d := fmt[1] as char;
    assert fmt == ['%' as int, d as int] + fmt[2..] && fmt[2..] == [0] + fmt[3..];
    ShownIs(d, if args == [] then Word(0) else args[0]);
    assert Formatted(fmt[2..], if args == [] then [] else args[1..]) == Text([]);
    assert Shown(fmt[1], args[0]) + [] == Shown(fmt[1], args[0]);
  }

  // ---------------------------------------------------------------- where a format ends

  /** The format ends in the middle of a directive. */
  predicate EndsInside(body: seq<char8>) {
    if body == [] then false
    else if body[0] != PERCENT then EndsInside(body[1..])
    else if |body| == 1 then true
    else EndsInside(body[2..])
  }

  /** The length of the run of percent signs at the end. */
  function Percents(body: seq<char8>): nat {
    if body == [] || body[|body| - 1] != PERCENT then 0 else Percents(body[..|body| - 1]) + 1
  }

  /** What the body shows, and the arguments it leaves; PastEnd stands for a body that ends
      inside a directive. */
  function Body(body: seq<char8>, args: seq<Arg>): (Output, seq<Arg>)
    decreases |body|
  {
    if body == [] then (Text([]), args)
    else if body[0] != PERCENT then
      var (o, left) := Body(body[1..], args);
      (Prepend([body[0]], o), left)
    else if |body| == 1 then (PastEnd, args)
    else if !IsDirective(body[1]) then
      var (o, left) := Body(body[2..], args);
      (Prepend([body[1]], o), left)
    else if args == [] || !Accepts(body[1], args[0]) then (NoArgument, args)
    else
      var (o, left) := Body(body[2..], args[1..]);
      (Prepend(Shown(body[1], args[0]), o), left)
  }

  /** A body that does not end inside a directive is formatted on its own, and what follows
      it on its own, with the arguments the body leaves. */
  lemma {:induction false} FormatsJoin(body: seq<char8>, rest: seq<char8>, args: seq<Arg>)
    requires 0 !in body && !EndsInside(body)
    ensures var (o, left) := Body(body, args);
            o != PastEnd && Formatted(body + rest, args) == if o.Text? then Prepend(o.s, Formatted(rest, left)) else o
    decreases |body|
  {
    hide Shown, Accepts, IsDirective;
    var all := body + rest;
    if body == [] {
      assert all == rest;
    } else if body[0] != PERCENT {
      assert all[1..] == body[1..] + rest;
      FormatsJoin(body[1..], rest, args);
      if Body(body[1..], args).0.Text? {
        PrependJoin([body[0]], Body(body[1..], args), rest);
      }
    } else {
      assert all[2..] == body[2..] + rest;
      if !IsDirective(body[1]) {
        FormatsJoin(body[2..], rest, args);
        if Body(body[2..], args).0.Text? {
          PrependJoin([body[1]], Body(body[2..], args), rest);
        }
      } else if args != [] && Accepts(body[1], args[0]) {
        FormatsJoin(body[2..], rest, args[1..]);
        if Body(body[2..], args[1..]).0.Text? {
          PrependJoin(Shown(body[1], args[0]), Body(body[2..], args[1..]), rest);
        }
      }
    }
  }

  lemma PrependJoin(s: seq<char8>, body: (Output, seq<Arg>), rest: seq<char8>)
    requires body.0.Text?
    ensures Prepend(s, Prepend(body.0.s, Formatted(rest, body.1))) == Prepend(s + body.0.s, Formatted(rest, body.1))
  {
  }

  /** A format of characters other than zero, then its terminator. With arguments of the
      kinds it asks for, and no other memory, it is formatted exactly when the run of percent
      signs at its end is even; then whatever memory follows the terminator is irrelevant. */
  lemma TerminatorStopsIff(body: seq<char8>, args: seq<Arg>, rest: seq<char8>)
    requires 0 !in body && Body(body, args).0 != NoArgument
    ensures Formatted(body + [0], args).Text? <==> Percents(body) % 2 == 0
    ensures Percents(body) % 2 == 0 ==> Formatted(body + [0] + rest, args) == Formatted(body + [0], args)
  {
    EndsInsideIff(body);
    if EndsInside(body) {
      LonePercent(body, args, []);
      assert body + [0] + [] == body + [0];
    } else {
      FormatsJoin(body, [0], args);
      FormatsJoin(body, [0] + rest, args);
      assert body + ([0] + rest) == body + [0] + rest;
    }
  }

  /** The departure: after a lone percent sign the terminator itself is emitted and counted,
      and the memory behind it is read as more of the format. */
  lemma LonePercent(body: seq<char8>, args: seq<Arg>, rest: seq<char8>)
    requires 0 !in body && EndsInside(body)
    ensures var (o, left) := Body(body[..|body| - 1], args);
            o != PastEnd && Formatted(body + [0] + rest, args) ==
              if o.Text? then Prepend(o.s + [0], Formatted(rest, left)) else o
  {
    LastIsLone(body);
    var front := body[..|body| - 1];
    FormatsJoin(front, [PERCENT, 0] + rest, args);
    assert front + ([PERCENT, 0] + rest) == body + [0] + rest;
    var (o, left) := Body(front, args);
    var tail := [PERCENT, 0] + rest;
    assert tail[2..] == rest;
    assert Formatted(tail, left) == Prepend([0], Formatted(rest, left));
  }

  lemma {:induction false} LastIsLone(body: seq<char8>)
    requires EndsInside(body)
    ensures |body| > 0 && body[|body| - 1] == PERCENT && !EndsInside(body[..|body| - 1])
    decreases |body|
  {
    var front := body[..|body| - 1];
    if body[0] != PERCENT {
      LastIsLone(body[1..]);
      assert front[1..] == body[1..][..|body| - 2];
    } else if |body| > 1 {
      LastIsLone(body[2..]);
      assert front[2..] == body[2..][..|body| - 3];
    }
  }

  lemma {:induction false} EndsInsideIff(body: seq<char8>)
    ensures EndsInside(body) <==> Percents(body) % 2 == 1
    decreases |body|
  {
    if body != [] {
      PercentsTail(body);
      if body[0] != PERCENT {
        EndsInsideIff(body[1..]);
      } else if |body| == 1 {
        assert Percents(body[..0]) == 0;
      } else {
        EndsInsideIff(body[2..]);
        PercentsTail(body[1..]);
        assert body[1..][1..] == body[2..];
      }
    }
  }

  /** The first character belongs to the run only if all the others do. */
  lemma {:induction false} PercentsTail(body: seq<char8>)
    requires body != []
    ensures var p := Percents(body[1..]);
            p <= |body| - 1 && Percents(body) == if p == |body| - 1 && body[0] == PERCENT then p + 1 else p
    decreases |body|
  {
    var front := body[..|body| - 1];
    if |body| == 1 {
      assert Percents(front) == 0;
    } else {
      assert body[1..][..|body| - 2] == front[1..];
      PercentsTail(front);
    }
  }

  // ---------------------------------------------------------------- the method

  function Reversed(s: seq<char8>): (r: seq<char8>)
    ensures |r| == |s|
  {
    if s == [] then [] else [s[|s| - 1]] + Reversed(s[..|s| - 1])
  }

  /** The do-while loops that fill the buffer, least significant digit first; the base is 10
      for %d and %u, and for %x, which masks and shifts, 16. */
  method FillDigits(u: uint32, b: int, buf: array<char8>) returns (n: int)
    requires b == 10 || b == 16
    requires buf.Length == SLOTS
    modifies buf
    ensures 0 < n <= 10 && Reversed(buf[..n]) == Numeral(u, b)
  {
    hide Numeral, Digit, Reversed, SignedNumeral;
    ElevenSlots(u);
    var v: nat := u;
    n := 0;
    NothingReversed(buf[..n], Numeral(v, b));
    while true
      invariant 0 <= n && n + |Numeral(v, b)| == |Numeral(u, b)| <= 10
      invariant Numeral(u, b) == Numeral(v, b) + Reversed(buf[..n])
      decreases v
    {
      var r, q: nat := if b == 10 then v % 10 else v % 16, if b == 10 then v / 10 else v / 16;
      FillStep(Numeral(u, b), v, b, q, r, buf[..n]);
      buf[n] := Digit(r);
      n := n + 1;
      assert buf[..n] == buf[..n - 1] + [Digit(r)];
      v := q;
      if v == 0 {
        break;
      }
    }
  }

  lemma FillStep(whole: seq<char8>, v: nat, b: int, q: nat, r: int, s: seq<char8>)
    requires (b == 10 && q == v / 10 && r == v % 10) || (b == 16 && q == v / 16 && r == v % 16)
    requires whole == Numeral(v, b) + Reversed(s)
    ensures q == 0 ==> |Numeral(v, b)| == 1 && whole == Reversed(s + [Digit(r)])
    ensures q > 0 ==>
              && q < v && |Numeral(v, b)| == |Numeral(q, b)| + 1
              && whole == Numeral(q, b) + Reversed(s + [Digit(r)])
  {
    hide Reversed, Digit;
    ReversedNext(s, Digit(r));
    if q > 0 {
      assert Numeral(q, b) + [Digit(r)] + Reversed(s) == Numeral(q, b) + ([Digit(r)] + Reversed(s));
    }
  }

  lemma NothingReversed(s: seq<char8>, t: seq<char8>)
    requires s == []
    ensures t + Reversed(s) == t
  {
  }

  /** dumpbuf: the buffer backwards. */
  method DumpBuf(con: Console, buf: array<char8>, n: int) returns (count: int)
    requires con.Valid() && 0 <= n <= buf.Length && buf as object != con.video as object
    modifies con, con.video
    ensures con.Valid() && con.term == TypedAll(old(con.term), Reversed(buf[..n])) && count == n
  {
    count := 0;
    ghost var out := [];
    var s := n - 1;
    while s >= 0
      invariant -1 <= s < n && count == n - 1 - s == |out|
      invariant con.Valid() && con.term == TypedAll(old(con.term), out)
      invariant Reversed(buf[..n]) == out + Reversed(buf[..s + 1])
    {
      assert buf[..s + 1][..s] == buf[..s];
      TypedNext(old(con.term), out, buf[s]);
      con.Put(buf[s]);
      out := out + [buf[s]];
      count := count + 1;
      s := s - 1;
    }
    assert out + Reversed(buf[..0]) == out;
  }

  /** The %s loop. */
  method PutString(con: Console, memory: seq<char8>) returns (count: int)
    requires con.Valid() && 0 in memory
    modifies con, con.video
    ensures con.Valid() && con.term == TypedAll(old(con.term), BeforeNul(memory)) && count == |BeforeNul(memory)|
  {
    count := 0;
    while memory[count] != 0
      invariant 0 <= count < |memory| && 0 !in memory[..count] && 0 in memory[count..]
      invariant con.Valid() && con.term == TypedAll(old(con.term), memory[..count])
      decreases |memory| - count
    {
      TypedNext(old(con.term), memory[..count], memory[count]);
      assert memory[..count + 1] == memory[..count] + [memory[count]];
      con.Put(memory[count]);
      count := count + 1;
    }
    NulAt(memory, count);
  }

  /** The cases of the switch. */
  method Directive(con: Console, buf: array<char8>, d: char8, arg: Arg) returns (count: int)
    requires con.Valid() && buf.Length == SLOTS && buf as object != con.video as object
    requires IsDirective(d) && Accepts(d, arg)
    modifies con, con.video, buf
    ensures con.Valid() && con.term == TypedAll(old(con.term), Shown(d, arg)) && count == |Shown(d, arg)|
    ensures 0 <= d && Shows(d as char, arg, Shown(d, arg))
  {
    hide Numeral, TypedAll, Typed, Reversed, Shows;
    ShownIs(d as char, arg);
    if d == LETTER_S {
      count := PutString(con, arg.memory);
    } else if d == LETTER_C {
      TypedOne(con.term, LowChar(arg.w));
      con.Put(LowChar(arg.w));
      count := 1;
    } else if d == LETTER_D {
      var i := Signed(arg.w);
      var u := if i < 0 then Wrap(-(arg.w as int)) else arg.w;
      var n := FillDigits(u, 10, buf);
      if i < 0 {
        NegationIsRight(arg.w);
        ReversedNext(buf[..n], MINUS);
        buf[n] := MINUS;
        n := n + 1;
        assert buf[..n] == buf[..n - 1] + [MINUS];
      }
      count := DumpBuf(con, buf, n);
    } else if d == LETTER_U {
      var n := FillDigits(arg.w, 10, buf);
      count := DumpBuf(con, buf, n);
    } else {
      var n := FillDigits(arg.w, 16, buf);
      count := DumpBuf(con, buf, n);
    }
  }

  lemma TypedOne(t: Terminal, c: char8)
    requires t.Valid()
    ensures TypedAll(t, [c]) == Typed(t, c)
  {
    TypedNext(t, [], c);
    assert [] + [c] == [c];
  }

  lemma ReversedNext(s: seq<char8>, c: char8)
    ensures Reversed(s + [c]) == [c] + Reversed(s)
  {
    assert (s + [c])[..|s|] == s;
  }

  /** vprintf: everything the format shows goes to the console, and the count is its length. */
  method Vprintf(con: Console, fmt: seq<char8>, args: seq<Arg>) returns (ret: int)
    requires con.Valid() && Formatted(fmt, args).Text?
    modifies con, con.video
    ensures con.Valid() && con.term == TypedAll(old(con.term), Formatted(fmt, args).s)
    ensures ret == |Formatted(fmt, args).s|
    ensures |fmt| >= 3 && fmt[0] == '%' as int && 0 <= fmt[1] && fmt[1] as char in "csdux" && fmt[2] == 0 ==>
              args != [] && Shows(fmt[1] as char, args[0], Formatted(fmt, args).s)
  {
    if |fmt| >= 3 && fmt[0] == '%' as int && 0 <= fmt[1] && fmt[1] as char in "csdux" && fmt[2] == 0 {
      OneDirective(fmt, args);
    }
    ret := Emit(con, fmt, args);
  }

  /** The loop of vprintf. */
  method Emit(con: Console, fmt: seq<char8>, args: seq<Arg>) returns (ret: int)
    requires con.Valid() && Formatted(fmt, args).Text?
    modifies con, con.video
    ensures con.Valid() && con.term == TypedAll(old(con.term), Formatted(fmt, args).s)
    ensures ret == |Formatted(fmt, args).s|
  {
    hide TypedAll, Typed, Shown, Accepts, Formatted;
    var buf := new char8[SLOTS];
    var f, a := 0, 0;
    ghost var out: seq<char8> := [];
    ret := 0;
    NothingTyped(con.term);
    FormattedText(fmt, args, 0, 0);
    assert fmt[0..] == fmt && args[0..] == args;
    while fmt[f] != 0
      invariant 0 <= f < |fmt| && 0 <= a <= |args| && ret == |out|
      invariant con.Valid() && con.term == TypedAll(old(con.term), out)
      invariant Formatted(fmt[f..], args[a..]).Text?
      invariant Formatted(fmt, args).s == out + Formatted(fmt[f..], args[a..]).s
      decreases |fmt| - f
    {
      FormattedNext(fmt, args, f, a);
      var c := fmt[f];
      f := f + 1;
      if c == PERCENT {
        c := fmt[f];
        f := f + 1;
        if IsDirective(c) {
          TypedAllJoin(old(con.term), out, Shown(c, args[a]));
          var n := Directive(con, buf, c, args[a]);
          out := out + Shown(c, args[a]);
          ret := ret + n;
          a := a + 1;
          FormattedText(fmt, args, f, a);
          continue;
        }
      }
      TypedNext(old(con.term), out, c);
      con.Put(c);
      out := out + [c];
      ret := ret + 1;
      FormattedText(fmt, args, f, a);
    }
    assert Formatted(fmt[f..], args[a..]) == Text([]) by { FormattedText(fmt, args, f, a); }
    assert out + [] == out;
  }

  lemma FormattedText(fmt: seq<char8>, args: seq<Arg>, f: nat, a: nat)
    requires f <= |fmt| && a <= |args| && Formatted(fmt[f..], args[a..]).Text?
    ensures f < |fmt| && (fmt[f] == 0 ==> Formatted(fmt[f..], args[a..]) == Text([]))
  {
  }

  lemma FormattedNext(fmt: seq<char8>, args: seq<Arg>, f: nat, a: nat)
    requires f < |fmt| && a <= |args| && Formatted(fmt[f..], args[a..]).Text? && fmt[f] != 0
    ensures fmt[f] != PERCENT ==>
              Formatted(fmt[f..], args[a..]) == Prepend([fmt[f]], Formatted(fmt[f + 1..], args[a..]))
    ensures fmt[f] == PERCENT ==> f + 1 < |fmt|
    ensures fmt[f] == PERCENT && !IsDirective(fmt[f + 1]) ==>
              Formatted(fmt[f..], args[a..]) == Prepend([fmt[f + 1]], Formatted(fmt[f + 2..], args[a..]))
    ensures fmt[f] == PERCENT && IsDirective(fmt[f + 1]) ==>
              && a < |args| && Accepts(fmt[f + 1], args[a])
              && Formatted(fmt[f..], args[a..]) ==
                   Prepend(Shown(fmt[f + 1], args[a]), Formatted(fmt[f + 2..], args[a + 1..]))
  {
    hide IsDirective, Accepts, Shown;
    var rest := fmt[f..];
    assert rest[1..] == fmt[f + 1..];
    if |rest| > 1 {
      assert rest[2..] == fmt[f + 2..];
    }
    if a < |args| {
      assert args[a..][1..] == args[a + 1..];
    }
  }

  lemma NothingTyped(t: Terminal)
    requires t.Valid()
    ensures TypedAll(t, []) == t
  {
  }
}
