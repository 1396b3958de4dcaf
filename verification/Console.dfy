/** lib.c's console printing: the code, writing to the screen and to its digit buffer in place. */
module Console {
  import opened Machine
  import opened Format

  const NUMBUFSIZ: nat := 20

  lemma PutFirst(s: Screen, o: Out, outs: seq<Out>)
    requires OnScreen(s)
    ensures PutAll(s, [o] + outs) == PutAll(PutChar(s, o), outs)
  {
    assert ([o] + outs)[1..] == outs;
  }

  lemma ColoredFirst(s: seq<char>, color: bv16, rest: seq<Out>)
    requires s != []
    ensures Colored(s, color) + rest == [Out(s[0], color)] + (Colored(s[1..], color) + rest)
  {}

  lemma StrLenIsFirstNul(s: seq<char>, n: nat)
    requires n <= |s| && (n < |s| ==> s[n] == '\0') && forall i :: 0 <= i < n ==> s[i] != '\0'
    ensures StrLen(s) == n
  {}

  lemma {:induction false} DigitsAreFew(value: nat, base: nat, digits: seq<char>, bound: nat, k: nat)
    requires (base == 10 || base == 16) && base <= |digits|
    requires 1 <= k <= 10 && value < bound && bound == Power10(k)
    ensures |Digits(value, base, digits)| <= k
  {
    if value >= base {
      assert k > 1;
      DigitsAreFew(value / base, base, digits, Power10(k - 1), k - 1);
    }
  }

  function Power10(k: nat): nat
  {
    if k == 0 then 1 else 10 * Power10(k - 1)
  }

  lemma DigitsStep(value: nat, base: nat, digits: seq<char>)
    requires (base == 10 || base == 16) && base <= |digits|
    ensures 0 <= value / base && (value / base != 0 ==> value / base < value) && 0 <= value % base < base
    ensures Digits(value, base, digits)
         == (if value / base == 0 then [] else Digits(value / base, base, digits)) + [digits[value % base]]
  {}

  /** The last digit may as well stand before what follows the digits. */
  lemma LastDigitMoves(value: nat, base: nat, digits: seq<char>, tail: seq<char>)
    requires (base == 10 || base == 16) && base <= |digits|
    ensures 0 <= value / base && (value / base != 0 ==> value / base < value) && 0 <= value % base < base
    ensures Digits(value, base, digits) + tail
         == (if value / base == 0 then [] else Digits(value / base, base, digits)) + ([digits[value % base]] + tail)
  {
    hide Digits;
    DigitsStep(value, base, digits);
  }

  /** A 32-bit value has at most ten digits in base 10 or 16. */
  lemma WordHasTenDigits(value: nat, base: nat, digits: seq<char>)
    requires (base == 10 || base == 16) && base <= |digits| && value < TWO32
    ensures |Digits(value, base, digits)| <= 10
  {
    assert Power10(10) == 10_000_000_000;
    DigitsAreFew(value, base, digits, 10_000_000_000, 10);
  }

  method Strlen(s: seq<char>) returns (n: nat)
    requires '\0' in s
    ensures n == StrLen(s)
  {
    n := 0;
    while s[n] != '\0'
      invariant n < |s| && forall i :: 0 <= i < n ==> s[i] != '\0'
      decreases |s| - n
    {
      n := n + 1;
    }
    StrLenIsFirstNul(s, n);
  }

  method Strnlen(s: seq<char>, maxlen: nat) returns (n: nat)
    requires '\0' in s || maxlen <= |s|
    ensures n == if maxlen < StrLen(s) then maxlen else StrLen(s)
  {
    n := 0;
    while n != maxlen && s[n] != '\0'
      invariant n <= maxlen && n <= |s| && forall i :: 0 <= i < n ==> s[i] != '\0'
      decreases maxlen - n
    {
      n := n + 1;
    }
    if n != maxlen || (n < |s| && s[n] == '\0') {
      StrLenIsFirstNul(s, n);
    }
  }

  /** Fills the buffer backwards from its end and returns the index of the first digit. */
  method FillNumbuf(numbuf: array<char>, value: nat, base: nat, digits: seq<char>, precision: int) returns (p: nat)
    requires numbuf.Length == NUMBUFSIZ && value < TWO32
    requires (base == 10 || base == 16) && base <= |digits|
    modifies numbuf
    ensures p < NUMBUFSIZ && numbuf[p..] == NumberText(value, base, digits, precision) + ['\0']
  {
    hide Digits;
    p := NUMBUFSIZ - 1;
    numbuf[p] := '\0';
    if precision != 0 || value != 0 {
      WordHasTenDigits(value, base, digits);
      ghost var all := Digits(value, base, digits) + ['\0'];
      var val: nat := value;
      while true
        invariant 0 < p < NUMBUFSIZ && Digits(val, base, digits) + numbuf[p..] == all
        decreases val
      {
        assert |all| == |Digits(val, base, digits)| + (NUMBUFSIZ - p);
        ghost var tail := numbuf[p..];
        LastDigitMoves(val, base, digits, tail);
        p := p - 1;
        numbuf[p] := digits[val % base];
        assert numbuf[p..] == [digits[val % base]] + tail;
        val := val / base;
        if val == 0 {
          break;
        }
      }
    }
  }

  /** Two texts print alike. */
  predicate SameText(data: seq<char>, text: seq<char>)
  {
    StrLen(data) == StrLen(text) && data[..StrLen(data)] == text[..StrLen(text)]
  }

  lemma {:induction false} NulEndsText(text: seq<char>, tail: seq<char>)
    requires tail != [] && tail[0] == '\0'
    ensures SameText(text + tail, text)
  {
    var n := StrLen(text);
    StrLenIsFirstNul(text + tail, n);
    assert (text + tail)[..n] == text[..n];
  }

  /** The data, numeric and negative variables of the conversion switch. */
  method BuildText(numbuf: array<char>, conversion: char, args: seq<Arg>, a: nat, precision: int)
    returns (data: seq<char>, numeric: bool, negative: bool)
    requires numbuf.Length == NUMBUFSIZ && conversion != 'C'
    requires ArgumentFits(conversion, args, a, precision)
    modifies numbuf
    ensures var t := Convert(conversion, args, a, precision);
            SameText(data, t.data) && numeric == t.numeric && negative == t.negative
    ensures StringEnds(data, precision)
  {
    numeric, negative := false, false;
    if conversion == 'd' || conversion == 'u' || conversion == 'x' || conversion == 'X' {
      numeric := true;
      var p: nat;
      ghost var text := Convert(conversion, args, a, precision).data;
      if conversion == 'd' {
        var x := Signed(args[a].bits);
        p := FillNumbuf(numbuf, Unsigned(if x > 0 then x else -x), 10, UPPER_DIGITS, precision);
        if x < 0 {
          negative := true;
        }
      } else if conversion == 'u' {
        p := FillNumbuf(numbuf, Unsigned(Signed(args[a].bits)), 10, UPPER_DIGITS, precision);
      } else if conversion == 'x' {
        p := FillNumbuf(numbuf, Unsigned(Signed(args[a].bits)), 16, LOWER_DIGITS, precision);
      } else {
        p := FillNumbuf(numbuf, Unsigned(Signed(args[a].bits)), 16, UPPER_DIGITS, precision);
      }
      data := numbuf[p..];
      NulEndsText(text, ['\0']);
      assert data[|data| - 1] == '\0';
    } else if conversion == 's' {
      data := args[a].s;
    } else {
      if conversion == 'c' {
        numbuf[0] := (Signed(args[a].bits) % 256) as char;
      } else {
        numbuf[0] := if conversion != '\0' then conversion else '%';
      }
      numbuf[1] := '\0';
      data := numbuf[..];
      assert data == [numbuf[0]] + data[1..];
      NulEndsText([numbuf[0]], data[1..]);
      assert data[1] == '\0';
    }
  }

  /** The len, negative and zeros variables: characters of the text, its sign, and zeros before it. */
  method Measure(flags: Flags, width: int, precision: int, data: seq<char>, numeric: bool, negative: bool, ghost t: Text)
    returns (len: nat, sign: seq<char>, zeros: int)
    requires SameText(data, t.data) && StringEnds(data, precision)
    requires numeric == t.numeric && negative == t.negative
    ensures len == TextLength(t, precision) && sign == SignText(flags, t) && zeros == Zeros(flags, width, precision, t)
    ensures len <= |data| && data[..len] == t.data[..len]
  {
    if precision >= 0 {
      len := Strnlen(data, precision);
    } else {
      len := Strlen(data);
    }
    assert data[..len] == data[..StrLen(data)][..len];
    assert t.data[..len] == t.data[..StrLen(t.data)][..len];
    sign := if numeric && negative then "-" else if flags.plus then "+" else if flags.space then " " else "";
    if numeric && precision > len {
      zeros := precision - len;
    } else if flags.zero && !flags.left && numeric && precision < 0 && len + |sign| < width {
      zeros := width - len - |sign|;
    } else {
      zeros := 0;
    }
  }

  /** The value of the flag characters from index i on, found by scanning flag_chars. */
  method ScanFlags(format: seq<char>, i: nat) returns (flags: Flags, next: nat)
    requires CString(format) && i < |format|
    ensures (flags, next) == ParseFlags(format, i, NO_FLAGS)
  {
    flags, next := NO_FLAGS, i;
    var flagChars := "#0- +";
    while format[next] != '\0'
      invariant i <= next < |format| && ParseFlags(format, next, flags) == ParseFlags(format, i, NO_FLAGS)
      decreases |format| - next
    {
      var c: nat := 0;
      while c < |flagChars| && flagChars[c] != format[next]
        invariant c <= |flagChars| && forall k :: 0 <= k < c ==> flagChars[k] != format[next]
      {
        c := c + 1;
      }
      if c == |flagChars| {
        assert flagChars[0] == '#' && flagChars[1] == '0' && flagChars[2] == '-' && flagChars[3] == ' ' && flagChars[4] == '+';
        break;
      }
      flags := SetFlag(flags, format[next]);
      next := next + 1;
    }
  }

  method ScanNumber(format: seq<char>, i: nat) returns (value: int, next: nat)
    requires CString(format) && i < |format|
    ensures (value, next) == ParseNumber(format, i, 0)
  {
    value, next := 0, i;
    while '0' <= format[next] <= '9'
      invariant i <= next < |format| && ParseNumber(format, next, value) == ParseNumber(format, i, 0)
      decreases |format| - next
    {
      value := 10 * value + (format[next] as int - '0' as int);
      next := next + 1;
    }
  }

  method ScanWidth(format: seq<char>, i: nat, args: seq<Arg>, a: nat) returns (r: Spec)
    requires CString(format) && i < |format|
    requires forall b :: a <= b < ParseWidth(format, i, args, a).arg ==> IsWord(args, b)
    ensures r == ParseWidth(format, i, args, a)
  {
    r := Spec(-1, i, a);
    if '1' <= format[i] <= '9' {
      var value, next := ScanNumber(format, i);
      r := Spec(value, next, a);
    } else if format[i] == '*' {
      assert IsWord(args, a);
      r := Spec(Signed(args[a].bits), i + 1, a + 1);
    }
  }

  method ScanPrecision(format: seq<char>, i: nat, args: seq<Arg>, a: nat) returns (r: Spec)
    requires CString(format) && i < |format|
    requires forall b :: a <= b < ParsePrecision(format, i, args, a).arg ==> IsWord(args, b)
    ensures r == ParsePrecision(format, i, args, a)
  {
    var precision, next, arg := -1, i, a;
    if format[next] == '.' {
      next := next + 1;
      if '0' <= format[next] <= '9' {
        precision, next := ScanNumber(format, next);
      } else if format[next] == '*' {
        assert IsWord(args, a);
        precision := Signed(args[arg].bits);
        arg := arg + 1;
        next := next + 1;
      }
      if precision < 0 {
        precision := 0;
      }
    }
    r := Spec(precision, next, arg);
  }

  method ScanDirective(format: seq<char>, i: nat, args: seq<Arg>, a: nat) returns (d: Directive)
    requires CString(format) && i < |format|
    requires forall b :: a <= b < ParseDirective(format, i, args, a).arg ==> IsWord(args, b)
    ensures d == ParseDirective(format, i, args, a)
  {
    var flags, w := ScanFlags(format, i);
    var width := ScanWidth(format, w, args, a);
    var precision := ScanPrecision(format, width.next, args, width.arg);
    d := Directive(flags, width.value, precision.value, precision.next, precision.arg);
  }

  class Console {
    const screen: array<bv16>

    constructor ()
      ensures screen.Length == SCREEN && fresh(screen)
    {
      screen := new bv16[SCREEN](i => 0);
    }

    function At(cursor: int): Screen
      reads screen
    {
      Screen(screen[..], cursor)
    }

    method Putc(cursor: int, c: char, color: bv16) returns (cursor': int)
      requires OnScreen(At(cursor))
      modifies screen
      ensures At(cursor') == PutChar(old(At(cursor)), Out(c, color)) && OnScreen(At(cursor'))
    {
      cursor' := cursor;
      if cursor' >= SCREEN {
        cursor' := 0;
      }
      if c == '\n' {
        ghost var at := cursor';
        var pos := cursor' % COLUMNS;
        while pos != COLUMNS
          invariant at % COLUMNS <= pos <= COLUMNS && cursor' - at == pos - at % COLUMNS
          invariant forall i :: 0 <= i < SCREEN ==>
                      screen[i] == if at <= i < cursor' then Cell(' ', color) else old(screen[i])
          decreases COLUMNS - pos
        {
          screen[cursor'] := Cell(' ', color);
          cursor' := cursor' + 1;
          pos := pos + 1;
        }
        assert screen[..] == Filled(old(screen[..]), at, cursor', Cell(' ', color));
      } else {
        screen[cursor'] := Cell(c, color);
        cursor' := cursor' + 1;
      }
    }

    /** Prints c n times; after and rest are what is printed next. */
    method PutRepeated(cursor: int, c: char, color: bv16, n: int, ghost after: seq<char>, ghost rest: seq<Out>)
      returns (cursor': int)
      requires OnScreen(At(cursor))
      modifies screen
      ensures OnScreen(At(cursor'))
      ensures PutAll(At(cursor'), Colored(after, color) + rest)
           == old(PutAll(At(cursor), Colored(Repeat(c, n) + after, color) + rest))
    {
      cursor' := cursor;
      var k := n;
      while k > 0
        invariant OnScreen(At(cursor'))
        invariant PutAll(At(cursor'), Colored(Repeat(c, k) + after, color) + rest)
               == old(PutAll(At(cursor), Colored(Repeat(c, n) + after, color) + rest))
        decreases k
      {
        ColoredFirst(Repeat(c, k) + after, color, rest);
        assert (Repeat(c, k) + after)[1..] == Repeat(c, k - 1) + after;
        PutFirst(At(cursor'), Out(c, color), Colored(Repeat(c, k - 1) + after, color) + rest);
        cursor' := Putc(cursor', c, color);
        k := k - 1;
      }
      assert Repeat(c, k) + after == after;
    }

    method PutText(cursor: int, data: seq<char>, color: bv16, len: nat, ghost after: seq<char>, ghost rest: seq<Out>)
      returns (cursor': int)
      requires OnScreen(At(cursor)) && len <= |data|
      modifies screen
      ensures OnScreen(At(cursor'))
      ensures PutAll(At(cursor'), Colored(after, color) + rest)
           == old(PutAll(At(cursor), Colored(data[..len] + after, color) + rest))
    {
      cursor' := cursor;
      var k: nat := 0;
      assert data[0..len] == data[..len];
      while k < len
        invariant k <= len && OnScreen(At(cursor'))
        invariant PutAll(At(cursor'), Colored(data[k..len] + after, color) + rest)
               == old(PutAll(At(cursor), Colored(data[..len] + after, color) + rest))
      {
        ColoredFirst(data[k..len] + after, color, rest);
        assert (data[k..len] + after)[1..] == data[k + 1..len] + after;
        PutFirst(At(cursor'), Out(data[k], color), Colored(data[k + 1..len] + after, color) + rest);
        cursor' := Putc(cursor', data[k], color);
        k := k + 1;
      }
      assert data[k..len] + after == after;
    }

    /** Pads and prints one converted text. rest is what is printed after. */
    method PutField(cursor: int, color: bv16, flags: Flags, fieldWidth: int, precision: int, data: seq<char>,
                    numeric: bool, negative: bool, ghost t: Text, ghost rest: seq<Out>) returns (cursor': int)
      requires OnScreen(At(cursor)) && SameText(data, t.data) && StringEnds(data, precision)
      requires numeric == t.numeric && negative == t.negative
      modifies screen
      ensures OnScreen(At(cursor'))
      ensures PutAll(At(cursor'), rest)
           == old(PutAll(At(cursor), Colored(Field(flags, fieldWidth, precision, t), color) + rest))
    {
      var len, sign, zeros := Measure(flags, fieldWidth, precision, data, numeric, negative, t);
      var width := fieldWidth - (len + zeros + |sign|);
      cursor' := cursor;
      ghost var rightPart := sign + (Repeat('0', zeros) + (data[..len] + Repeat(' ', if flags.left then width else 0)));
      FieldParts(flags, fieldWidth, precision, t, if flags.left then 0 else width,
                 Repeat(' ', if flags.left then width else 0));
      if !flags.left {
        cursor' := PutRepeated(cursor', ' ', color, width, rightPart, rest);
        width := 0;
      } else {
        assert Repeat(' ', 0) + rightPart == rightPart;
      }
      cursor' := PutParts(cursor', color, sign, zeros, data, len, width, rest);
    }

    method PutParts(cursor: int, color: bv16, sign: seq<char>, zeros: int, data: seq<char>, len: nat, width: int,
                    ghost rest: seq<Out>) returns (cursor': int)
      requires OnScreen(At(cursor)) && len <= |data|
      modifies screen
      ensures OnScreen(At(cursor'))
      ensures PutAll(At(cursor'), rest)
           == old(PutAll(At(cursor), Colored(sign + (Repeat('0', zeros) + (data[..len] + Repeat(' ', width))), color) + rest))
    {
      assert sign[..|sign|] == sign;
      cursor' := PutText(cursor, sign, color, |sign|, Repeat('0', zeros) + (data[..len] + Repeat(' ', width)), rest);
      cursor' := PutRepeated(cursor', '0', color, zeros, data[..len] + Repeat(' ', width), rest);
      cursor' := PutText(cursor', data, color, len, Repeat(' ', width), rest);
      assert Repeat(' ', width) + [] == Repeat(' ', width);
      cursor' := PutRepeated(cursor', ' ', color, width, [], rest);
      assert Colored([], color) + rest == rest;
    }

    method PutConversion(cursor: int, color: bv16, numbuf: array<char>, d: Directive, conversion: char, args: seq<Arg>,
                         ghost rest: seq<Out>) returns (cursor': int)
      requires numbuf.Length == NUMBUFSIZ && OnScreen(At(cursor)) && conversion != 'C'
      requires ArgumentFits(conversion, args, d.arg, d.precision)
      modifies screen, numbuf
      ensures OnScreen(At(cursor'))
      ensures PutAll(At(cursor'), rest)
           == old(PutAll(At(cursor), Colored(Field(d.flags, d.width, d.precision, Convert(conversion, args, d.arg, d.precision)), color) + rest))
    {
      var data, numeric, negative := BuildText(numbuf, conversion, args, d.arg, d.precision);
      cursor' := PutField(cursor, color, d.flags, d.width, d.precision, data, numeric, negative,
                          Convert(conversion, args, d.arg, d.precision), rest);
    }

    /** The directive after a '%': prints its field, or takes the new colour. rest is what is printed after. */
    method PutDirective(cursor: int, color: bv16, numbuf: array<char>, format: seq<char>, i: nat, args: seq<Arg>, a: nat,
                        ghost rest: seq<Out>)
      returns (cursor': int, color': bv16, i': nat, a': nat)
      requires numbuf.Length == NUMBUFSIZ && OnScreen(At(cursor))
      requires CString(format) && i < |format| && DirectiveMatches(format, i, args, a)
      modifies screen, numbuf
      ensures OnScreen(At(cursor'))
      ensures var p := AfterDirective(format, i, args, a, color);
              && i' == p.next && a' == p.arg && color' == p.color
              && PutAll(At(cursor'), rest) == PutAll(old(At(cursor)), p.outs + rest)
    {
      var d := ScanDirective(format, i, args, a);
      var conversion := format[d.at];
      cursor', color', i', a' := cursor, color, d.at, d.arg;
      if conversion == 'C' {
        color' := (Unsigned(Signed(args[d.arg].bits)) % 0x1_0000) as bv16;
        assert [] + rest == rest;
      } else {
        cursor' := PutConversion(cursor, color, numbuf, d, conversion, args, rest);
      }
      if TakesArgument(conversion) {
        a' := a' + 1;
      }
      if conversion != '\0' {
        i' := i' + 1;
      }
    }

    /** Prints a format with its arguments and returns the final cursor. No character after the NUL of the
        format is read: every index into it is within its length. */
    method Vprintf(start: int, startColor: bv16, format: seq<char>, args: seq<Arg>) returns (cursor: int)
      requires OnScreen(At(start)) && CString(format) && Matches(format, 0, args, 0)
      modifies screen
      ensures OnScreen(At(cursor))
      ensures At(cursor) == PutAll(old(At(start)), Emit(format, 0, args, 0, startColor))
    {
      var color := startColor;
      var numbuf := new char[NUMBUFSIZ];
      var i: nat, a: nat := 0, 0;
      cursor := start;
      ghost var goal := PutAll(At(cursor), Emit(format, i, args, a, color));
      while format[i] != '\0'
        invariant i < |format| && OnScreen(At(cursor)) && Matches(format, i, args, a)
        invariant PutAll(At(cursor), Emit(format, i, args, a, color)) == goal
        decreases |format| - i
      {
        cursor, color, i, a := PutNext(cursor, color, numbuf, format, i, args, a);
      }
    }

    /** One turn of the loop over the format: an ordinary character or a directive. */
    method PutNext(cursor: int, color: bv16, numbuf: array<char>, format: seq<char>, i: nat, args: seq<Arg>, a: nat)
      returns (cursor': int, color': bv16, i': nat, a': nat)
      requires numbuf.Length == NUMBUFSIZ && OnScreen(At(cursor))
      requires CString(format) && i < |format| && format[i] != '\0' && Matches(format, i, args, a)
      modifies screen, numbuf
      ensures OnScreen(At(cursor')) && i < i' < |format| && Matches(format, i', args, a')
      ensures PutAll(At(cursor'), Emit(format, i', args, a', color'))
           == PutAll(old(At(cursor)), Emit(format, i, args, a, color))
    {
      hide ParseDirective, DirectiveMatches, AfterDirective, PutChar;
      ColorDoesNotSteer(format, i + 1, args, a, color);
      if format[i] != '%' {
        PutFirst(At(cursor), Out(format[i], color), Emit(format, i + 1, args, a, color));
        cursor' := Putc(cursor, format[i], color);
        color', i', a' := color, i + 1, a;
      } else {
        ghost var p := AfterDirective(format, i + 1, args, a, color);
        cursor', color', i', a' := PutDirective(cursor, color, numbuf, format, i + 1, args, a,
                                                Emit(format, p.next, args, p.arg, p.color));
      }
    }
  }
}
