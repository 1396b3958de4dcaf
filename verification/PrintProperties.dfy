/** What printed numbers mean, and how many characters a field takes. */
module PrintProperties {
  import opened Wrappers
  import opened Divisibility
  import opened Machine
  import opened Format

  // --- Reading a printed number back -----------------------------------------------------------------

  function DigitValue(c: char): int
  {
    if '0' <= c <= '9' then c as int - '0' as int
    else if 'a' <= c <= 'f' then c as int - 'a' as int + 10
    else if 'A' <= c <= 'F' then c as int - 'A' as int + 10
    else -1
  }

  predicate IsDigitOf(c: char, base: nat)
  {
    0 <= DigitValue(c) < base
  }

  function SkipSpaces(s: seq<char>): seq<char>
  {
    if s != [] && s[0] == ' ' then SkipSpaces(s[1..]) else s
  }

  /** The value of the leading digits, continuing from acc, and what follows them. */
  function ReadDigits(s: seq<char>, base: nat, acc: int): (int, seq<char>)
  {
    if s != [] && IsDigitOf(s[0], base) then ReadDigits(s[1..], base, acc * base + DigitValue(s[0])) else (acc, s)
  }

  /** Reads a number the way strtol does: spaces, a sign, digits; and then allows only spaces. */
  function ReadNumber(s: seq<char>, base: nat): Option<int>
  {
    var t := SkipSpaces(s);
    var negative := t != [] && t[0] == '-';
    var u := if t != [] && (t[0] == '-' || t[0] == '+') then t[1..] else t;
    var (value, rest) := ReadDigits(u, base, 0);
    if SkipSpaces(rest) == [] then Some(if negative then -value else value) else None
  }

  predicate DigitTable(digits: seq<char>, base: nat)
  {
    (base == 10 || base == 16) && base <= |digits| && forall d: nat :: d < base ==> DigitValue(digits[d]) == d
  }

  lemma TablesAreDigits()
    ensures DigitTable(UPPER_DIGITS, 10) && DigitTable(UPPER_DIGITS, 16) && DigitTable(LOWER_DIGITS, 16)
  {}

  predicate AllDigits(s: seq<char>, base: nat)
  {
    forall i :: 0 <= i < |s| ==> IsDigitOf(s[i], base)
  }

  lemma {:induction false} ReadDigitsSplit(s: seq<char>, t: seq<char>, base: nat, acc: int)
    requires AllDigits(s, base)
    ensures ReadDigits(s + t, base, acc) == ReadDigits(t, base, ReadDigits(s, base, acc).0)
    decreases |s|
  {
    if s == [] {
      assert s + t == t;
    } else {
      assert (s + t)[1..] == s[1..] + t;
      ReadDigitsSplit(s[1..], t, base, acc * base + DigitValue(s[0]));
    }
  }

  lemma {:induction false} DigitsReadBack(value: nat, base: nat, digits: seq<char>)
    requires DigitTable(digits, base)
    ensures AllDigits(Digits(value, base, digits), base)
    ensures ReadDigits(Digits(value, base, digits), base, 0).0 == value
  {
    if value < base {
      assert digits[value..value + 1] == [digits[value]];
    } else {
      DigitsReadBack(value / base, base, digits);
      var high, low := Digits(value / base, base, digits), [digits[value % base]];
      ReadDigitsSplit(high, low, base, 0);
    }
  }

  lemma {:induction false} ZerosReadAsNothing(n: int, base: nat)
    requires 2 <= base
    ensures AllDigits(Repeat('0', n), base) && ReadDigits(Repeat('0', n), base, 0).0 == 0
  {
    if n > 0 {
      ZerosReadAsNothing(n - 1, base);
    }
  }

  lemma {:induction false} SpacesAreSkipped(n: int, s: seq<char>)
    ensures SkipSpaces(Repeat(' ', n) + s) == SkipSpaces(s)
  {
    if n > 0 {
      assert (Repeat(' ', n) + s)[1..] == Repeat(' ', n - 1) + s;
      SpacesAreSkipped(n - 1, s);
    } else {
      assert Repeat(' ', n) + s == s;
    }
  }

  /** Digits with zeros before and spaces after read as the digits' value, also when there are none at all. */
  lemma BodyReadsBack(zeros: int, data: seq<char>, tail: seq<char>, base: nat, body: seq<char>)
    requires 2 <= base && AllDigits(data, base) && body == Repeat('0', zeros) + (data + tail)
    requires SkipSpaces(tail) == [] && (tail != [] ==> tail[0] == ' ')
    ensures ReadDigits(body, base, 0) == (ReadDigits(data, base, 0).0, tail)
    ensures if SkipSpaces(body) == [] then ReadDigits(data, base, 0).0 == 0 && body == tail
            else SkipSpaces(body) == body && body[0] != '-' && body[0] != '+'
  {
    ZerosReadAsNothing(zeros, base);
    ReadDigitsSplit(Repeat('0', zeros), data + tail, base, 0);
    ReadDigitsSplit(data, tail, base, 0);
    if zeros <= 0 && data == [] {
      assert body == tail;
    } else {
      assert IsDigitOf(body[0], base);
    }
  }

  lemma SignedBodyReadsBack(before: int, sign: seq<char>, body: seq<char>, base: nat, value: int, tail: seq<char>)
    requires sign == "" || sign == " " || sign == "+" || sign == "-"
    requires ReadDigits(body, base, 0) == (value, tail) && SkipSpaces(tail) == []
    requires if SkipSpaces(body) == [] then value == 0 && body == tail
             else SkipSpaces(body) == body && body[0] != '-' && body[0] != '+'
    ensures ReadNumber(Repeat(' ', before) + (sign + body), base) == Some(if sign == "-" then -value else value)
  {
    SpacesAreSkipped(before, sign + body);
    ReadAfterSpaces(Repeat(' ', before) + (sign + body), sign + body, base);
    ReadSigned(sign, body, base, value, tail);
  }

  lemma ReadAfterSpaces(s: seq<char>, t: seq<char>, base: nat)
    requires SkipSpaces(s) == SkipSpaces(t)
    ensures ReadNumber(s, base) == ReadNumber(t, base)
  {}

  lemma ReadSigned(sign: seq<char>, body: seq<char>, base: nat, value: int, tail: seq<char>)
    requires sign == "" || sign == " " || sign == "+" || sign == "-"
    requires ReadDigits(body, base, 0) == (value, tail) && SkipSpaces(tail) == []
    requires if SkipSpaces(body) == [] then value == 0 && body == tail
             else SkipSpaces(body) == body && body[0] != '-' && body[0] != '+'
    ensures ReadNumber(sign + body, base) == Some(if sign == "-" then -value else value)
  {
    var t := sign + body;
    if sign == "" {
      assert t == body;
    } else {
      assert t[0] == sign[0] && t[1..] == body;
    }
  }

  /** The base and digits of a numeric conversion, and the number it stands for. */
  predicate IsNumeric(conversion: char)
  {
    conversion in "duxX"
  }

  function BaseOf(conversion: char): nat
  {
    if conversion == 'x' || conversion == 'X' then 16 else 10
  }

  function ValueOf(conversion: char, bits: int): int
  {
    if conversion == 'd' then Signed(bits) else Unsigned(bits)
  }

  lemma {:induction false} DigitsHaveNoNul(s: seq<char>, base: nat)
    requires AllDigits(s, base)
    ensures StrLen(s) == |s|
  {
    forall i | 0 <= i < |s| ensures s[i] != '\0' {
      assert IsDigitOf(s[i], base);
    }
  }

  /** The absolute value of a numeric argument. */
  function Magnitude(conversion: char, bits: int): nat
  {
    if ValueOf(conversion, bits) < 0 then -ValueOf(conversion, bits) else ValueOf(conversion, bits)
  }

  function TableOf(conversion: char): seq<char>
  {
    if conversion == 'x' then LOWER_DIGITS else UPPER_DIGITS
  }

  /** Every numeric conversion prints the digits of the magnitude, that of the most negative int included. */
  lemma ConvertsMagnitude(conversion: char, args: seq<Arg>, a: nat, precision: int)
    requires IsNumeric(conversion) && IsWord(args, a)
    ensures Convert(conversion, args, a, precision)
         == Text(NumberText(Magnitude(conversion, args[a].bits), BaseOf(conversion), TableOf(conversion), precision), true,
                 ValueOf(conversion, args[a].bits) < 0)
  {
    hide NumberText, Unsigned, Signed;
  }

  /** The text of a numeric conversion is the magnitude of the value, and negative tells its sign. */
  lemma ConvertedNumber(conversion: char, args: seq<Arg>, a: nat, precision: int)
    requires IsNumeric(conversion) && IsWord(args, a)
    ensures var t, base := Convert(conversion, args, a, precision), BaseOf(conversion);
            && t.numeric && AllDigits(t.data, base)
            && ValueOf(conversion, args[a].bits)
               == (if t.negative then -ReadDigits(t.data, base, 0).0 else ReadDigits(t.data, base, 0).0)
            && (t.data == [] ==> precision == 0 && !t.negative)
  {
    hide Convert, Digits, ValueOf;
    TablesAreDigits();
    ConvertsMagnitude(conversion, args, a, precision);
    DigitsReadBack(Magnitude(conversion, args[a].bits), BaseOf(conversion), TableOf(conversion));
  }

  lemma SpacesReadAsNothing(n: int)
    ensures SkipSpaces(Repeat(' ', n)) == []
  {
    SpacesAreSkipped(n, []);
    assert Repeat(' ', n) + [] == Repeat(' ', n);
  }

  lemma SignTextIsSign(flags: Flags, t: Text)
    ensures var sign := SignText(flags, t); sign == "" || sign == " " || sign == "+" || sign == "-"
    ensures SignText(flags, t) == "-" <==> t.numeric && t.negative
  {}

  /** A numeric field reads back as the value of the digits it keeps. */
  lemma FieldReadsAsKeptDigits(flags: Flags, width: int, precision: int, t: Text, base: nat)
    requires 2 <= base && t.numeric && AllDigits(t.data, base)
    ensures var kept := ReadDigits(t.data[..TextLength(t, precision)], base, 0).0;
            ReadNumber(Field(flags, width, precision, t), base) == Some(if t.negative then -kept else kept)
  {
    hide ReadDigits, ReadNumber, SkipSpaces, StrLen, Field, Zeros, TextLength, IsDigitOf, SignText;
    var sign, zeros, data := SignText(flags, t), Zeros(flags, width, precision, t), t.data[..TextLength(t, precision)];
    var pad := width - (|data| + zeros + |sign|);
    var before, after := if flags.left then 0 else pad, if flags.left then pad else 0;
    var tail := Repeat(' ', after);
    var body := Repeat('0', zeros) + (data + tail);
    SignTextIsSign(flags, t);
    SpacesReadAsNothing(after);
    BodyReadsBack(zeros, data, tail, base, body);
    SignedBodyReadsBack(before, sign, body, base, ReadDigits(data, base, 0).0, tail);
    FieldParts(flags, width, precision, t, before, tail);
  }

  lemma {:induction false} FewerDigitsReadSmaller(value: nat, base: nat, digits: seq<char>, k: nat)
    requires DigitTable(digits, base) && 0 < value && k < |Digits(value, base, digits)|
    ensures ReadDigits(Digits(value, base, digits)[..k], base, 0).0 < value
  {
    var s := Digits(value, base, digits);
    if k > 0 {
      var high := Digits(value / base, base, digits);
      assert s[..k] == high[..k];
      if k == |high| {
        assert high[..k] == high;
        DigitsReadBack(value / base, base, digits);
      } else {
        FewerDigitsReadSmaller(value / base, base, digits, k);
      }
    } else {
      assert s[..k] == [];
    }
  }

  /** base to the power n */
  function Power(base: nat, n: nat): nat
  {
    if n == 0 then 1 else base * Power(base, n - 1)
  }

  lemma QuotientBelow(value: nat, base: nat, bound: nat)
    requires 0 < base
    ensures value / base < bound <==> value < base * bound
  {
    var q := value / base;
    assert base * q <= value < base * q + base;
    if q < bound {
      MulOrder(base, q + 1, bound);
      OneMore(base, q);
    } else {
      MulOrder(base, bound, q);
    }
  }

  lemma {:induction false} PowerIsPositive(base: nat, n: nat)
    requires 0 < base
    ensures 0 < Power(base, n) && (0 < n ==> base <= Power(base, n))
  {
    if n > 0 {
      PowerIsPositive(base, n - 1);
      MulOrder(base, 1, Power(base, n - 1));
    }
  }

  lemma PowerOfZero(base: nat)
    ensures Power(base, 0) == 1
  {}

  /** A value has at most n digits exactly when it is below base to the power n. */
  lemma {:induction false} DigitCount(value: nat, base: nat, digits: seq<char>, n: nat)
    requires DigitTable(digits, base) && 0 < n
    ensures |Digits(value, base, digits)| <= n <==> value < Power(base, n)
  {
    PowerIsPositive(base, n);
    if value >= base {
      DivisionShrinks(value, base);
      if n == 1 {
        assert Power(base, 1) == base * Power(base, 0) == base;
      } else {
        DigitCount(value / base, base, digits, n - 1);
        QuotientBelow(value, base, Power(base, n - 1));
      }
    }
  }

  /** A numeric conversion has at most precision digits exactly when its magnitude is below base to the precision. */
  lemma ConversionFits(conversion: char, args: seq<Arg>, a: nat, precision: nat)
    requires IsNumeric(conversion) && IsWord(args, a)
    ensures |Convert(conversion, args, a, precision).data| <= precision
       <==> Magnitude(conversion, args[a].bits) < Power(BaseOf(conversion), precision)
  {
    hide Convert, Digits, Power, Magnitude;
    TablesAreDigits();
    ConvertsMagnitude(conversion, args, a, precision);
    PowerOfZero(BaseOf(conversion));
    if precision > 0 {
      DigitCount(Magnitude(conversion, args[a].bits), BaseOf(conversion), TableOf(conversion), precision);
    }
  }

  /** Whatever the flags and the width, what a numeric conversion prints reads back as its argument exactly
      when the precision is absent or the argument's magnitude is below base to the precision. A smaller precision
      cuts digits off. */
  lemma PrintedNumberReadsBack(conversion: char, args: seq<Arg>, a: nat, flags: Flags, width: int, precision: int)
    requires IsNumeric(conversion) && IsWord(args, a)
    ensures ReadNumber(Field(flags, width, precision, Convert(conversion, args, a, precision)), BaseOf(conversion))
         == Some(ValueOf(conversion, args[a].bits))
       <==> precision < 0 || Magnitude(conversion, args[a].bits) < Power(BaseOf(conversion), precision)
  {
    var t, base := Convert(conversion, args, a, precision), BaseOf(conversion);
    ConvertedNumber(conversion, args, a, precision);
    DigitsHaveNoNul(t.data, base);
    FieldReadsAsKeptDigits(flags, width, precision, t, base);
    assert t.data[..|t.data|] == t.data;
    if 0 <= precision {
      ConversionFits(conversion, args, a, precision);
      if precision < |t.data| {
        CutNumberIsSmaller(conversion, args, a, precision);
      }
    }
  }

  lemma CutNumberIsSmaller(conversion: char, args: seq<Arg>, a: nat, precision: int)
    requires IsNumeric(conversion) && IsWord(args, a)
    requires 0 <= precision < |Convert(conversion, args, a, precision).data|
    ensures var t, base := Convert(conversion, args, a, precision), BaseOf(conversion);
            ReadDigits(t.data[..precision], base, 0).0 < ReadDigits(t.data, base, 0).0
  {
    hide Convert;
    TablesAreDigits();
    ConvertsMagnitude(conversion, args, a, precision);
    var magnitude, base, table := Magnitude(conversion, args[a].bits), BaseOf(conversion), TableOf(conversion);
    DigitsReadBack(magnitude, base, table);
    assert magnitude > 0;
    FewerDigitsReadSmaller(magnitude, base, table, precision);
  }

  /** A field takes exactly max(width, sign + zeros + text) characters, each one call of console_putc, and a
      number at least as many digits as its precision. */
  lemma FieldWidth(flags: Flags, width: int, precision: int, t: Text)
    ensures var content := |SignText(flags, t)| + Zeros(flags, width, precision, t) + TextLength(t, precision);
            |Field(flags, width, precision, t)| == if width > content then width else content
    ensures t.numeric ==> precision <= Zeros(flags, width, precision, t) + TextLength(t, precision)
    ensures 0 <= Zeros(flags, width, precision, t)
  {}

  // --- The screen ------------------------------------------------------------------------------------

  /** Printing never leaves the screen, and without newlines each character fills one cell: printed from cell 0
      on, k characters that fit stand in the first k cells in order. */
  lemma {:induction false} PrintedInOrder(s: Screen, outs: seq<Out>, k: nat)
    requires OnScreen(s) && k < |outs| && s.cursor + |outs| <= SCREEN
    requires forall i :: 0 <= i < |outs| ==> outs[i].ch != '\n'
    ensures PutAll(s, outs).cursor == s.cursor + |outs|
    ensures PutAll(s, outs).cells[s.cursor + k] == Cell(outs[k].ch, outs[k].color)
    ensures forall i :: 0 <= i < s.cursor ==> PutAll(s, outs).cells[i] == s.cells[i]
    decreases |outs|
  {
    var r := PutChar(s, outs[0]);
    if |outs| > 1 {
      PrintedInOrder(r, outs[1..], if k == 0 then 0 else k - 1);
    } else {
      assert outs[1..] == [];
    }
  }

  /** The cell the k-th next character goes to: past the last cell printing goes on at the first. */
  function CellAt(cursor: int, k: nat): (i: int)
    requires 0 <= cursor <= SCREEN && k < SCREEN
    ensures 0 <= i < SCREEN
  {
    if cursor + k < SCREEN then cursor + k else cursor + k - SCREEN
  }

  function CursorAfter(cursor: int, n: nat): int
    requires 0 <= cursor <= SCREEN && n <= SCREEN
  {
    if n == 0 then cursor else CellAt(cursor, n - 1) + 1
  }

  /** As long as they fill the screen once at most, characters stand in the cells they go to, and no other cell has
      changed. */
  lemma {:induction false} PrintedWithWrap(s: Screen, outs: seq<Out>, k: nat)
    requires OnScreen(s) && k < |outs| <= SCREEN
    requires forall i :: 0 <= i < |outs| ==> outs[i].ch != '\n'
    ensures PutAll(s, outs).cursor == CursorAfter(s.cursor, |outs|)
    ensures PutAll(s, outs).cells[CellAt(s.cursor, k)] == Cell(outs[k].ch, outs[k].color)
    ensures forall i :: 0 <= i < SCREEN && (forall j :: 0 <= j < |outs| ==> CellAt(s.cursor, j) != i) ==>
              PutAll(s, outs).cells[i] == s.cells[i]
    decreases |outs|
  {
    hide Cell;
    var r := PutChar(s, outs[0]);
    if |outs| > 1 {
      PrintedWithWrap(r, outs[1..], if k == 0 then 0 else k - 1);
      assert forall j :: 0 <= j < |outs| - 1 ==> CellAt(r.cursor, j) == CellAt(s.cursor, j + 1);
      if k == 0 {
        assert forall j :: 0 <= j < |outs| - 1 ==> CellAt(r.cursor, j) != CellAt(s.cursor, 0);
      }
      forall i | 0 <= i < SCREEN && (forall j :: 0 <= j < |outs| ==> CellAt(s.cursor, j) != i)
        ensures PutAll(s, outs).cells[i] == s.cells[i]
      {
        assert CellAt(s.cursor, 0) != i;
        forall j | 0 <= j < |outs| - 1 ensures CellAt(r.cursor, j) != i {
          assert CellAt(s.cursor, j + 1) != i;
        }
      }
    } else {
      assert outs[1..] == [];
      forall i | 0 <= i < SCREEN && (forall j :: 0 <= j < |outs| ==> CellAt(s.cursor, j) != i)
        ensures PutAll(s, outs).cells[i] == s.cells[i]
      {
        assert CellAt(s.cursor, 0) != i;
      }
    }
  }

  /** A newline blanks the rest of its row and goes to the start of the next one. */
  lemma NewlineEndsRow(s: Screen, color: bv16)
    requires OnScreen(s)
    ensures var at, r := if s.cursor == 2000 then 0 else s.cursor, PutChar(s, Out('\n', color));
            && r.cursor % 80 == 0 && at < r.cursor <= at + 80
            && forall i :: 0 <= i < 2000 ==> r.cells[i] == if at <= i < r.cursor then Cell(' ', color) else s.cells[i]
  {}
}
