/** What console_vprintf prints: the meaning of a format string, and of the characters it sends to the screen. */
module Format {
  import opened Divisibility
  import opened Machine

  // --- The screen ------------------------------------------------------------------------------------

  const COLUMNS: int := 80
  const SCREEN: nat := 2000

  /** cursor counts cells from the upper left corner; SCREEN itself is the position past the last cell. */
  datatype Screen = Screen(cells: seq<bv16>, cursor: int)

  /** A character with the colour it is printed in. */
  datatype Out = Out(ch: char, color: bv16)

  predicate OnScreen(s: Screen)
  {
    |s.cells| == SCREEN && 0 <= s.cursor <= SCREEN
  }

  /** The unsigned char console_putc takes. */
  function Byte(ch: char): bv8
  {
    (ch as int % 256) as bv8
  }

  /** c | color */
  function Cell(ch: char, color: bv16): bv16
  {
    (Byte(ch) as bv16) | color
  }

  function Filled(cells: seq<bv16>, from: int, to: int, cell: bv16): seq<bv16>
  {
    seq(|cells|, i requires 0 <= i < |cells| => if from <= i < to then cell else cells[i])
  }

  /** One character: wrap to the top when past the end, fill the rest of the row for a newline. */
  function PutChar(s: Screen, o: Out): (r: Screen)
    requires OnScreen(s)
    ensures OnScreen(r)
  {
    var at := if s.cursor >= SCREEN then 0 else s.cursor;
    if o.ch == '\n' then
      var end := at - at % COLUMNS + COLUMNS;
      Screen(Filled(s.cells, at, end, Cell(' ', o.color)), end)
    else
      Screen(s.cells[at := Cell(o.ch, o.color)], at + 1)
  }

  function PutAll(s: Screen, outs: seq<Out>): (r: Screen)
    requires OnScreen(s)
    ensures OnScreen(r)
    decreases |outs|
  {
    if outs == [] then s else PutAll(PutChar(s, outs[0]), outs[1..])
  }

  function Colored(s: seq<char>, color: bv16): seq<Out>
  {
    seq(|s|, i requires 0 <= i < |s| => Out(s[i], color))
  }

  // --- Strings and numbers ---------------------------------------------------------------------------

  /** The index of the first NUL, or the length where there is none. */
  function StrLen(s: seq<char>): (n: nat)
    ensures n <= |s|
    ensures n < |s| ==> s[n] == '\0'
    ensures forall i :: 0 <= i < n ==> s[i] != '\0'
  {
    if s == [] || s[0] == '\0' then 0 else 1 + StrLen(s[1..])
  }

  function Repeat(c: char, n: int): (s: seq<char>)
    ensures |s| == if n > 0 then n else 0
    ensures forall i :: 0 <= i < |s| ==> s[i] == c
  {
    if n <= 0 then [] else [c] + Repeat(c, n - 1)
  }

  const UPPER_DIGITS: seq<char> := "0123456789ABCDEF"
  const LOWER_DIGITS: seq<char> := "0123456789abcdef"

  lemma DivisionShrinks(value: nat, base: nat)
    requires 2 <= base <= value
    ensures 0 <= value / base < value && 0 <= value % base < base
  {
    var q := value / base;
    MulOrder(q, 2, base);
  }

  /** The digits of a value, most significant first. */
  function Digits(value: nat, base: nat, digits: seq<char>): (s: seq<char>)
    requires 2 <= base <= |digits|
    ensures 1 <= |s|
  {
    if value < base then [digits[value]]
    else
      DivisionShrinks(value, base);
      Digits(value / base, base, digits) + [digits[value % base]]
  }

  /** What fill_numbuf leaves before the NUL: nothing for a zero printed with precision 0. */
  function NumberText(value: nat, base: nat, digits: seq<char>, precision: int): seq<char>
    requires 2 <= base <= |digits|
  {
    if precision != 0 || value != 0 then Digits(value, base, digits) else []
  }

  // --- Directives ------------------------------------------------------------------------------------

  /** A 32-bit argument word, or the bytes a char pointer argument points to. */
  datatype Arg = Word(bits: int) | Str(s: seq<char>)

  datatype Flags = Flags(alt: bool, zero: bool, left: bool, space: bool, plus: bool)

  const NO_FLAGS: Flags := Flags(false, false, false, false, false)

  predicate IsFlag(c: char)
  {
    c == '#' || c == '0' || c == '-' || c == ' ' || c == '+'
  }

  function SetFlag(f: Flags, c: char): Flags
  {
    if c == '#' then f.(alt := true)
    else if c == '0' then f.(zero := true)
    else if c == '-' then f.(left := true)
    else if c == ' ' then f.(space := true)
    else f.(plus := true)
  }

  predicate IsDigit(c: char)
  {
    '0' <= c <= '9'
  }

  /** A format: a NUL at its end and nowhere before. */
  predicate CString(f: seq<char>)
  {
    0 < |f| && f[|f| - 1] == '\0' && forall i :: 0 <= i < |f| - 1 ==> f[i] != '\0'
  }

  function ParseFlags(f: seq<char>, i: nat, flags: Flags): (r: (Flags, nat))
    requires CString(f) && i < |f|
    ensures i <= r.1 < |f|
    decreases |f| - i
  {
    if IsFlag(f[i]) then ParseFlags(f, i + 1, SetFlag(flags, f[i])) else (flags, i)
  }

  function ParseNumber(f: seq<char>, i: nat, value: int): (r: (int, nat))
    requires CString(f) && i < |f|
    ensures i <= r.1 < |f|
    decreases |f| - i
  {
    if IsDigit(f[i]) then ParseNumber(f, i + 1, 10 * value + (f[i] as int - '0' as int)) else (value, i)
  }

  function IntArg(args: seq<Arg>, a: nat): int
  {
    if a < |args| && args[a].Word? then Signed(args[a].bits) else 0
  }

  predicate IsWord(args: seq<Arg>, a: nat)
  {
    a < |args| && args[a].Word?
  }

  /** A width or precision: its value, the index after it, and the next argument. */
  datatype Spec = Spec(value: int, next: nat, arg: nat)

  function ParseWidth(f: seq<char>, i: nat, args: seq<Arg>, a: nat): (r: Spec)
    requires CString(f) && i < |f|
    ensures i <= r.next < |f|
  {
    if '1' <= f[i] <= '9' then var (value, next) := ParseNumber(f, i, 0); Spec(value, next, a)
    else if f[i] == '*' then Spec(IntArg(args, a), i + 1, a + 1)
    else Spec(-1, i, a)
  }

  function ParsePrecision(f: seq<char>, i: nat, args: seq<Arg>, a: nat): (r: Spec)
    requires CString(f) && i < |f|
    ensures i <= r.next < |f| && -1 <= r.value
  {
    if f[i] != '.' then Spec(-1, i, a)
    else
      var r := if IsDigit(f[i + 1]) then var (value, next) := ParseNumber(f, i + 1, 0); Spec(value, next, a)
               else if f[i + 1] == '*' then Spec(IntArg(args, a), i + 2, a + 1)
               else Spec(-1, i + 1, a);
      if r.value < 0 then r.(value := 0) else r
  }

  datatype Directive = Directive(flags: Flags, width: int, precision: int, at: nat, arg: nat)

  /** The directive whose '%' is before index i; `at` is the index of its conversion character. */
  function ParseDirective(f: seq<char>, i: nat, args: seq<Arg>, a: nat): (d: Directive)
    requires CString(f) && i < |f|
    ensures i <= d.at < |f|
  {
    var (flags, w) := ParseFlags(f, i, NO_FLAGS);
    var width := ParseWidth(f, w, args, a);
    var precision := ParsePrecision(f, width.next, args, width.arg);
    Directive(flags, width.value, precision.value, precision.next, precision.arg)
  }

  /** What a conversion prints: its characters (up to a NUL), whether it is a number, and a negative one. */
  datatype Text = Text(data: seq<char>, numeric: bool, negative: bool)

  function Convert(conversion: char, args: seq<Arg>, a: nat, precision: int): Text
  {
    if conversion == 'd' then
      var x := IntArg(args, a);
      Text(NumberText(Unsigned(if x > 0 then x else -x), 10, UPPER_DIGITS, precision), true, x < 0)
    else if conversion == 'u' then
      Text(NumberText(Unsigned(IntArg(args, a)), 10, UPPER_DIGITS, precision), true, false)
    else if conversion == 'x' then
      Text(NumberText(Unsigned(IntArg(args, a)), 16, LOWER_DIGITS, precision), true, false)
    else if conversion == 'X' then
      Text(NumberText(Unsigned(IntArg(args, a)), 16, UPPER_DIGITS, precision), true, false)
    else if conversion == 's' then
      Text(if a < |args| && args[a].Str? then args[a].s else [], false, false)
    else if conversion == 'c' then
      Text([(IntArg(args, a) % 256) as char], false, false)
    else
      Text([if conversion == '\0' then '%' else conversion], false, false)
  }

  predicate TakesArgument(conversion: char)
  {
    conversion in "duxXscC"
  }

  function SignText(flags: Flags, t: Text): seq<char>
  {
    if t.numeric && t.negative then "-" else if flags.plus then "+" else if flags.space then " " else ""
  }

  function TextLength(t: Text, precision: int): (n: nat)
    ensures n <= |t.data|
  {
    if 0 <= precision < StrLen(t.data) then precision else StrLen(t.data)
  }

  function Zeros(flags: Flags, width: int, precision: int, t: Text): int
  {
    var len, sign := TextLength(t, precision), |SignText(flags, t)|;
    if t.numeric && precision > len then precision - len
    else if flags.zero && !flags.left && t.numeric && precision < 0 && len + sign < width then width - len - sign
    else 0
  }

  /** The field a directive prints. */
  function Field(flags: Flags, width: int, precision: int, t: Text): seq<char>
  {
    var len, sign, zeros := TextLength(t, precision), SignText(flags, t), Zeros(flags, width, precision, t);
    var pad := width - (len + zeros + |sign|);
    Repeat(' ', if flags.left then 0 else pad)
    + (sign + (Repeat('0', zeros) + (t.data[..len] + Repeat(' ', if flags.left then pad else 0))))
  }

  lemma FieldParts(flags: Flags, width: int, precision: int, t: Text, before: int, tail: seq<char>)
    requires var pad := width - (TextLength(t, precision) + Zeros(flags, width, precision, t) + |SignText(flags, t)|);
             before == (if flags.left then 0 else pad) && tail == Repeat(' ', if flags.left then pad else 0)
    ensures var data, zeros := t.data[..TextLength(t, precision)], Repeat('0', Zeros(flags, width, precision, t));
            Field(flags, width, precision, t) == Repeat(' ', before) + (SignText(flags, t) + (zeros + (data + tail)))
  {}

  /** What a directive prints, and where printing goes on: index, next argument, colour. */
  datatype Progress = Progress(outs: seq<Out>, next: nat, arg: nat, color: bv16)

  /** The directive whose '%' is before index i. One cut short by the NUL prints '%' and goes on at the NUL. */
  function AfterDirective(f: seq<char>, i: nat, args: seq<Arg>, a: nat, color: bv16): (p: Progress)
    requires CString(f) && i < |f|
    ensures i <= p.next < |f|
  {
    var d := ParseDirective(f, i, args, a);
    var conversion := f[d.at];
    if conversion == 'C' then
      Progress([], d.at + 1, d.arg + 1, (Unsigned(IntArg(args, d.arg)) % 0x1_0000) as bv16)
    else
      Progress(Colored(Field(d.flags, d.width, d.precision, Convert(conversion, args, d.arg, d.precision)), color),
               if conversion == '\0' then d.at else d.at + 1,
               if TakesArgument(conversion) then d.arg + 1 else d.arg, color)
  }

  /** Everything the format prints from index i on. */
  function Emit(f: seq<char>, i: nat, args: seq<Arg>, a: nat, color: bv16): seq<Out>
    requires CString(f) && i < |f|
    decreases |f| - i
  {
    if f[i] == '\0' then []
    else if f[i] != '%' then [Out(f[i], color)] + Emit(f, i + 1, args, a, color)
    else
      var p := AfterDirective(f, i + 1, args, a, color);
      p.outs + Emit(f, p.next, args, p.arg, p.color)
  }

  /** The arguments of the directive have the types it asks for, and a string argument ends where it is read. */
  predicate DirectiveMatches(f: seq<char>, i: nat, args: seq<Arg>, a: nat)
    requires CString(f) && i < |f|
  {
    var d := ParseDirective(f, i, args, a);
    var conversion := f[d.at];
    && (forall b :: a <= b < d.arg ==> IsWord(args, b))
    && ArgumentFits(conversion, args, d.arg, d.precision)
  }

  predicate ArgumentFits(conversion: char, args: seq<Arg>, a: nat, precision: int)
  {
    if conversion == 's' then a < |args| && args[a].Str? && StringEnds(args[a].s, precision)
    else TakesArgument(conversion) ==> IsWord(args, a)
  }

  lemma ColorDoesNotSteer(f: seq<char>, i: nat, args: seq<Arg>, a: nat, color: bv16)
    requires CString(f) && i < |f|
    ensures var p, q := AfterDirective(f, i, args, a, color), AfterDirective(f, i, args, a, 0);
            p.next == q.next && p.arg == q.arg
  {}

  /** The arguments match the format from index i on. */
  predicate Matches(f: seq<char>, i: nat, args: seq<Arg>, a: nat)
    requires CString(f) && i < |f|
    decreases |f| - i
  {
    if f[i] == '\0' then true
    else if f[i] != '%' then Matches(f, i + 1, args, a)
    else
      var p := AfterDirective(f, i + 1, args, a, 0);
      DirectiveMatches(f, i + 1, args, a) && Matches(f, p.next, args, p.arg)
  }

  predicate StringEnds(s: seq<char>, precision: int)
  {
    '\0' in s || 0 <= precision <= |s|
  }
}
