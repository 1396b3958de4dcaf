/** What a directive leaves, character by character: digits, sign, zeros and padding as its flags, width and precision
    ask for. */
module PrintedFields {
  import opened Machine
  import opened Format
  import opened PrintProperties
  import opened FormatStrings

  // --- Digits ----------------------------------------------------------------------------------------

  /** The characters of a number: decimal digits, or hexadecimal ones in the case the conversion asks for. */
  predicate IsCharOf(conversion: char, c: char)
  {
    || '0' <= c <= '9'
    || (conversion == 'x' && 'a' <= c <= 'f')
    || (conversion == 'X' && 'A' <= c <= 'F')
  }

  lemma TableIsInCase(conversion: char)
    requires IsNumeric(conversion)
    ensures forall d :: 0 <= d < BaseOf(conversion) ==> IsCharOf(conversion, TableOf(conversion)[d])
  {}

  lemma {:induction false} DigitsAreInCase(conversion: char, value: nat, base: nat, digits: seq<char>)
    requires 2 <= base <= |digits| && forall d :: 0 <= d < base ==> IsCharOf(conversion, digits[d])
    ensures forall i :: 0 <= i < |Digits(value, base, digits)| ==> IsCharOf(conversion, Digits(value, base, digits)[i])
  {
    hide IsCharOf;
    if value >= base {
      DivisionShrinks(value, base);
      DigitsAreInCase(conversion, value / base, base, digits);
    }
  }

  lemma {:induction false} NoLeadingZero(value: nat, base: nat, digits: seq<char>)
    requires DigitTable(digits, base)
    ensures Digits(value, base, digits)[0] == '0' ==> value == 0 && |Digits(value, base, digits)| == 1
  {
    if value >= base {
      DivisionShrinks(value, base);
      NoLeadingZero(value / base, base, digits);
    } else {
      assert DigitValue(digits[value]) == value;
    }
  }

  /** s is the number in the conversion's base and case, without a leading zero unless it is 0. */
  predicate IsNumberText(conversion: char, value: nat, s: seq<char>)
  {
    var base := if conversion == 'x' || conversion == 'X' then 16 else 10;
    && s != [] && (s[0] == '0' ==> |s| == 1)
    && AllDigits(s, base) && ReadDigits(s, base, 0).0 == value
    && forall i :: 0 <= i < |s| ==> IsCharOf(conversion, s[i])
  }

  /** The number as a numeric conversion writes it. */
  function Shortest(conversion: char, value: nat): (s: seq<char>)
    requires IsNumeric(conversion)
    ensures IsNumberText(conversion, value, s)
  {
    TablesAreDigits();
    DigitsReadBack(value, BaseOf(conversion), TableOf(conversion));
    TableIsInCase(conversion);
    DigitsAreInCase(conversion, value, BaseOf(conversion), TableOf(conversion));
    NoLeadingZero(value, BaseOf(conversion), TableOf(conversion));
    Digits(value, BaseOf(conversion), TableOf(conversion))
  }

  lemma SameDigitSameCharacter(conversion: char, c: char, d: char)
    requires IsCharOf(conversion, c) && IsCharOf(conversion, d) && DigitValue(c) == DigitValue(d)
    ensures c == d
  {}

  lemma LastDigit(s: seq<char>, base: nat)
    requires s != [] && AllDigits(s, base)
    ensures ReadDigits(s, base, 0).0 == ReadDigits(s[..|s| - 1], base, 0).0 * base + DigitValue(s[|s| - 1])
  {
    var init, last := s[..|s| - 1], [s[|s| - 1]];
    assert s == init + last;
    ReadDigitsSplit(init, last, base, 0);
    assert IsDigitOf(last[0], base) && last[1..] == [];
  }

  lemma QuotientAndDigit(value: nat, high: int, low: int, base: nat)
    requires (base == 10 || base == 16) && value == high * base + low && 0 <= low < base
    ensures 0 <= high && (0 < high ==> base <= value && value / base == high && value % base == low)
  {}

  /** A number has no other text of this kind. */
  lemma {:induction false} ShortestIsUnique(conversion: char, value: nat, s: seq<char>)
    requires IsNumeric(conversion) && IsNumberText(conversion, value, s)
    ensures s == Shortest(conversion, value)
    decreases |s|
  {
    hide ReadDigits, IsCharOf, DigitValue;
    var base, n := BaseOf(conversion), |s|;
    var init, last := s[..n - 1], s[n - 1];
    TablesAreDigits();
    TableIsInCase(conversion);
    LastDigit(s, base);
    assert IsDigitOf(last, base);
    var high := ReadDigits(init, base, 0).0;
    QuotientAndDigit(value, high, DigitValue(last), base);
    SameDigitSameCharacter(conversion, last, TableOf(conversion)[DigitValue(last)]);
    if n == 1 {
      NothingRead(base);
      assert init == [] && s == [last];
    } else {
      ShortestIsUnique(conversion, high, init);
      assert high != 0;
      assert s == init + [last];
    }
  }

  lemma NothingRead(base: nat)
    ensures ReadDigits([], base, 0).0 == 0
  {}

  // --- Fields ----------------------------------------------------------------------------------------

  /** Padded with spaces to the width, on the right or on the left. */
  function Spaced(content: seq<char>, width: int, left: bool): (s: seq<char>)
  {
    var spaces := Repeat(' ', width - |content|);
    if left then content + spaces else spaces + content
  }

  /** The characters of a field whose text has been cut to its precision. */
  lemma FieldOfText(flags: Flags, width: int, precision: int, t: Text, sign: seq<char>, zeros: int, kept: seq<char>)
    requires sign == SignText(flags, t) && zeros == Zeros(flags, width, precision, t)
    requires kept == t.data[..TextLength(t, precision)]
    ensures Field(flags, width, precision, t) == Spaced(sign + Repeat('0', zeros) + kept, width, flags.left)
  {
    hide SignText, Zeros, TextLength, Repeat;
    var content := sign + Repeat('0', zeros) + kept;
    var pad := width - |content|;
    assert |content| == |sign| + zeros + |kept| by { ZerosAreCounted(flags, width, precision, t); }
    var before, after := if flags.left then 0 else pad, Repeat(' ', if flags.left then pad else 0);
    FieldParts(flags, width, precision, t, before, after);
    assert sign + (Repeat('0', zeros) + (kept + after)) == content + after;
  }

  lemma ZerosAreCounted(flags: Flags, width: int, precision: int, t: Text)
    ensures 0 <= Zeros(flags, width, precision, t)
  {}

  /** What stands between the sign and the spaces: zeros and digits, or the digits the precision leaves. */
  function NumberBody(precision: int, digits: seq<char>): seq<char>
  {
    if precision < 0 then digits
    else if |digits| <= precision then Repeat('0', precision - |digits|) + digits
    else digits[..precision]
  }

  /** The text of a number is its digits, or nothing for a 0 with precision 0. */
  predicate TextOfDigits(precision: int, digits: seq<char>, text: seq<char>)
  {
    StrLen(text) == |text| && digits != [] && (text == digits || (precision == 0 && text == []))
  }

  lemma ZeroFilledField(flags: Flags, width: int, precision: int, digits: seq<char>, t: Text)
    requires t.numeric && TextOfDigits(precision, digits, t.data)
    requires precision < 0 && flags.zero && !flags.left
    ensures var sign := SignText(flags, t);
            Field(flags, width, precision, t) == sign + Repeat('0', width - |sign| - |digits|) + digits
  {
    hide Field, StrLen, Repeat, Zeros, SignText, TextLength, Spaced;
    PartsOfNumber(flags, width, precision, t);
    var sign, zeros := SignText(flags, t), Zeros(flags, width, precision, t);
    assert digits[..|digits|] == digits;
    FieldOfText(flags, width, precision, t, sign, zeros, digits);
    NotSpaced(sign + Repeat('0', zeros) + digits, width);
    assert Repeat('0', zeros) == Repeat('0', width - |sign| - |digits|);
  }

  lemma OtherNumberField(flags: Flags, width: int, precision: int, digits: seq<char>, t: Text)
    requires t.numeric && TextOfDigits(precision, digits, t.data)
    requires !(precision < 0 && flags.zero && !flags.left)
    ensures Field(flags, width, precision, t)
         == Spaced(SignText(flags, t) + NumberBody(precision, digits), width, flags.left)
  {
    hide Field, StrLen, Repeat, Zeros, SignText, TextLength, Spaced, NumberBody;
    PartsOfNumber(flags, width, precision, t);
    var zeros, kept := Zeros(flags, width, precision, t), t.data[..TextLength(t, precision)];
    FieldOfText(flags, width, precision, t, SignText(flags, t), zeros, kept);
    BodyOfText(SignText(flags, t), zeros, kept, precision, digits, t.data);
  }

  lemma BodyOfText(sign: seq<char>, zeros: int, kept: seq<char>, precision: int, digits: seq<char>, text: seq<char>)
    requires TextOfDigits(precision, digits, text)
    requires zeros == if |text| < precision then precision - |text| else 0
    requires kept == text[..if 0 <= precision < |text| then precision else |text|]
    ensures sign + Repeat('0', zeros) + kept == sign + NumberBody(precision, digits)
  {
    hide StrLen, Repeat;
    assert text[..|text|] == text;
    if precision < |digits| {
      assert Repeat('0', zeros) == [];
      assert kept == NumberBody(precision, digits);
    } else {
      assert sign + Repeat('0', zeros) + kept == sign + (Repeat('0', zeros) + kept);
    }
  }

  lemma NotSpaced(content: seq<char>, width: int)
    requires width <= |content|
    ensures Spaced(content, width, false) == content
  {}

  lemma PartsOfNumber(flags: Flags, width: int, precision: int, t: Text)
    requires t.numeric && StrLen(t.data) == |t.data|
    ensures SignText(flags, t) == if t.negative then "-" else if flags.plus then "+" else if flags.space then " " else ""
    ensures TextLength(t, precision) == if 0 <= precision < |t.data| then precision else |t.data|
    ensures var missing := width - |SignText(flags, t)| - |t.data|;
            Zeros(flags, width, precision, t)
            == if precision < 0 && flags.zero && !flags.left && 0 < missing then missing
               else if |t.data| < precision then precision - |t.data| else 0
  {}

  /** A number's field. The sign is '-' for a negative number, and otherwise a '+' or a space if flags ask for one. With
      the zero flag alone it is filled up with zeros between sign and digits, as far as the width; without it, and
      without a precision, there are the digits only. A precision asks for zeros up to as many digits, or leaves just
      that many of the digits. */
  lemma NumberField(flags: Flags, width: int, precision: int, conversion: char, args: seq<Arg>, a: nat)
    requires IsNumeric(conversion) && IsWord(args, a)
    ensures var value := if conversion == 'd' then Signed(args[a].bits) else Unsigned(args[a].bits);
            var sign := if value < 0 then "-" else if flags.plus then "+" else if flags.space then " " else "";
            var digits := Shortest(conversion, if value < 0 then -value else value);
            Field(flags, width, precision, Convert(conversion, args, a, precision))
            == if precision < 0 && flags.zero && !flags.left then
                 sign + Repeat('0', width - |sign| - |digits|) + digits
               else
                 Spaced(sign + NumberBody(precision, digits), width, flags.left)
  {
    hide Convert, Digits, IsNumberText, Field, Spaced, Repeat, StrLen, NumberBody, SignText;
    ConvertsMagnitude(conversion, args, a, precision);
    ConvertedNumber(conversion, args, a, precision);
    var t := Convert(conversion, args, a, precision);
    var digits := Shortest(conversion, Magnitude(conversion, args[a].bits));
    DigitsHaveNoNul(t.data, BaseOf(conversion));
    PartsOfNumber(flags, width, precision, t);
    if precision < 0 && flags.zero && !flags.left {
      ZeroFilledField(flags, width, precision, digits, t);
    } else {
      OtherNumberField(flags, width, precision, digits, t);
    }
  }

  /** The field of a conversion that is no number: no zeros, but a sign where the '+' or the space flag asks for one. */
  lemma TextField(flags: Flags, width: int, precision: int, t: Text)
    requires !t.numeric
    ensures var sign := if flags.plus then "+" else if flags.space then " " else "";
            var kept := if 0 <= precision < StrLen(t.data) then t.data[..precision] else t.data[..StrLen(t.data)];
            Field(flags, width, precision, t) == Spaced(sign + kept, width, flags.left)
  {
    hide Field, StrLen, Repeat;
    var sign, kept := SignText(flags, t), t.data[..TextLength(t, precision)];
    FieldOfText(flags, width, precision, t, sign, 0, kept);
    assert sign + Repeat('0', 0) + kept == sign + kept;
  }

  /** One character, unless it is a NUL or cut off. */
  function OneCharacter(ch: char, precision: int): seq<char>
  {
    if ch == '\0' || precision == 0 then [] else [ch]
  }

  lemma CharacterField(flags: Flags, width: int, precision: int, ch: char)
    ensures var sign := if flags.plus then "+" else if flags.space then " " else "";
            Field(flags, width, precision, Text([ch], false, false))
            == Spaced(sign + OneCharacter(ch, precision), width, flags.left)
  {
    hide Field, Spaced;
    var t := Text([ch], false, false);
    TextField(flags, width, precision, t);
    assert StrLen([ch]) == if ch == '\0' then 0 else 1 by {
      assert [ch][1..] == [];
    }
    assert [ch][..1] == [ch] && [ch][..0] == [];
  }

  /** %c prints the character whose code is the low byte of its argument. */
  lemma ConvertsLowByte(args: seq<Arg>, a: nat, precision: int, ch: char)
    requires IsWord(args, a) && ch as int == args[a].bits % 256
    ensures Convert('c', args, a, precision) == Text([ch], false, false)
  {
    hide Signed;
    LowByteOfWord(args[a].bits);
  }

  lemma LowByteOfWord(x: int)
    ensures Signed(x) % 256 == x % 256
  {}

  /** A conversion that takes no argument prints itself; a format cut short prints a '%'. */
  lemma ConvertsToItself(conversion: char, args: seq<Arg>, a: nat, precision: int)
    requires conversion !in "duxXscC"
    ensures Convert(conversion, args, a, precision)
         == Text([if conversion == '\0' then '%' else conversion], false, false)
  {}

  // --- From the format on ----------------------------------------------------------------------------

  /** What widths and precisions stand for: the first starred one takes argument 0. */
  lemma AmountsStandFor(p: Piece, args: seq<Arg>)
    requires p.Conversion?
    ensures p.width == Absent ==> WidthValue(p.width, args, 0) == -1
    ensures p.precision == Absent ==> PrecisionValue(p.precision, args, ArgAfter(p.width, 0)) == -1
    ensures p.precision == Empty ==> PrecisionValue(p.precision, args, ArgAfter(p.width, 0)) == 0
    ensures forall n: nat :: p.width == Literal(n) ==> WidthValue(p.width, args, 0) == n
    ensures forall n: nat :: p.precision == Literal(n) ==> PrecisionValue(p.precision, args, ArgAfter(p.width, 0)) == n
    ensures p.width == Star && IsWord(args, 0) ==> WidthValue(p.width, args, 0) == Signed(args[0].bits)
    ensures p.precision == Star ==>
              var a := if p.width == Star then 1 else 0;
              IsWord(args, a) ==>
                var x := Signed(args[a].bits);
                PrecisionValue(p.precision, args, ArgAfter(p.width, 0)) == if x < 0 then 0 else x
  {}

  /** What a numeric directive prints, from the format it is written in. */
  lemma NumberIsWritten(p: Piece, args: seq<Arg>, color: bv16)
    requires ValidPiece(p) && p.Conversion? && IsNumeric(p.conversion) && IsWord(args, ConvertedArg(p, 0))
    ensures var bits, width := args[ConvertedArg(p, 0)].bits, WidthValue(p.width, args, 0);
            var precision := PrecisionValue(p.precision, args, ArgAfter(p.width, 0));
            var value := if p.conversion == 'd' then Signed(bits) else Unsigned(bits);
            var sign := if value < 0 then "-" else if '+' in p.flags then "+" else if ' ' in p.flags then " " else "";
            var digits := Shortest(p.conversion, if value < 0 then -value else value);
            Printed([p], args, color)
            == Colored(if precision < 0 && '0' in p.flags && '-' !in p.flags then
                         sign + Repeat('0', width - |sign| - |digits|) + digits
                       else
                         Spaced(sign + NumberBody(precision, digits), width, '-' in p.flags), color)
  {
    hide Printed, Field, Convert, Colored, Repeat, Spaced, NumberBody, IsNumberText, ValidPiece;
    DirectivePrintsField(p, args, color);
    NumberField(AddFlags(NO_FLAGS, p.flags), WidthValue(p.width, args, 0),
                PrecisionValue(p.precision, args, ArgAfter(p.width, 0)), p.conversion, args, ConvertedArg(p, 0));
  }

  /** An empty precision, or one that an argument makes negative, leaves no digits: only the sign and spaces. */
  lemma EmptyPrecisionPrintsNoDigits(p: Piece, args: seq<Arg>, color: bv16)
    requires ValidPiece(p) && p.Conversion? && IsNumeric(p.conversion) && IsWord(args, ConvertedArg(p, 0))
    requires p.precision.Empty?
          || (p.precision.Star? && IsWord(args, ArgAfter(p.width, 0)) && Signed(args[ArgAfter(p.width, 0)].bits) < 0)
    ensures var bits := args[ConvertedArg(p, 0)].bits;
            var sign := if p.conversion == 'd' && Signed(bits) < 0 then "-"
                        else if '+' in p.flags then "+" else if ' ' in p.flags then " " else "";
            Printed([p], args, color) == Colored(Spaced(sign, WidthValue(p.width, args, 0), '-' in p.flags), color)
  {
    hide Printed, Colored, Spaced, Repeat, IsNumberText, ValidPiece, WidthValue, NumberBody;
    NumberIsWritten(p, args, color);
    var value := ValueOf(p.conversion, args[ConvertedArg(p, 0)].bits);
    var sign := if value < 0 then "-" else if '+' in p.flags then "+" else if ' ' in p.flags then " " else "";
    NoBody(sign, Shortest(p.conversion, if value < 0 then -value else value));
  }

  lemma NoBody(sign: seq<char>, digits: seq<char>)
    requires digits != []
    ensures sign + NumberBody(0, digits) == sign
  {}

  /** A directive takes an argument for each '*' and one for its conversion, unless that prints itself. */
  lemma ArgumentsAreCounted(p: Piece, a: nat)
    requires p.Conversion?
    ensures NextArg(p, a) == a + (if p.width.Star? then 1 else 0) + (if p.precision.Star? then 1 else 0)
                             + (if p.conversion in "duxXscC" then 1 else 0)
  {}

  /** What %c and directives that take no argument print: ch is the character whose code is the low byte of the
      argument, or the conversion itself, as for %%. */
  lemma CharacterIsWritten(p: Piece, args: seq<Arg>, color: bv16, ch: char)
    requires ValidPiece(p) && p.Conversion? && (p.conversion == 'c' || p.conversion !in "duxXscC")
    requires if p.conversion == 'c' then IsWord(args, ConvertedArg(p, 0)) && ch as int == args[ConvertedArg(p, 0)].bits % 256
             else ch == p.conversion
    ensures var sign := if '+' in p.flags then "+" else if ' ' in p.flags then " " else "";
            var kept := OneCharacter(ch, PrecisionValue(p.precision, args, ArgAfter(p.width, 0)));
            Printed([p], args, color) == Colored(Spaced(sign + kept, WidthValue(p.width, args, 0), '-' in p.flags), color)
  {
    hide Printed, Field, Convert, Colored, Spaced, OneCharacter, Signed;
    var precision := PrecisionValue(p.precision, args, ArgAfter(p.width, 0));
    DirectivePrintsField(p, args, color);
    CharacterField(AddFlags(NO_FLAGS, p.flags), WidthValue(p.width, args, 0), precision, ch);
    if p.conversion == 'c' {
      ConvertsLowByte(args, ConvertedArg(p, 0), precision, ch);
    } else {
      ConvertsToItself(p.conversion, args, ConvertedArg(p, 0), precision);
    }
  }

  /** %s prints its string up to the first NUL, and no more of it than the precision. */
  lemma StringIsWritten(p: Piece, s: seq<char>, args: seq<Arg>, color: bv16)
    requires ValidPiece(p) && p.Conversion? && p.conversion == 's'
    requires ConvertedArg(p, 0) < |args| && args[ConvertedArg(p, 0)] == Str(s)
    ensures var precision := PrecisionValue(p.precision, args, ArgAfter(p.width, 0));
            var sign := if '+' in p.flags then "+" else if ' ' in p.flags then " " else "";
            var kept := if 0 <= precision < StrLen(s) then s[..precision] else s[..StrLen(s)];
            Printed([p], args, color) == Colored(Spaced(sign + kept, WidthValue(p.width, args, 0), '-' in p.flags), color)
  {
    hide Printed, Field, Colored, Spaced, StrLen;
    DirectivePrintsField(p, args, color);
    TextField(AddFlags(NO_FLAGS, p.flags), WidthValue(p.width, args, 0),
              PrecisionValue(p.precision, args, ArgAfter(p.width, 0)), Text(s, false, false));
  }

  // --- Plain text and colours ------------------------------------------------------------------------

  /** Characters that stand for themselves. */
  function Plains(text: seq<char>): (pieces: seq<Piece>)
    ensures |pieces| == |text|
  {
    if text == [] then [] else [Plain(text[0])] + Plains(text[1..])
  }

  predicate IsPlain(text: seq<char>)
  {
    forall i :: 0 <= i < |text| ==> text[i] != '%' && text[i] != '\0'
  }

  lemma {:induction false} PlainsAreValid(text: seq<char>)
    requires IsPlain(text)
    ensures ValidPieces(Plains(text))
  {
    if text != [] {
      PlainsAreValid(text[1..]);
    }
  }

  lemma {:induction false} PlainsMean(text: seq<char>, rest: seq<char>, args: seq<Arg>, a: nat, color: bv16)
    ensures TextBefore(Plains(text), rest) == text + rest
    ensures Meaning(Plains(text), args, a, color) == Colored(text, color)
  {
    hide TextBefore, Meaning;
    if text == [] {
      NoPieces(rest, args, a, color);
      assert text + rest == rest;
    } else {
      FirstPiece(Plains(text), rest, args, a, color);
      PlainsMean(text[1..], rest, args, a, color);
      assert [text[0]] + (text[1..] + rest) == text + rest;
      assert Colored(text, color) == [Out(text[0], color)] + Colored(text[1..], color);
    }
  }

  /** A format without a '%' prints itself, in the colour it is given. */
  lemma PlainIsPrinted(text: seq<char>, args: seq<Arg>, color: bv16)
    requires IsPlain(text)
    ensures ValidPieces(Plains(text)) && FormatText(Plains(text)) == text + ['\0']
    ensures Printed(Plains(text), args, color) == Colored(text, color)
  {
    hide Emit, Meaning, Colored;
    PlainsAreValid(text);
    PlainsMean(text, ['\0'], args, 0, color);
    FormatMeans(Plains(text), args, color);
  }

  /** %C prints nothing, and what follows it is printed in the colour of its argument's low 16 bits. */
  lemma ColorIsChanged(text: seq<char>, k: int, color: bv16, after: bv16)
    requires IsPlain(text) && after == (k % 0x1_0000) as bv16
    ensures var pieces := [Conversion([], Absent, Absent, 'C')] + Plains(text);
            && ValidPieces(pieces) && FormatText(pieces) == ['%', 'C'] + text + ['\0']
            && Printed(pieces, [Word(k)], color) == Colored(text, after)
  {
    hide Emit, Meaning, Colored, TextBefore, Plains;
    var p, args := Conversion([], Absent, Absent, 'C'), [Word(k)];
    var pieces := [p] + Plains(text);
    PlainsAreValid(text);
    PlainsMean(text, ['\0'], args, 1, after);
    FormatMeans(pieces, args, color);
    assert pieces[1..] == Plains(text);
    LowWord(k);
    assert NextColor(p, args, 0, color) == after;
    FirstPiece(pieces, ['\0'], args, 0, color);
  }

  lemma LowWord(k: int)
    ensures Unsigned(Signed(k)) % 0x1_0000 == k % 0x1_0000
  {}

  lemma TextOf42()
    ensures Shortest('d', 42) == "42"
  {
    assert ReadDigits("42", 10, 0) == ReadDigits("2", 10, 4) == ReadDigits("", 10, 42);
    ShortestIsUnique('d', 42, "42");
  }

  lemma TextOfZeros(p: Piece)
    requires p == Conversion("0", Literal(5), Absent, 'd')
    ensures DirectiveText(p) == "05d"
  {
    assert Digits(5, 10, UPPER_DIGITS) == "5";
  }

  lemma TextOfZerosFormat(p: Piece)
    requires p == Conversion("0", Literal(5), Absent, 'd')
    ensures FormatText([p]) == "%05d" + ['\0']
  {
    hide TextBefore, Meaning, DirectiveText;
    TextOfZeros(p);
    assert [p][1..] == [];
    FirstPiece([p], ['\0'], [], 0, 0);
    NoPieces(['\0'], [], 0, 0);
  }

  /** "%05d" prints 42 as 00042. */
  lemma ZerosAreFilledIn(args: seq<Arg>, color: bv16)
    requires args == [Word(42)]
    ensures var p := Conversion("0", Literal(5), Absent, 'd');
            && ValidPiece(p) && FormatText([p]) == "%05d" + ['\0'] && Printed([p], args, color) == Colored("00042", color)
  {
    hide Colored, Printed, Spaced, NumberBody, Shortest, FormatText, Digits;
    var p := Conversion("0", Literal(5), Absent, 'd');
    NumberIsWritten(p, args, color);
    TextOf42();
    TextOfZerosFormat(p);
    assert "" + Repeat('0', 3) + "42" == "00042";
  }
}
