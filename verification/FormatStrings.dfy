/** What a format string means: a format written from its parts is read back as those parts. */
module FormatStrings {
  import opened Wrappers
  import opened Machine
  import opened Format
  import opened PrintProperties

  // --- Formats and their parts -----------------------------------------------------------------------

  /** A width or precision as written in a format. Only a precision can be empty: a '.' with nothing after it. */
  datatype Amount = Absent | Empty | Literal(n: nat) | Star

  /** A character that stands for itself, or a directive. */
  datatype Piece = Plain(ch: char) | Conversion(flags: seq<char>, width: Amount, precision: Amount, conversion: char)

  /** A character that ends the flags, the width and the precision before it. */
  predicate EndsAmounts(c: char)
  {
    !IsFlag(c) && !IsDigit(c) && c != '.' && c != '*'
  }

  /** A directive that can be written so that it is read back; one cut short has the NUL for its conversion. */
  predicate ValidDirective(p: Piece)
  {
    && p.Conversion? && (forall i :: 0 <= i < |p.flags| ==> IsFlag(p.flags[i]))
    && !p.width.Empty? && (p.width.Literal? ==> 1 <= p.width.n)
    && EndsAmounts(p.conversion)
  }

  predicate ValidPiece(p: Piece)
  {
    if p.Plain? then p.ch != '%' && p.ch != '\0' else ValidDirective(p) && p.conversion != '\0'
  }

  function AmountText(amount: Amount): seq<char>
  {
    match amount
    case Literal(n) => Digits(n, 10, UPPER_DIGITS)
    case Star => "*"
    case _ => ""
  }

  function PrecisionText(precision: Amount): seq<char>
  {
    if precision.Absent? then "" else "." + AmountText(precision)
  }

  /** The directive as written after its '%'. */
  function DirectiveText(p: Piece): (s: seq<char>)
    requires p.Conversion?
    ensures s != [] && s[|s| - 1] == p.conversion
  {
    p.flags + (AmountText(p.width) + (PrecisionText(p.precision) + [p.conversion]))
  }

  function PieceText(p: Piece): seq<char>
  {
    match p
    case Plain(ch) => [ch]
    case Conversion(_, _, _, _) => ['%'] + DirectiveText(p)
  }

  /** The pieces as written, and what comes after them. */
  function TextBefore(pieces: seq<Piece>, rest: seq<char>): seq<char>
  {
    if pieces == [] then rest else PieceText(pieces[0]) + TextBefore(pieces[1..], rest)
  }

  /** The format string, up to and including its NUL. */
  function FormatText(pieces: seq<Piece>): seq<char>
  {
    TextBefore(pieces, ['\0'])
  }

  lemma {:induction false} RestComesLast(pieces: seq<Piece>, rest: seq<char>)
    ensures var f := TextBefore(pieces, rest);
            |rest| <= |f| && f[|f| - |rest|..] == rest
  {
    hide PieceText;
    if pieces != [] {
      RestComesLast(pieces[1..], rest);
      SuffixOfSuffix(PieceText(pieces[0]), TextBefore(pieces[1..], rest), |rest|);
    }
  }

  lemma SuffixOfSuffix(s: seq<char>, t: seq<char>, n: nat)
    requires n <= |t|
    ensures (s + t)[|s + t| - n..] == t[|t| - n..]
  {}

  predicate ValidPieces(pieces: seq<Piece>)
  {
    forall i :: 0 <= i < |pieces| ==> ValidPiece(pieces[i])
  }

  // --- What the parts mean ---------------------------------------------------------------------------

  /** Flags set before, and those written, in any order and any number of times. */
  function AddFlags(flags: Flags, written: seq<char>): Flags
  {
    Flags(flags.alt || '#' in written, flags.zero || '0' in written, flags.left || '-' in written,
          flags.space || ' ' in written, flags.plus || '+' in written)
  }

  function WidthValue(width: Amount, args: seq<Arg>, a: nat): int
  {
    match width
    case Literal(n) => n
    case Star => IntArg(args, a)
    case _ => -1
  }

  function PrecisionValue(precision: Amount, args: seq<Arg>, a: nat): int
  {
    match precision
    case Absent => -1
    case Empty => 0
    case Literal(n) => n
    case Star => if IntArg(args, a) < 0 then 0 else IntArg(args, a)
  }

  /** The argument after those an amount takes. */
  function ArgAfter(amount: Amount, a: nat): nat
  {
    if amount.Star? then a + 1 else a
  }

  /** The argument a directive converts. */
  function ConvertedArg(p: Piece, a: nat): nat
    requires p.Conversion?
  {
    ArgAfter(p.precision, ArgAfter(p.width, a))
  }

  function FieldOf(p: Piece, args: seq<Arg>, a: nat): seq<char>
    requires p.Conversion?
  {
    var precision := PrecisionValue(p.precision, args, ArgAfter(p.width, a));
    Field(AddFlags(NO_FLAGS, p.flags), WidthValue(p.width, args, a), precision,
          Convert(p.conversion, args, ConvertedArg(p, a), precision))
  }

  /** What a piece prints. */
  function PieceOuts(p: Piece, args: seq<Arg>, a: nat, color: bv16): seq<Out>
  {
    if p.Plain? then [Out(p.ch, color)]
    else if p.conversion == 'C' then []
    else Colored(FieldOf(p, args, a), color)
  }

  /** The argument after those a piece takes. */
  function NextArg(p: Piece, a: nat): nat
  {
    if p.Plain? then a
    else if TakesArgument(p.conversion) then ConvertedArg(p, a) + 1
    else ConvertedArg(p, a)
  }

  /** The colour after a piece: only %C changes it. */
  function NextColor(p: Piece, args: seq<Arg>, a: nat, color: bv16): bv16
  {
    if p.Conversion? && p.conversion == 'C' then (Unsigned(IntArg(args, ConvertedArg(p, a))) % 0x1_0000) as bv16 else color
  }

  /** What the pieces print, in order, from argument a on and in the given colour. */
  function Meaning(pieces: seq<Piece>, args: seq<Arg>, a: nat, color: bv16): seq<Out>
  {
    if pieces == [] then []
    else
      var p := pieces[0];
      PieceOuts(p, args, a, color) + Meaning(pieces[1..], args, NextArg(p, a), NextColor(p, args, a, color))
  }

  /** The piece has the arguments it takes. */
  predicate HasArgument(p: Piece, args: seq<Arg>, a: nat)
  {
    p.Conversion? ==>
      && (forall c :: a <= c < ConvertedArg(p, a) ==> IsWord(args, c))
      && ArgumentFits(p.conversion, args, ConvertedArg(p, a), PrecisionValue(p.precision, args, ArgAfter(p.width, a)))
  }

  predicate HasArguments(pieces: seq<Piece>, args: seq<Arg>, a: nat)
  {
    pieces != [] ==> HasArgument(pieces[0], args, a) && HasArguments(pieces[1..], args, NextArg(pieces[0], a))
  }

  // --- A written format is a C string ----------------------------------------------------------------

  predicate NoNul(s: seq<char>)
  {
    forall i :: 0 <= i < |s| ==> s[i] != '\0'
  }

  lemma LiteralIsDigits(n: nat)
    ensures AllDigits(Digits(n, 10, UPPER_DIGITS), 10) && NoNul(Digits(n, 10, UPPER_DIGITS))
    ensures ReadDigits(Digits(n, 10, UPPER_DIGITS), 10, 0).0 == n
  {
    TablesAreDigits();
    DigitsReadBack(n, 10, UPPER_DIGITS);
    forall i | 0 <= i < |Digits(n, 10, UPPER_DIGITS)| ensures Digits(n, 10, UPPER_DIGITS)[i] != '\0' {
      assert IsDigitOf(Digits(n, 10, UPPER_DIGITS)[i], 10);
    }
  }

  lemma AmountHasNoNul(amount: Amount)
    ensures NoNul(AmountText(amount))
  {
    if amount.Literal? {
      LiteralIsDigits(amount.n);
    }
  }

  lemma PieceHasNoNul(p: Piece)
    requires ValidPiece(p)
    ensures PieceText(p) != [] && NoNul(PieceText(p))
  {
    if p.Conversion? {
      AmountHasNoNul(p.width);
      AmountHasNoNul(p.precision);
    }
  }

  lemma {:induction false} TextIsCString(pieces: seq<Piece>, rest: seq<char>)
    requires ValidPieces(pieces) && CString(rest)
    ensures CString(TextBefore(pieces, rest))
  {
    if pieces != [] {
      PieceHasNoNul(pieces[0]);
      TextIsCString(pieces[1..], rest);
    }
  }

  lemma FormatIsCString(pieces: seq<Piece>)
    requires ValidPieces(pieces)
    ensures CString(FormatText(pieces))
  {
    TextIsCString(pieces, ['\0']);
  }

  // --- The parts are read back -----------------------------------------------------------------------

  /** At index i the format goes on with text and then rest. */
  predicate Reads(f: seq<char>, i: nat, text: seq<char>, rest: seq<char>)
  {
    i <= |f| && f[i..] == text + rest
  }

  lemma ReadsOn(f: seq<char>, i: nat, text: seq<char>, more: seq<char>, rest: seq<char>)
    requires Reads(f, i, text + more, rest)
    ensures Reads(f, i, text, more + rest) && Reads(f, i + |text|, more, rest)
  {
    assert (text + more) + rest == text + (more + rest);
    assert f[i..][|text|..] == f[i + |text|..];
  }

  lemma FirstRead(f: seq<char>, i: nat, text: seq<char>, rest: seq<char>)
    requires Reads(f, i, text, rest) && text + rest != []
    ensures i < |f| && f[i] == (text + rest)[0]
    ensures text != [] ==> f[i] == text[0] && Reads(f, i + 1, text[1..], rest)
    ensures text == [] ==> f[i] == rest[0]
  {
    assert f[i] == f[i..][0];
    assert f[i..][1..] == f[i + 1..];
    if text != [] {
      assert (text + rest)[1..] == text[1..] + rest;
    }
  }

  lemma {:induction false} FlagsAreRead(f: seq<char>, i: nat, written: seq<char>, rest: seq<char>, flags: Flags)
    requires CString(f) && Reads(f, i, written, rest) && rest != [] && !IsFlag(rest[0])
    requires forall k :: 0 <= k < |written| ==> IsFlag(written[k])
    ensures i < |f| && ParseFlags(f, i, flags) == (AddFlags(flags, written), i + |written|)
    decreases |written|
  {
    hide AddFlags, SetFlag, IsFlag, Reads;
    FirstRead(f, i, written, rest);
    FlagsAdd(flags, written);
    if written != [] {
      FirstRead(f, i + 1, written[1..], rest);
      FlagsAreRead(f, i + 1, written[1..], rest, SetFlag(flags, written[0]));
    }
  }

  lemma FlagsAdd(flags: Flags, written: seq<char>)
    requires forall k :: 0 <= k < |written| ==> IsFlag(written[k])
    ensures AddFlags(flags, written)
         == if written == [] then flags else AddFlags(SetFlag(flags, written[0]), written[1..])
  {
    assert written != [] ==> written == [written[0]] + written[1..];
  }

  lemma {:induction false} NumberIsRead(f: seq<char>, i: nat, s: seq<char>, rest: seq<char>, value: int)
    requires CString(f) && Reads(f, i, s, rest) && rest != [] && !IsDigit(rest[0]) && AllDigits(s, 10)
    ensures i < |f| && ParseNumber(f, i, value) == (ReadDigits(s, 10, value).0, i + |s|)
    decreases |s|
  {
    FirstRead(f, i, s, rest);
    if s != [] {
      assert IsDigitOf(s[0], 10);
      FirstRead(f, i + 1, s[1..], rest);
      NumberIsRead(f, i + 1, s[1..], rest, 10 * value + (s[0] as int - '0' as int));
    }
  }

  lemma {:induction false} LeadingDigit(n: nat)
    ensures IsDigit(Digits(n, 10, UPPER_DIGITS)[0])
    ensures 1 <= n ==> '1' <= Digits(n, 10, UPPER_DIGITS)[0] <= '9'
  {
    if n >= 10 {
      LeadingDigit(n / 10);
    }
  }

  lemma WidthIsRead(f: seq<char>, i: nat, width: Amount, rest: seq<char>, args: seq<Arg>, a: nat)
    requires CString(f) && Reads(f, i, AmountText(width), rest)
    requires rest != [] && !IsDigit(rest[0]) && rest[0] != '*'
    requires !width.Empty? && (width.Literal? ==> 1 <= width.n)
    ensures i < |f|
    ensures ParseWidth(f, i, args, a) == Spec(WidthValue(width, args, a), i + |AmountText(width)|, ArgAfter(width, a))
  {
    FirstRead(f, i, AmountText(width), rest);
    if width.Literal? {
      LeadingDigit(width.n);
      LiteralIsDigits(width.n);
      NumberIsRead(f, i, AmountText(width), rest, 0);
    }
  }

  lemma PrecisionIsRead(f: seq<char>, i: nat, precision: Amount, rest: seq<char>, args: seq<Arg>, a: nat)
    requires CString(f) && Reads(f, i, PrecisionText(precision), rest) && rest != [] && EndsAmounts(rest[0])
    ensures i < |f|
    ensures ParsePrecision(f, i, args, a)
         == Spec(PrecisionValue(precision, args, a), i + |PrecisionText(precision)|, ArgAfter(precision, a))
  {
    FirstRead(f, i, PrecisionText(precision), rest);
    if !precision.Absent? {
      assert PrecisionText(precision)[1..] == AmountText(precision);
      FirstRead(f, i + 1, AmountText(precision), rest);
      if precision.Literal? {
        LeadingDigit(precision.n);
        LiteralIsDigits(precision.n);
        NumberIsRead(f, i + 1, AmountText(precision), rest, 0);
      }
    }
  }

  /** Parsing a directive gives exactly the flags, width and precision it was written from. */
  lemma DirectiveIsRead(f: seq<char>, i: nat, p: Piece, rest: seq<char>, args: seq<Arg>, a: nat)
    requires CString(f) && ValidDirective(p) && Reads(f, i, DirectiveText(p), rest)
    ensures i + |DirectiveText(p)| <= |f| && f[i + |DirectiveText(p)| - 1] == p.conversion
    ensures ParseDirective(f, i, args, a)
         == Directive(AddFlags(NO_FLAGS, p.flags), WidthValue(p.width, args, a),
                      PrecisionValue(p.precision, args, ArgAfter(p.width, a)), i + |DirectiveText(p)| - 1, ConvertedArg(p, a))
  {
    hide Digits, IsFlag, CString, Reads, ParseFlags, ParseWidth, ParsePrecision, AmountText, PrecisionText, WidthValue,
      PrecisionValue, AddFlags;
    var end := [p.conversion];
    var afterWidth := PrecisionText(p.precision) + end;
    var afterFlags := AmountText(p.width) + afterWidth;
    var w := i + |p.flags|;
    var q := w + |AmountText(p.width)|;
    var c := q + |PrecisionText(p.precision)|;
    ReadsOn(f, i, p.flags, afterFlags, rest);
    ReadsOn(f, w, AmountText(p.width), afterWidth, rest);
    ReadsOn(f, q, PrecisionText(p.precision), end, rest);
    WidthStartsUnflagged(p);
    FlagsAreRead(f, i, p.flags, afterFlags + rest, NO_FLAGS);
    WidthIsRead(f, w, p.width, afterWidth + rest, args, a);
    PrecisionIsRead(f, q, p.precision, end + rest, args, ArgAfter(p.width, a));
    FirstRead(f, c, end, rest);
  }

  lemma WidthStartsUnflagged(p: Piece)
    requires ValidDirective(p)
    ensures var afterWidth := PrecisionText(p.precision) + [p.conversion];
            && afterWidth != [] && !IsDigit(afterWidth[0]) && afterWidth[0] != '*' && !IsFlag(afterWidth[0])
            && !IsFlag((AmountText(p.width) + afterWidth)[0])
  {
    if p.width.Literal? {
      LeadingDigit(p.width.n);
    }
  }

  /** Where printing goes on after a directive, and the argument and colour it goes on with. */
  lemma DirectiveIsPrinted(f: seq<char>, i: nat, p: Piece, rest: seq<char>, args: seq<Arg>, a: nat, color: bv16)
    requires CString(f) && p.Conversion? && ValidPiece(p) && Reads(f, i, DirectiveText(p), rest) && i < |f| && rest != []
    ensures var after := i + |DirectiveText(p)|;
            && f[after..] == rest
            && AfterDirective(f, i, args, a, color)
               == Progress(PieceOuts(p, args, a, color), after, NextArg(p, a), NextColor(p, args, a, color))
            && (DirectiveMatches(f, i, args, a) <==> HasArgument(p, args, a))
  {
    hide DirectiveText, ParseDirective, Field, Convert, Colored, ArgumentFits, CString, WidthValue, PrecisionValue, AddFlags;
    DirectiveIsRead(f, i, p, rest, args, a);
    assert f[i + |DirectiveText(p)|..] == f[i..][|DirectiveText(p)|..];
  }

  /** The argument and the colour after the pieces. */
  function EndArg(pieces: seq<Piece>, a: nat): nat
  {
    if pieces == [] then a else EndArg(pieces[1..], NextArg(pieces[0], a))
  }

  function EndColor(pieces: seq<Piece>, args: seq<Arg>, a: nat, color: bv16): bv16
  {
    if pieces == [] then color
    else EndColor(pieces[1..], args, NextArg(pieces[0], a), NextColor(pieces[0], args, a, color))
  }

  lemma FirstPiece(pieces: seq<Piece>, rest: seq<char>, args: seq<Arg>, a: nat, color: bv16)
    requires pieces != []
    ensures TextBefore(pieces, rest) == PieceText(pieces[0]) + TextBefore(pieces[1..], rest)
    ensures var next, color' := NextArg(pieces[0], a), NextColor(pieces[0], args, a, color);
            && Meaning(pieces, args, a, color)
               == PieceOuts(pieces[0], args, a, color) + Meaning(pieces[1..], args, next, color')
            && EndArg(pieces, a) == EndArg(pieces[1..], next)
            && EndColor(pieces, args, a, color) == EndColor(pieces[1..], args, next, color')
            && (HasArguments(pieces, args, a)
                <==> HasArgument(pieces[0], args, a) && HasArguments(pieces[1..], args, next))
  {
    hide PieceText, PieceOuts, NextArg, NextColor, HasArgument;
  }

  lemma NoPieces(rest: seq<char>, args: seq<Arg>, a: nat, color: bv16)
    ensures TextBefore([], rest) == rest && Meaning([], args, a, color) == []
    ensures EndArg([], a) == a && EndColor([], args, a, color) == color && HasArguments([], args, a)
  {}

  /** Printing from index i on is what the pieces written there mean and then what comes after them, and the
      arguments needed are those the pieces take and those needed after. */
  lemma {:induction false} EmitsMeaning(f: seq<char>, i: nat, pieces: seq<Piece>, rest: seq<char>, args: seq<Arg>,
                                        a: nat, color: bv16)
    requires CString(f) && ValidPieces(pieces) && i < |f| && f[i..] == TextBefore(pieces, rest) && rest != []
    ensures |rest| <= |f|
    ensures Emit(f, i, args, a, color)
         == Meaning(pieces, args, a, color)
            + Emit(f, |f| - |rest|, args, EndArg(pieces, a), EndColor(pieces, args, a, color))
    ensures Matches(f, i, args, a)
       <==> HasArguments(pieces, args, a) && Matches(f, |f| - |rest|, args, EndArg(pieces, a))
    decreases |pieces|
  {
    hide PieceText, PieceOuts, NextArg, NextColor, HasArgument, HasArguments, CString, ValidPiece, Emit, Matches, Meaning,
      TextBefore, EndArg, EndColor;
    if pieces == [] {
      NoPieces(rest, args, a, color);
    } else {
      var p := pieces[0];
      FirstPiece(pieces, rest, args, a, color);
      var after := TextBefore(pieces[1..], rest);
      var next, color' := NextArg(p, a), NextColor(p, args, a, color);
      RestComesLast(pieces[1..], rest);
      PieceEmits(f, i, p, after, args, a, color);
      EmitsMeaning(f, i + |PieceText(p)|, pieces[1..], rest, args, next, color');
      var end := Emit(f, |f| - |rest|, args, EndArg(pieces, a), EndColor(pieces, args, a, color));
      assert PieceOuts(p, args, a, color) + (Meaning(pieces[1..], args, next, color') + end)
          == (PieceOuts(p, args, a, color) + Meaning(pieces[1..], args, next, color')) + end;
    }
  }

  /** One piece is printed, and printing goes on behind it. */
  lemma PieceEmits(f: seq<char>, i: nat, p: Piece, rest: seq<char>, args: seq<Arg>, a: nat, color: bv16)
    requires CString(f) && ValidPiece(p) && i < |f| && f[i..] == PieceText(p) + rest && rest != []
    ensures i + |PieceText(p)| < |f| && f[i + |PieceText(p)|..] == rest
    ensures var after, next := i + |PieceText(p)|, NextArg(p, a);
            && Emit(f, i, args, a, color)
               == PieceOuts(p, args, a, color) + Emit(f, after, args, next, NextColor(p, args, a, color))
            && (Matches(f, i, args, a) <==> HasArgument(p, args, a) && Matches(f, after, args, next))
  {
    hide DirectiveText, AfterDirective, DirectiveMatches, ConvertedArg, FieldOf, CString, ValidDirective;
    assert f[i] == f[i..][0];
    assert f[i + 1..] == f[i..][1..];
    if p.Conversion? {
      assert f[i + 1..] == DirectiveText(p) + rest;
      DirectiveEmits(f, i, p, rest, args, a, color);
    }
  }

  lemma DirectiveEmits(f: seq<char>, i: nat, p: Piece, rest: seq<char>, args: seq<Arg>, a: nat, color: bv16)
    requires CString(f) && p.Conversion? && ValidPiece(p) && i < |f| - 1 && f[i] == '%'
    requires f[i + 1..] == DirectiveText(p) + rest && rest != []
    ensures i + 1 + |DirectiveText(p)| < |f|
    ensures var after, next := i + 1 + |DirectiveText(p)|, NextArg(p, a);
            && Emit(f, i, args, a, color)
               == PieceOuts(p, args, a, color) + Emit(f, after, args, next, NextColor(p, args, a, color))
            && (Matches(f, i, args, a) <==> HasArgument(p, args, a) && Matches(f, after, args, next))
  {
    hide DirectiveText, AfterDirective, DirectiveMatches, CString, ValidPiece, PieceOuts, NextArg, NextColor, HasArgument;
    DirectiveIsPrinted(f, i + 1, p, rest, args, a, color);
    ColorDoesNotSteer(f, i + 1, args, a, color);
  }

  /** console_vprintf prints what its format means. */
  lemma FormatMeans(pieces: seq<Piece>, args: seq<Arg>, color: bv16)
    requires ValidPieces(pieces)
    ensures var f := FormatText(pieces);
            && CString(f)
            && Emit(f, 0, args, 0, color) == Meaning(pieces, args, 0, color)
            && (Matches(f, 0, args, 0) <==> HasArguments(pieces, args, 0))
  {
    FormatIsCString(pieces);
    var f := FormatText(pieces);
    assert f[0..] == f;
    EmitsMeaning(f, 0, pieces, ['\0'], args, 0, color);
    assert Emit(f, |f| - 1, args, EndArg(pieces, 0), EndColor(pieces, args, 0, color)) == [];
  }

  /** A format that ends within a directive: the directive prints a '%' in the field its flags, width and
      precision ask for, and printing ends. */
  lemma CutFormatMeans(pieces: seq<Piece>, p: Piece, args: seq<Arg>, color: bv16)
    requires ValidPieces(pieces) && p.Conversion? && ValidDirective(p) && p.conversion == '\0'
    ensures var f := TextBefore(pieces, ['%'] + DirectiveText(p));
            && CString(f)
            && Emit(f, 0, args, 0, color)
               == Meaning(pieces, args, 0, color)
                  + Colored(FieldOf(p, args, EndArg(pieces, 0)), EndColor(pieces, args, 0, color))
  {
    hide DirectiveText, FieldOf, AfterDirective, Meaning, EndArg, EndColor, ValidDirective, CString, Emit, TextBefore, Colored;
    var rest := ['%'] + DirectiveText(p);
    CutIsCString(p);
    TextIsCString(pieces, rest);
    var f := TextBefore(pieces, rest);
    assert f[0..] == f;
    RestComesLast(pieces, rest);
    EmitsMeaning(f, 0, pieces, rest, args, 0, color);
    CutEmits(f, |f| - |rest|, p, args, EndArg(pieces, 0), EndColor(pieces, args, 0, color));
  }

  lemma CutIsCString(p: Piece)
    requires ValidDirective(p) && p.conversion == '\0'
    ensures CString(['%'] + DirectiveText(p))
  {
    AmountHasNoNul(p.width);
    AmountHasNoNul(p.precision);
  }

  lemma CutEmits(f: seq<char>, i: nat, p: Piece, args: seq<Arg>, a: nat, color: bv16)
    requires CString(f) && p.Conversion? && ValidDirective(p) && p.conversion == '\0'
    requires i < |f| && f[i..] == ['%'] + DirectiveText(p)
    ensures Emit(f, i, args, a, color) == Colored(FieldOf(p, args, a), color)
  {
    hide DirectiveText, ParseDirective, Field, Convert, Colored, CString, WidthValue, PrecisionValue, AddFlags, ValidDirective;
    assert f[i] == f[i..][0];
    assert f[i + 1..] == f[i..][1..] == DirectiveText(p) + [];
    DirectiveIsRead(f, i + 1, p, [], args, a);
    var after := AfterDirective(f, i + 1, args, a, color);
    assert after.outs == Colored(FieldOf(p, args, a), color) && f[after.next] == '\0';
    assert Emit(f, after.next, args, after.arg, after.color) == [];
  }

  // --- From a format to what stands on the screen ----------------------------------------------------

  /** What a format written from its pieces prints. */
  function Printed(pieces: seq<Piece>, args: seq<Arg>, color: bv16): seq<Out>
    requires ValidPieces(pieces)
  {
    FormatIsCString(pieces);
    Emit(FormatText(pieces), 0, args, 0, color)
  }

  /** A directive on its own prints its field. */
  lemma DirectivePrintsField(p: Piece, args: seq<Arg>, color: bv16)
    requires ValidPiece(p) && p.Conversion? && p.conversion != 'C'
    ensures Printed([p], args, color) == Colored(FieldOf(p, args, 0), color)
  {
    hide Emit, FormatText, FieldOf, Colored, EndsAmounts, CString;
    FormatMeans([p], args, color);
    assert [p][1..] == [];
    var next, color' := NextArg(p, 0), NextColor(p, args, 0, color);
    assert Meaning([], args, next, color') == [];
  }

  /** A plain %s prints its string up to the first NUL. */
  lemma StringIsPrinted(p: Piece, s: seq<char>, args: seq<Arg>, color: bv16)
    requires p == Conversion([], Absent, Absent, 's') && 0 < |args| && args[0] == Str(s)
    ensures ValidPiece(p) && Printed([p], args, color) == Colored(s[..StrLen(s)], color)
  {
    hide Printed, Colored;
    DirectivePrintsField(p, args, color);
    PlainField(AddFlags(NO_FLAGS, []), Text(s, false, false));
  }

  lemma PlainField(flags: Flags, t: Text)
    requires flags == NO_FLAGS && !t.numeric
    ensures Field(flags, -1, -1, t) == t.data[..StrLen(t.data)]
  {}

  /** The argument is printed in full: the precision is absent or leaves room for all its digits. */
  predicate PrecisionSuffices(p: Piece, args: seq<Arg>)
    requires p.Conversion? && IsWord(args, ConvertedArg(p, 0))
  {
    var precision := PrecisionValue(p.precision, args, ArgAfter(p.width, 0));
    precision < 0 || Magnitude(p.conversion, args[ConvertedArg(p, 0)].bits) < Power(BaseOf(p.conversion), precision)
  }

  /** The text reads back as the argument of the directive. */
  predicate ReadsAsArgument(text: seq<char>, p: Piece, args: seq<Arg>)
    requires p.Conversion? && IsWord(args, ConvertedArg(p, 0))
  {
    ReadNumber(text, BaseOf(p.conversion)) == Some(ValueOf(p.conversion, args[ConvertedArg(p, 0)].bits))
  }

  function Chars(outs: seq<Out>): seq<char>
  {
    seq(|outs|, i requires 0 <= i < |outs| => outs[i].ch)
  }

  /** The characters a numeric directive sends to the screen, whatever its flags, width and precision and whether
      these are written out or taken from arguments, read back as its argument exactly when the precision
      suffices. */
  lemma NumberReadsBack(p: Piece, args: seq<Arg>, color: bv16)
    requires ValidPiece(p) && p.Conversion? && IsNumeric(p.conversion) && IsWord(args, ConvertedArg(p, 0))
    ensures ReadsAsArgument(Chars(Printed([p], args, color)), p, args) <==> PrecisionSuffices(p, args)
  {
    hide Printed, Field, Convert, ReadNumber, Magnitude, Power, AddFlags;
    DirectivePrintsField(p, args, color);
    assert Chars(Colored(FieldOf(p, args, 0), color)) == FieldOf(p, args, 0);
    PrintedNumberReadsBack(p.conversion, args, ConvertedArg(p, 0), AddFlags(NO_FLAGS, p.flags),
                           WidthValue(p.width, args, 0), PrecisionValue(p.precision, args, ArgAfter(p.width, 0)));
  }

  /** The character a screen cell shows: its low byte. */
  function Shown(cell: bv16): char
  {
    (((cell & 0xFF) as bv8) as int) as char
  }

  lemma LowByte(b: bv8, color: bv16)
    requires color & 0xFF == 0
    ensures ((((b as bv16) | color) & 0xFF) as bv8) == b
  {}

  lemma NextByte(b: bv8)
    requires b as int < 255
    ensures (b + 1) as int == b as int + 1
  {}

  lemma {:induction false} ByteOfValue(n: nat) returns (b: bv8)
    requires n < 256
    ensures b as int == n
  {
    if n == 0 {
      b := 0;
    } else {
      var c := ByteOfValue(n - 1);
      NextByte(c);
      b := c + 1;
    }
  }

  lemma BitsRoundTrip(b: bv8)
    ensures (b as int) as bv8 == b
  {}

  lemma ByteKeepsValue(n: nat)
    requires n < 256
    ensures (n as bv8) as int == n
  {
    var b := ByteOfValue(n);
    BitsRoundTrip(b);
  }

  /** The character, and not its colour, is in the low byte. */
  lemma CellShowsItsCharacter(ch: char, color: bv16)
    requires ch as int < 256 && color & 0xFF == 0
    ensures Shown(Cell(ch, color)) == ch
  {
    assert ch as int % 256 == ch as int;
    ByteKeepsValue(ch as int);
    LowByte(Byte(ch), color);
  }

  /** The colour a screen cell shows: its high byte. */
  function Shade(cell: bv16): bv16
  {
    cell & 0xFF00
  }

  lemma HighByte(b: bv8, color: bv16)
    requires color & 0xFF == 0
    ensures (((b as bv16) | color) & 0xFF00) == color
  {}

  /** The colour, and not the character, is in the high byte. */
  lemma CellShowsItsColor(ch: char, color: bv16)
    requires color & 0xFF == 0
    ensures Shade(Cell(ch, color)) == color
  {
    HighByte(Byte(ch), color);
  }

  predicate Printable(s: seq<char>)
  {
    forall i :: 0 <= i < |s| ==> s[i] != '\n' && s[i] as int < 256
  }

  lemma DigitsArePrintable(s: seq<char>, base: nat)
    requires AllDigits(s, base)
    ensures Printable(s)
  {
    forall i | 0 <= i < |s| ensures s[i] != '\n' && s[i] as int < 256 {
      assert IsDigitOf(s[i], base);
    }
  }

  lemma JoinedIsPrintable(s: seq<char>, t: seq<char>)
    requires Printable(s) && Printable(t)
    ensures Printable(s + t)
  {}

  lemma FieldIsPrintable(flags: Flags, width: int, precision: int, t: Text)
    requires Printable(t.data)
    ensures Printable(Field(flags, width, precision, t))
  {
    hide Field, Zeros, TextLength, Repeat;
    var sign, zeros, data := SignText(flags, t), Zeros(flags, width, precision, t), t.data[..TextLength(t, precision)];
    var pad := width - (|data| + zeros + |sign|);
    var before, after := if flags.left then 0 else pad, Repeat(' ', if flags.left then pad else 0);
    FieldParts(flags, width, precision, t, before, after);
    JoinedIsPrintable(data, after);
    JoinedIsPrintable(Repeat('0', zeros), data + after);
    JoinedIsPrintable(sign, Repeat('0', zeros) + (data + after));
    JoinedIsPrintable(Repeat(' ', before), sign + (Repeat('0', zeros) + (data + after)));
  }

  lemma NumberIsPrintable(p: Piece, args: seq<Arg>)
    requires p.Conversion? && IsNumeric(p.conversion) && IsWord(args, ConvertedArg(p, 0))
    ensures Printable(FieldOf(p, args, 0))
  {
    hide Field, Convert, AddFlags;
    var precision := PrecisionValue(p.precision, args, ArgAfter(p.width, 0));
    var t := Convert(p.conversion, args, ConvertedArg(p, 0), precision);
    ConvertedNumber(p.conversion, args, ConvertedArg(p, 0), precision);
    DigitsArePrintable(t.data, BaseOf(p.conversion));
    FieldIsPrintable(AddFlags(NO_FLAGS, p.flags), WidthValue(p.width, args, 0), precision, t);
  }

  /** The characters of the cells that printing n characters from the cursor fills, in the order it fills them. */
  function ShownFrom(cells: seq<bv16>, cursor: int, n: nat): seq<char>
    requires |cells| == SCREEN && 0 <= cursor <= SCREEN && n <= SCREEN
  {
    seq(n, k requires 0 <= k < n => Shown(cells[CellAt(cursor, k)]))
  }

  /** Printable text no longer than the screen is on it as it was sent, also when it goes on at the top. */
  lemma TextOnScreen(s: Screen, text: seq<char>, color: bv16)
    requires OnScreen(s) && |text| <= 2000 && Printable(text) && color & 0xFF == 0
    ensures var r := PutAll(s, Colored(text, color));
            && r.cursor == CursorAfter(s.cursor, |text|) && ShownFrom(r.cells, s.cursor, |text|) == text
            && forall k :: 0 <= k < |text| ==> Shade(r.cells[CellAt(s.cursor, k)]) == color
  {
    hide PutAll, Shown, Shade, Cell, CellAt;
    var outs := Colored(text, color);
    var r := PutAll(s, outs);
    if text == [] {
      PutsNothing(s, outs);
    } else {
      PrintedWithWrap(s, outs, 0);
    }
    forall k | 0 <= k < |text|
      ensures Shown(r.cells[CellAt(s.cursor, k)]) == text[k] && Shade(r.cells[CellAt(s.cursor, k)]) == color
    {
      PrintedWithWrap(s, outs, k);
      CellShowsItsCharacter(text[k], color);
      CellShowsItsColor(text[k], color);
    }
  }

  lemma PutsNothing(s: Screen, outs: seq<Out>)
    requires OnScreen(s) && outs == []
    ensures PutAll(s, outs) == s
  {}

  /** The whole way from the format to the screen: what a numeric directive leaves in the cells from the cursor on,
      also past the end of the screen, reads back as its argument exactly when the precision suffices, and the
      cursor ends right after it. */
  lemma NumberOnScreen(s: Screen, p: Piece, args: seq<Arg>, color: bv16)
    requires OnScreen(s) && color & 0xFF == 0
    requires ValidPiece(p) && p.Conversion? && IsNumeric(p.conversion) && IsWord(args, ConvertedArg(p, 0))
    requires |Printed([p], args, color)| <= SCREEN
    ensures var r, n := PutAll(s, Printed([p], args, color)), |Printed([p], args, color)|;
            && r.cursor == CursorAfter(s.cursor, n)
            && (ReadsAsArgument(ShownFrom(r.cells, s.cursor, n), p, args) <==> PrecisionSuffices(p, args))
  {
    hide Printed, FieldOf, ReadsAsArgument, PutAll, PrecisionSuffices, CursorAfter;
    var text := FieldOf(p, args, 0);
    DirectivePrintsField(p, args, color);
    NumberReadsBack(p, args, color);
    NumberIsPrintable(p, args);
    TextOnScreen(s, text, color);
    assert Chars(Colored(text, color)) == text;
  }

  /** %.2d of 123 prints 12, and so does not read back. */
  lemma SmallPrecisionCuts(args: seq<Arg>, color: bv16)
    requires args == [Word(123)]
    ensures var p := Conversion([], Absent, Literal(2), 'd');
            && ValidPiece(p) && Chars(Printed([p], args, color)) == "12"
            && !ReadsAsArgument(Chars(Printed([p], args, color)), p, args)
  {
    hide Printed, Field, Colored, ReadNumber;
    var p := Conversion([], Absent, Literal(2), 'd');
    var t := Text("123", true, false);
    assert Digits(123, 10, UPPER_DIGITS) == "123" by {
      assert Digits(12, 10, UPPER_DIGITS) == "12";
    }
    DirectivePrintsField(p, args, color);
    CutField(AddFlags(NO_FLAGS, []), t);
    assert Chars(Colored("12", color)) == "12" by { ColoredChars("12", color); }
    NumberReadsBack(p, args, color);
    assert Power(10, 2) == 10 * Power(10, 1) == 100;
  }

  lemma CutField(flags: Flags, t: Text)
    requires flags == NO_FLAGS && t == Text("123", true, false)
    ensures Field(flags, -1, 2, t) == "12"
  {
    assert StrLen(t.data) == 3;
  }

  lemma ColoredChars(s: seq<char>, color: bv16)
    ensures Chars(Colored(s, color)) == s
  {}
}
