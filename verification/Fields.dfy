/** What the C standard (7.21.6.1 of C11) prescribes for the conversions that the freestanding
    `ee_printf` knows, and exactly when it prints that. */
module Fields {
  import opened Numbers
  import opened Numerals
  import opened Options
  import opened Printf

  // ---------------------------------------------------------------- one conversion

  /** A field: blanks go before the sign, zeros between the sign and the digits, and the sign counts
      towards the width. */
  function Field(sign: string, digits: string, width: nat, pad: char): string {
    var fill := Repeat(pad, if |sign| + |digits| < width then width - |sign| - |digits| else 0);
    if pad == '0' then sign + fill + digits else fill + sign + digits
  }

  function CField(value: int, width: nat, pad: char): string {
    Field(if value < 0 then "-" else "", Print((if value < 0 then 0 - value else value) as nat, 10), width, pad)
  }

  /** A field reads back to its number, after its blanks, and is as long as its width or its text. */
  lemma FieldReads(value: int, width: nat, pad: char)
    requires IsPad(pad)
    ensures ReadSigned(Trim(CField(value, width, pad))) == value
    ensures var least := |Print((if value < 0 then 0 - value else value) as nat, 10)| + if value < 0 then 1 else 0;
            |CField(value, width, pad)| == if least < width then width else least
  {
    var size: nat := if value < 0 then 0 - value else value;
    var digits := Print(size, 10);
    ParsePrint(size, 10);
    assert IsDigit(digits[0]) && digits != "";
    hide Print, Parse, Trim, ReadSigned;
    if pad == '0' {
      ZerosRead(if value < 0 then "-" else "", digits, width);
    } else {
      BlanksRead(if value < 0 then "-" else "", digits, width);
    }
  }

  lemma ZerosRead(sign: string, digits: string, width: nat)
    requires (sign == "" || sign == "-") && digits != "" && IsDigit(digits[0])
    ensures var field := Field(sign, digits, width, '0');
            ReadSigned(Trim(field)) == if sign == "" then Parse(digits, 10) else 0 - Parse(digits, 10) as int
  {
    var n := if |sign| + |digits| < width then width - |sign| - |digits| else 0;
    var zeros := Repeat('0', n) + digits;
    ZerosFill(sign, digits, width, n);
    hide Parse, Trim, ReadSigned, Field;
    ParseZeros(n, digits, 10);
    SignedReads(sign, zeros);
  }

  lemma ZerosFill(sign: string, digits: string, width: nat, n: nat)
    requires digits != "" && IsDigit(digits[0])
    requires n == if |sign| + |digits| < width then width - |sign| - |digits| else 0
    ensures Field(sign, digits, width, '0') == sign + (Repeat('0', n) + digits)
    ensures IsDigit((Repeat('0', n) + digits)[0])
  {
  }

  lemma BlanksFill(sign: string, digits: string, width: nat, n: nat)
    requires (sign == "" || sign == "-") && digits != "" && IsDigit(digits[0])
    requires n == if |sign| + |digits| < width then width - |sign| - |digits| else 0
    ensures Field(sign, digits, width, ' ') == Repeat(' ', n) + (sign + digits)
    ensures (sign + digits)[0] != ' '
  {
  }

  lemma BlanksRead(sign: string, digits: string, width: nat)
    requires (sign == "" || sign == "-") && digits != "" && IsDigit(digits[0])
    ensures var field := Field(sign, digits, width, ' ');
            ReadSigned(Trim(field)) == if sign == "" then Parse(digits, 10) else 0 - Parse(digits, 10) as int
  {
    var n := if |sign| + |digits| < width then width - |sign| - |digits| else 0;
    BlanksFill(sign, digits, width, n);
    hide Parse, Trim, ReadSigned, Field;
    TrimBlanks(n, sign + digits);
    SignedReads(sign, digits);
  }

  lemma SignedReads(sign: string, digits: string)
    requires (sign == "" || sign == "-") && digits != "" && digits[0] != ' ' && digits[0] != '-'
    ensures Trim(sign + digits) == sign + digits
    ensures ReadSigned(sign + digits) == if sign == "" then Parse(digits, 10) else 0 - Parse(digits, 10) as int
  {
    hide Parse;
    TrimNothing(digits);
    TrimNothing(sign + digits);
    hide Trim, ReadSigned;
    if sign == "" {
      assert sign + digits == digits;
      PositiveReads(digits);
    } else {
      NegativeReads(digits);
    }
  }

  /** What C prescribes for a conversion; `None` where it leaves it undefined (a zero flag on a character
      or string, a percent sign with flag or width, a missing argument) or the letter is not one that
      the code knows. */
  function CRender(c: Conversion, arguments: seq<Argument>): Option<string>
    requires AllSound(arguments)
  {
    if NeedsWord(c.letter) then
      if arguments == [] || !arguments[0].Word? then None
      else
        var w := arguments[0].value;
        if c.letter == 'd' then Some(CField(Signed(w), c.width, c.pad))
        else if c.letter == 'u' then Some(Field("", Print(w, 10), c.width, c.pad))
        else if c.letter == 'x' then Some(Field("", Print(w, 16), c.width, c.pad))
        else if c.pad == '0' then None
        else Some(Field("", [(w % 256) as char], c.width, ' '))
    else if c.letter == 's' then
      if arguments == [] || !arguments[0].Text? || c.pad == '0' then None
      else Some(Field("", arguments[0].text, c.width, ' '))
    else if c.letter == '%' && c.pad != '0' && c.width == 0 then Some("%")
    else None
  }

  /** A negative decimal whose digits do not fill the width is printed one character too long. */
  function Excess(c: Conversion, arguments: seq<Argument>): nat
    requires AllSound(arguments)
  {
    if c.letter != 'd' || arguments == [] || !arguments[0].Word? then 0
    else
      var value := Signed(arguments[0].value);
      if value < 0 && |Print((0 - value) as nat, 10)| < c.width then 1 else 0
  }

  /** The blanks that are not printed: the width of characters and strings is read and ignored. */
  function Missing(c: Conversion, arguments: seq<Argument>): nat {
    if arguments == [] then 0
    else
      var length :=
        if c.letter == 'c' then 1
        else if c.letter == 's' && arguments[0].Text? then |arguments[0].text|
        else c.width;
      if length < c.width then c.width - length else 0
  }

  /** How a decimal that misfits differs from C's field. */
  lemma Misplaced(digits: string, width: nat, pad: char)
    requires |digits| < width && IsPad(pad) && digits != "" && digits[0] != '0' && digits[0] != ' '
    ensures var (ours, theirs) := ("-" + Padded(digits, width, pad), Field("-", digits, width, pad));
            && |ours| == |theirs| + 1
            && exists k :: 0 <= k < |theirs| && ours[k] != theirs[k]
  {
    var (ours, theirs) := ("-" + Padded(digits, width, pad), Field("-", digits, width, pad));
    var fill := width - |digits|;
    if pad == '0' || fill == 1 {
      assert ours[fill] == pad && theirs[fill] == digits[0];
    } else {
      assert ours[0] == '-' && theirs[0] == ' ';
    }
  }

  lemma Placed(sign: string, digits: string, width: nat, pad: char)
    requires |digits| >= width || sign == ""
    ensures sign + Padded(digits, width, pad) == Field(sign, digits, width, pad)
  {
  }

  /** No number but zero is printed with a leading zero. */
  lemma {:induction false} LeadingDigit(n: nat)
    requires n > 0
    ensures Print(n, 10)[0] != '0' && Print(n, 10)[0] != ' '
  {
    hide Split, DigitChar;
    var (q, r) := Split(n, 10);
    if q != 0 {
      LeadingDigit(q);
      assert Digits(n, 10)[1..] == Digits(q, 10);
      assert Print(n, 10) == Print(q, 10) + [DigitChar(r)];
    } else {
      assert Digits(n, 10) == [r] && [r][1..] == [] && r != 0;
      assert Print(n, 10) == "" + [DigitChar(r)];
    }
  }

  /** What sets a conversion apart from C's. */
  ghost predicate Compares(ours: string, theirs: string, excess: nat, missing: nat) {
    && |ours| + missing == |theirs| + excess
    && (excess == 0 ==> theirs == Repeat(' ', missing) + ours)
    && (excess != 0 ==>
          && missing == 0 && |ours| > 0 && ours[0] == '-'
          && exists k :: 0 <= k < |ours| && k < |theirs| && ours[k] != theirs[k])
  }

  lemma DecimalCompares(c: Conversion, arguments: seq<Argument>)
    requires AllSound(arguments) && IsPad(c.pad) && c.letter == 'd' && arguments != [] && arguments[0].Word?
    ensures Compares(Decimal32(arguments[0].value, c.width, c.pad), CField(Signed(arguments[0].value), c.width, c.pad),
                     Excess(c, arguments), 0)
  {
    hide Print, Padded, Field;
    var value := Signed(arguments[0].value);
    var digits := Print((if value < 0 then 0 - value else value) as nat, 10);
    assert Repeat(' ', 0) == "";
    if value < 0 && |digits| < c.width {
      LeadingDigit((0 - value) as nat);
      Misplaced(digits, c.width, c.pad);
    } else {
      Placed(if value < 0 then "-" else "", digits, c.width, c.pad);
    }
  }

  lemma TextCompares(text: string, width: nat)
    ensures Compares(text, Field("", text, width, ' '), 0, if |text| < width then width - |text| else 0)
  {
  }

  lemma NumberCompares(digits: string, width: nat, pad: char)
    ensures Compares(Padded(digits, width, pad), Field("", digits, width, pad), 0, 0)
  {
    hide Field;
    Placed("", digits, width, pad);
  }

  lemma ConversionCompares(c: Conversion, arguments: seq<Argument>)
    requires AllSound(arguments) && IsPad(c.pad) && CRender(c, arguments).Some?
    ensures Render(c, arguments).Some?
    ensures Compares(Render(c, arguments).value, CRender(c, arguments).value, Excess(c, arguments), Missing(c, arguments))
  {
    hide Field, Padded, CField, Decimal32, Print, Compares;
    if c.letter == 'd' {
      DecimalCompares(c, arguments);
    } else if c.letter == 'u' {
      NumberCompares(Print(arguments[0].value, 10), c.width, c.pad);
    } else if c.letter == 'x' {
      NumberCompares(Print(arguments[0].value, 16), c.width, c.pad);
    } else if c.letter == 'c' {
      TextCompares([(arguments[0].value % 256) as char], c.width);
    } else if c.letter == 's' {
      TextCompares(arguments[0].text, c.width);
    } else {
      PercentCompares();
    }
  }

  lemma PercentCompares()
    ensures Compares("%", "%", 0, 0)
  {
  }

  /** A conversion prints C's text exactly when no sign is misplaced and no blank is missing: a negative
      decimal must fill its width, a string too, and a character has width one at most. */
  lemma ConversionIff(c: Conversion, arguments: seq<Argument>)
    requires AllSound(arguments) && IsPad(c.pad) && CRender(c, arguments).Some?
    ensures Render(c, arguments) == CRender(c, arguments) <==> Excess(c, arguments) == 0 && Missing(c, arguments) == 0
  {
    hide Render, CRender, Excess, Missing;
    ConversionCompares(c, arguments);
    Equals(Render(c, arguments).value, CRender(c, arguments).value, Excess(c, arguments), Missing(c, arguments));
  }

  lemma Equals(ours: string, theirs: string, excess: nat, missing: nat)
    requires Compares(ours, theirs, excess, missing)
    ensures ours == theirs <==> excess == 0 && missing == 0
  {
    assert "" + ours == ours;
  }

  const LETTERS: set<char> := {'c', 'd', 'u', 'x', 's', '%'}

  /** Whatever C makes of them (flags and precisions included), all other letters print a question mark. */
  lemma QuestionIff(c: Conversion)
    ensures (forall arguments :: AllSound(arguments) && Render(c, arguments).Some? ==> Render(c, arguments) == Some("?"))
            <==> c.letter !in LETTERS
  {
    if c.letter in LETTERS {
      var arguments := if c.letter == 's' then [Text("")] else [Word(0)];
      assert AllSound(arguments);
      LastDigit(0, 10, c.width, c.pad);
      LastDigit(0, 16, c.width, c.pad);
      assert Render(c, arguments) != Some("?");
    }
  }

  lemma LastDigit(n: nat, radix: nat, width: nat, pad: char)
    requires radix == 10 || radix == 16
    ensures Unsigned(n, radix, width, pad) != "?"
  {
    var digits := Print(n, radix);
    var text := Unsigned(n, radix, width, pad);
    assert text[|text| - 1] == digits[|digits| - 1];
  }

  // ---------------------------------------------------------------- whole formats

  /** What C prescribes for a format, as far as its conversions are ones that C defines and the code knows. */
  function ExpandC(format: string, arguments: seq<Argument>): Option<string>
    requires AllSound(arguments)
    decreases |format|
  {
    if format == "" then Some("")
    else if format[0] != '%' then Then([format[0]], ExpandC(format[1..], arguments))
    else
      var read := ReadConversion(format[1..]);
      if read.None? then None
      else
        var (c, tail) := read.value;
        var printed := CRender(c, arguments);
        if printed.None? || Arity(c) > |arguments| then None
        else Then(printed.value, ExpandC(tail, arguments[Arity(c)..]))
  }

  /** The signs that are misplaced and the blanks that are missing in a whole format. */
  function Deviations(format: string, arguments: seq<Argument>): (r: (nat, nat))
    requires AllSound(arguments)
    decreases |format|
  {
    if format == "" then (0, 0)
    else if format[0] != '%' then Deviations(format[1..], arguments)
    else
      var read := ReadConversion(format[1..]);
      if read.None? then (0, 0)
      else
        var (c, tail) := read.value;
        if Arity(c) > |arguments| then (0, 0)
        else
          var rest := Deviations(tail, arguments[Arity(c)..]);
          (Excess(c, arguments) + rest.0, Missing(c, arguments) + rest.1)
  }

  lemma ReadsPad(s: string)
    ensures ReadConversion(s).Some? ==> IsPad(ReadConversion(s).value.0.pad)
  {
    hide ReadWidth;
  }

  /** The characters that are not blank. */
  function Marks(s: string): nat {
    if s == "" then 0 else Marks(s[..|s| - 1]) + if s[|s| - 1] != ' ' then 1 else 0
  }

  lemma {:induction false} MarksConcat(s: string, t: string)
    ensures Marks(s + t) == Marks(s) + Marks(t)
  {
    if t == "" {
      assert s + t == s;
    } else {
      var n := |t| - 1;
      MarksConcat(s, t[..n]);
      assert (s + t)[..|s + t| - 1] == s + t[..n];
    }
  }

  lemma {:induction false} MarksBlank(n: nat)
    ensures Marks(Repeat(' ', n)) == 0
  {
    if n != 0 {
      MarksBlank(n - 1);
      assert Repeat(' ', n)[..n - 1] == Repeat(' ', n - 1);
    }
  }

  /** Text that has as many marks but runs ahead never falls back into step at a sign. */
  lemma Ahead(x: string, y: string, a: string, b: string)
    requires |x| < |y| && Marks(x) == Marks(y) && a != "" && a[0] == '-'
    ensures x + a != y + b
  {
    var k := |x| + 1;
    assert (x + a)[..k] == x + "-" && (y + b)[..k] == y[..k];
    assert "-"[..0] == "" && Marks("-") == 1;
    MarksConcat(x, "-");
    MarksConcat(y[..k], y[k..]);
    assert y == y[..k] + y[k..];
  }

  lemma MarksCompare(ours: string, theirs: string, missing: nat)
    requires Compares(ours, theirs, 0, missing)
    ensures Marks(theirs) == Marks(ours) && |theirs| == |ours| + missing
  {
    MarksConcat(Repeat(' ', missing), ours);
    MarksBlank(missing);
  }

  /** A format that C defines, this printf prints too. */
  lemma {:induction false} Defined(format: string, arguments: seq<Argument>)
    requires AllSound(arguments) && ExpandC(format, arguments).Some?
    ensures Expand(format, arguments).Some?
    decreases |format|
  {
    hide Render, CRender, ReadConversion;
    if format == "" {
    } else if format[0] != '%' {
      Defined(format[1..], arguments);
    } else {
      var (c, tail) := ReadConversion(format[1..]).value;
      ReadsPad(format[1..]);
      ConversionCompares(c, arguments);
      Defined(tail, arguments[Arity(c)..]);
    }
  }

  lemma ThenIs(text: string, rest: string)
    ensures Then(text, Some(rest)) == Some(text + rest)
  {
  }

  /** Once a blank is missing, the rest of the format never makes up for it. */
  lemma {:induction false} StaysAhead(format: string, arguments: seq<Argument>, x: string, y: string)
    requires AllSound(arguments) && ExpandC(format, arguments).Some?
    requires |x| < |y| && Marks(x) == Marks(y)
    ensures Expand(format, arguments).Some?
    ensures x + Expand(format, arguments).value != y + ExpandC(format, arguments).value
    decreases |format|
  {
    hide Render, CRender, ReadConversion, Marks, Compares, Excess, Missing;
    Defined(format, arguments);
    if format == "" {
    } else if format[0] != '%' {
      var one := [format[0]];
      MarksConcat(x, one);
      MarksConcat(y, one);
      StaysAhead(format[1..], arguments, x + one, y + one);
      Regroup(x, y, one, one, Expand(format[1..], arguments).value, ExpandC(format[1..], arguments).value);
    } else {
      var (c, tail) := ReadConversion(format[1..]).value;
      ReadsPad(format[1..]);
      ConversionCompares(c, arguments);
      var (ours, theirs) := (Render(c, arguments).value, CRender(c, arguments).value);
      var rest := arguments[Arity(c)..];
      Defined(tail, rest);
      if Excess(c, arguments) != 0 {
        SignStarts(ours, theirs, Excess(c, arguments), Missing(c, arguments));
        Ahead(x, y, ours + Expand(tail, rest).value, theirs + ExpandC(tail, rest).value);
      } else {
        MarksCompare(ours, theirs, Missing(c, arguments));
        MarksConcat(x, ours);
        MarksConcat(y, theirs);
        StaysAhead(tail, rest, x + ours, y + theirs);
        Regroup(x, y, ours, theirs, Expand(tail, rest).value, ExpandC(tail, rest).value);
      }
    }
  }

  lemma SignStarts(ours: string, theirs: string, excess: nat, missing: nat)
    requires Compares(ours, theirs, excess, missing) && excess != 0
    ensures ours != "" && ours[0] == '-'
  {
  }

  lemma Regroup(x: string, y: string, a: string, b: string, r: string, q: string)
    ensures x + (a + r) == (x + a) + r && y + (b + q) == (y + b) + q
  {
  }

  /** Texts that differ early stay different; texts that agree leave it to the rest. */
  lemma Prefixed(ours: string, theirs: string, excess: nat, missing: nat, r: string, q: string)
    requires Compares(ours, theirs, excess, missing)
    ensures excess != 0 ==> ours + r != theirs + q
    ensures excess == 0 && missing == 0 ==> (ours + r == theirs + q <==> r == q)
    ensures |ours + r| - |r| + missing == |theirs + q| - |q| + excess
  {
    if excess != 0 {
      var k :| 0 <= k < |ours| && k < |theirs| && ours[k] != theirs[k];
      assert (ours + r)[k] != (theirs + q)[k];
    } else if missing == 0 {
      assert theirs == ours by {
        Equals(ours, theirs, excess, missing);
      }
      if ours + r == theirs + q {
        assert r == (ours + r)[|ours|..] == (theirs + q)[|ours|..] == q;
      }
    }
  }

  lemma Cancels(t: string, a: string, b: string)
    ensures t + a == t + b <==> a == b
  {
    if t + a == t + b {
      assert a == (t + a)[|t|..] == (t + b)[|t|..] == b;
    }
  }

  /** A format that C defines prints C's text exactly when it misplaces no sign and misses no blank; it is
      longer by its misplaced signs and shorter by its missing blanks. */
  lemma {:induction false} ExpandIff(format: string, arguments: seq<Argument>)
    requires AllSound(arguments) && ExpandC(format, arguments).Some?
    ensures Expand(format, arguments).Some?
    ensures var (ours, theirs) := (Expand(format, arguments).value, ExpandC(format, arguments).value);
            var (excess, missing) := Deviations(format, arguments);
            && (ours == theirs <==> excess == 0 && missing == 0)
            && |ours| + missing == |theirs| + excess
    decreases |format|
  {
    hide Render, CRender, ReadConversion, Compares, Excess, Missing;
    Defined(format, arguments);
    if format == "" {
    } else if format[0] != '%' {
      ExpandIff(format[1..], arguments);
      Cancels([format[0]], Expand(format[1..], arguments).value, ExpandC(format[1..], arguments).value);
    } else {
      var (c, tail) := ReadConversion(format[1..]).value;
      ReadsPad(format[1..]);
      ConversionCompares(c, arguments);
      var (ours, theirs) := (Render(c, arguments).value, CRender(c, arguments).value);
      var rest := arguments[Arity(c)..];
      var (r, q) := (Expand(tail, rest).value, ExpandC(tail, rest).value);
      ExpandIff(tail, rest);
      Prefixed(ours, theirs, Excess(c, arguments), Missing(c, arguments), r, q);
      if Excess(c, arguments) == 0 && Missing(c, arguments) != 0 {
        MarksCompare(ours, theirs, Missing(c, arguments));
        StaysAhead(tail, rest, ours, theirs);
      }
    }
  }

  // ---------------------------------------------------------------- inputs

  /** A format that is one conversion of one digit's width. */
  lemma OneConversion(digit: char, letter: char, argument: Argument)
    requires IsDigit(digit) && digit != '0' && (letter == 'd' || letter == 's') && Sound(argument)
    requires letter == 'd' <==> argument.Word?
    ensures var (c, format) := (Conversion(' ', DigitOf(digit), letter), "%" + [digit, letter]);
            Expand(format, [argument]) == Render(c, [argument]) && ExpandC(format, [argument]) == CRender(c, [argument])
  {
    hide Field, CField, Decimal32;
    var tail := [digit, letter];
    var format := "%" + tail;
    var c := Conversion(' ', DigitOf(digit), letter);
    assert format[1..] == tail && tail[1..] == [letter] && [letter][1..] == "";
    assert ReadWidth([letter], DigitOf(digit)) == Some((DigitOf(digit), [letter]));
    assert ReadWidth(tail, 0) == Some((DigitOf(digit), [letter]));
    assert ReadConversion(tail) == Some((c, ""));
    assert [argument][1..] == [] && Arity(c) == 1;
    assert Expand("", []) == Some("") && ExpandC("", []) == Some("");
    ThenIs(Render(c, [argument]).value, "");
    ThenIs(CRender(c, [argument]).value, "");
    assert Render(c, [argument]).value + "" == Render(c, [argument]).value;
    assert CRender(c, [argument]).value + "" == CRender(c, [argument]).value;
  }

  lemma SignField()
    ensures Decimal32(MODULUS - 3, 5, ' ') == "-    3" && CField(-3, 5, ' ') == "   -3"
  {
    assert Print(3, 10) == "3";
    assert Repeat(' ', 4) == "    " && Repeat(' ', 3) == "   ";
  }

  lemma MisplacedSign()
    ensures Expand("%5d", [Word(MODULUS - 3)]) == Some("-    3") && ExpandC("%5d", [Word(MODULUS - 3)]) == Some("   -3")
  {
    hide Expand, ExpandC, Decimal32, CField;
    OneConversion('5', 'd', Word(MODULUS - 3));
    SignField();
    assert "%5d" == "%" + ['5', 'd'];
  }

  lemma TextField()
    ensures Field("", "ab", 5, ' ') == "   ab"
  {
    assert Repeat(' ', 3) == "   ";
  }

  lemma MissingBlanks()
    ensures Expand("%5s", [Text("ab")]) == Some("ab") && ExpandC("%5s", [Text("ab")]) == Some("   ab")
  {
    hide Expand, ExpandC, Field;
    OneConversion('5', 's', Text("ab"));
    TextField();
    assert "%5s" == "%" + ['5', 's'];
  }

  /** A flag that the code does not read is taken for the letter. */
  lemma UnknownFlag()
    ensures Expand("%-3d", [Word(5)]) == Some("?3d")
  {
    assert "%-3d"[1..] == "-3d" && "-3d"[1..] == "3d" && "3d"[1..] == "d" && "d"[1..] == "";
    assert ReadConversion("-3d") == Some((Conversion(' ', 0, '-'), "3d"));
    var arguments := [Word(5)];
    assert arguments[0..] == arguments;
    assert Expand("", arguments) == Some("");
    assert "d" + "" == "d" && "3" + "d" == "3d" && "?" + "3d" == "?3d";
    assert Expand("d", arguments) == Then("d", Some(""));
    assert Expand("3d", arguments) == Then("3", Some("d"));
    assert Render(Conversion(' ', 0, '-'), arguments) == Some("?");
    assert Expand("%-3d", arguments) == Then("?", Some("3d"));
  }
}
