/** The freestanding `ee_printf`: what a format means, the loops that print it, and reading numbers
    back. */
module Printf {
  import opened Numbers
  import opened Numerals
  import opened Options

  const INT_MAX: nat := 0x7fff_ffff

  /** An argument: a 32-bit word (a character, an integer or a long) or a C string. */
  datatype Argument = Word(value: nat) | Text(text: string)

  predicate Sound(argument: Argument) {
    match argument
    case Word(value) => value < MODULUS
    case Text(text) => '\0' !in text
  }

  predicate AllSound(arguments: seq<Argument>) {
    forall i :: 0 <= i < |arguments| ==> Sound(arguments[i])
  }

  // ---------------------------------------------------------------- what a number looks like

  function Repeat(c: char, n: nat): (s: string)
    ensures |s| == n && forall i :: 0 <= i < n ==> s[i] == c
  {
    seq(n, _ => c)
  }

  function Padded(digits: string, width: nat, pad: char): (s: string)
    ensures |s| == if |digits| < width then width else |digits|
  {
    if |digits| < width then Repeat(pad, width - |digits|) + digits else digits
  }

  function Unsigned(value: nat, radix: nat, width: nat, pad: char): string
    requires radix == 10 || radix == 16
  {
    Padded(Print(value, radix), width, pad)
  }

  /** The value of a word read as a signed integer. */
  function Signed(word: nat): int
    requires word < MODULUS
  {
    if word <= INT_MAX then word else word - MODULUS
  }

  /** The sign comes first and is not counted in the width. */
  function Decimal32(word: nat, width: nat, pad: char): string
    requires word < MODULUS
  {
    if Signed(word) < 0 then "-" + Unsigned((0 - Signed(word)) as nat, 10, width, pad)
    else Unsigned(word, 10, width, pad)
  }

  // ---------------------------------------------------------------- what a format means

  /** A conversion: padding, width, and the letter that selects it. */
  datatype Conversion = Conversion(pad: char, width: nat, letter: char)

  /** The digits of a width, and the rest; `None` when the width overflows. */
  function ReadWidth(s: string, width: nat): (r: Option<(nat, string)>)
    ensures r.Some? ==> |r.value.1| <= |s|
    ensures r.Some? && r.value.1 != "" ==> !IsDigit(r.value.1[0])
  {
    if s == "" || !IsDigit(s[0]) then Some((width, s))
    else
      var next := width * 10 + DigitOf(s[0]);
      if next > INT_MAX then None else ReadWidth(s[1..], next)
  }

  /** What follows a percent sign; `None` when the format ends inside it or its width overflows. */
  function ReadConversion(s: string): (r: Option<(Conversion, string)>)
    ensures r.Some? ==> |r.value.1| < |s|
  {
    var zero := s != "" && s[0] == '0';
    var width := ReadWidth(if zero then s[1..] else s, 0);
    if width.None? then None
    else ReadLetter(if zero then '0' else ' ', width.value.0, width.value.1)
  }

  /** The length modifier, which is skipped, and the letter. */
  function ReadLetter(pad: char, width: nat, s: string): (r: Option<(Conversion, string)>)
    ensures r.Some? ==> |r.value.1| < |s|
  {
    var rest := if s != "" && s[0] == 'l' then s[1..] else s;
    if rest == "" then None else Some((Conversion(pad, width, rest[0]), rest[1..]))
  }

  function NeedsWord(letter: char): bool {
    letter == 'c' || letter == 'd' || letter == 'u' || letter == 'x'
  }

  /** How many arguments a conversion takes. */
  function Arity(c: Conversion): nat {
    if NeedsWord(c.letter) || c.letter == 's' then 1 else 0
  }

  /** What this printf prints for a conversion, unknown letters included; `None` when the argument is
      missing or of the wrong kind. */
  function Render(c: Conversion, arguments: seq<Argument>): (r: Option<string>)
    requires AllSound(arguments)
    ensures r.Some? ==> Arity(c) <= |arguments|
  {
    if NeedsWord(c.letter) then
      if arguments == [] || !arguments[0].Word? then None
      else
        var w := arguments[0].value;
        if c.letter == 'c' then Some([(w % 256) as char])
        else if c.letter == 'd' then Some(Decimal32(w, c.width, c.pad))
        else if c.letter == 'u' then Some(Unsigned(w, 10, c.width, c.pad))
        else Some(Unsigned(w, 16, c.width, c.pad))
    else if c.letter == 's' then
      if arguments == [] || !arguments[0].Text? then None else Some(arguments[0].text)
    else Some(if c.letter == '%' then "%" else "?")
  }

  function Then(text: string, rest: Option<string>): Option<string> {
    if rest.None? then None else Some(text + rest.value)
  }

  /** What a format means to this printf, which reads no flag but a zero and no precision; `None` when it
      ends inside a conversion, its width overflows, or an argument is missing or of the wrong kind. */
  function Expand(format: string, arguments: seq<Argument>): Option<string>
    requires AllSound(arguments)
    decreases |format|
  {
    if format == "" then Some("")
    else if format[0] != '%' then Then([format[0]], Expand(format[1..], arguments))
    else
      var read := ReadConversion(format[1..]);
      if read.None? then None
      else
        var (c, tail) := read.value;
        var printed := Render(c, arguments);
        if printed.None? then None else Then(printed.value, Expand(tail, arguments[Arity(c)..]))
  }

  // ---------------------------------------------------------------- the loops

  /** The output port, as the characters written to it. */
  class Port {
    ghost var emitted: string

    constructor ()
      ensures emitted == ""
    {
      emitted := "";
    }

    method PutCharacter(c: char)
      modifies this
      ensures emitted == old(emitted) + [c]
    {
      emitted := emitted + [c];
    }

    method PutString(text: string) returns (written: nat)
      modifies this
      ensures emitted == old(emitted) + text && written == |text|
    {
      written := 0;
      while written < |text|
        invariant written <= |text| && emitted == old(emitted) + text[..written]
      {
        PutCharacter(text[written]);
        written := written + 1;
      }
    }

    /** Digits into a sixteen-character buffer, least significant first; then the padding; then the
        buffer backwards. */
    method PutUnsigned(value: nat, radix: nat, width: nat, pad: char) returns (written: nat)
      requires value < MODULUS && (radix == 10 || radix == 16)
      modifies this
      ensures emitted == old(emitted) + Unsigned(value, radix, width, pad)
      ensures written == |Unsigned(value, radix, width, pad)|
    {
      var buffer := new char[16];
      var count := FillDigits(buffer, value, radix);
      ghost var digits := Print(value, radix);
      written := 0;
      var left := width;
      while left > count
        invariant count <= left || left == width
        invariant left <= width && written == width - left
        invariant emitted == old(emitted) + Repeat(pad, written)
        invariant forall i :: 0 <= i < count ==> buffer[i] == digits[count - 1 - i]
      {
        PutCharacter(pad);
        left, written := left - 1, written + 1;
      }
      ghost var padded := old(emitted) + Repeat(pad, written);
      ghost var fill := written;
      var k: nat := count;
      while k != 0
        invariant k <= count == |digits| && written == fill + (count - k)
        invariant emitted == padded + digits[..count - k]
        invariant forall i :: 0 <= i < count ==> buffer[i] == digits[count - 1 - i]
      {
        k := k - 1;
        PutCharacter(buffer[k]);
        assert digits[..count - k] == digits[..count - k - 1] + [buffer[k]];
        written := written + 1;
      }
      assert digits[..count] == digits;
    }

    /** One conversion: its argument, if any, printed as its letter says. */
    method PutConversion(c: Conversion, arguments: seq<Argument>) returns (written: nat)
      requires AllSound(arguments) && Render(c, arguments).Some?
      modifies this
      ensures emitted == old(emitted) + Render(c, arguments).value
      ensures written == |Render(c, arguments).value|
    {
      hide Unsigned;
      match c.letter
      case '%' =>
        PutCharacter('%');
        written := 1;
      case 'c' =>
        PutCharacter((arguments[0].value % 256) as char);
        written := 1;
      case 's' =>
        written := PutString(arguments[0].text);
      case 'd' =>
        var word := arguments[0].value;
        if word >= 0x8000_0000 {
          PutCharacter('-');
          ghost var sign := emitted;
          var digits := PutUnsigned(MODULUS - word, 10, c.width, c.pad);
          written := 1 + digits;
        } else {
          written := PutUnsigned(word, 10, c.width, c.pad);
        }
      case 'u' =>
        written := PutUnsigned(arguments[0].value, 10, c.width, c.pad);
      case 'x' =>
        written := PutUnsigned(arguments[0].value, 16, c.width, c.pad);
      case _ =>
        PutCharacter('?');
        written := 1;
    }

    /** Prints what the format means to this printf and returns how many characters that is. */
    method Format(format: string, arguments: seq<Argument>) returns (written: nat)
      requires AllSound(arguments) && Expand(format, arguments).Some?
      modifies this
      ensures emitted == old(emitted) + Expand(format, arguments).value
      ensures written == |Expand(format, arguments).value|
    {
      hide Render, ReadWidth;
      written := 0;
      ghost var meaning := Expand(format, arguments).value;
      var rest, left := format, arguments;
      while rest != ""
        invariant AllSound(left) && Expand(rest, left).Some?
        invariant written <= |meaning| && emitted == old(emitted) + meaning[..written]
        invariant meaning[written..] == Expand(rest, left).value
        decreases |rest|
      {
        ghost var now := Expand(rest, left).value;
        if rest[0] != '%' {
          PutCharacter(rest[0]);
          assert now == [rest[0]] + Expand(rest[1..], left).value;
          Advance(meaning, written, [rest[0]], Expand(rest[1..], left).value);
          written := written + 1;
          rest := rest[1..];
        } else {
          var conversion, tail := ScanConversion(rest[1..]);
          ghost var after := Expand(tail, left[Arity(conversion)..]).value;
          ghost var text := Render(conversion, left).value;
          var count := PutConversion(conversion, left);
          assert now == text + after;
          Advance(meaning, written, text, after);
          written := written + count;
          left := left[Arity(conversion)..];
          rest := tail;
        }
      }
    }
  }

  lemma Advance(meaning: string, written: nat, text: string, after: string)
    requires written <= |meaning| && meaning[written..] == text + after
    ensures written + |text| <= |meaning|
    ensures meaning[..written] + text == meaning[..written + |text|]
    ensures meaning[written + |text|..] == after
  {
    assert meaning == meaning[..written] + (text + after);
  }

  /** The loop over padding, width and length modifier. */
  method ScanConversion(s: string) returns (c: Conversion, tail: string)
    requires ReadConversion(s).Some?
    ensures ReadConversion(s) == Some((c, tail))
  {
    var rest, pad := s, ' ';
    var width: nat := 0;
    if rest[0] == '0' {
      pad := '0';
      rest := rest[1..];
    }
    while rest != "" && IsDigit(rest[0])
      invariant ReadWidth(rest, width) == ReadWidth(if s[0] == '0' then s[1..] else s, 0)
      decreases |rest|
    {
      width := width * 10 + DigitOf(rest[0]);
      rest := rest[1..];
    }
    if rest[0] == 'l' {
      rest := rest[1..];
    }
    c := Conversion(pad, width, rest[0]);
    tail := rest[1..];
  }

  /** The digit loop: it stops within the buffer, which then spells the number backwards. */
  method FillDigits(buffer: array<char>, value: nat, radix: nat) returns (count: nat)
    requires buffer.Length == 16 && value < MODULUS && (radix == 10 || radix == 16)
    modifies buffer
    ensures count == |Print(value, radix)| <= 16
    ensures forall i :: 0 <= i < count ==> buffer[i] == Print(value, radix)[count - 1 - i]
  {
    DigitsFit(value, radix);
    hide Split, Spell;
    ghost var all := Digits(value, radix);
    var rest: nat := value;
    count := 0;
    while true
      invariant count < |all| && Digits(rest, radix) == all[count..]
      invariant forall i :: 0 <= i < count ==> buffer[i] == DigitChar(all[i])
      decreases rest
    {
      var (quotient, digit) := Split(rest, radix);
      assert all[count..][0] == digit;
      buffer[count] := DigitChar(digit);
      count := count + 1;
      rest := quotient;
      if rest == 0 {
        break;
      }
      assert all[count - 1..][1..] == all[count..];
    }
    SpellBackwards(all);
  }

  /** Ten decimal digits or eight hexadecimal ones at most. */
  lemma DigitsFit(value: nat, radix: nat)
    requires value < MODULUS && (radix == 10 || radix == 16)
    ensures |Digits(value, radix)| <= if radix == 10 then 10 else 8
  {
    DigitsLength(value, radix, if radix == 10 then 10 else 8);
    Powers();
  }

  lemma Powers()
    ensures Power(10, 10) == 10_000_000_000 && Power(16, 8) == MODULUS
  {
    assert Power(10, 4) == 10_000;
    assert Power(10, 7) == 10_000_000;
    assert Power(16, 4) == 0x1_0000;
  }

  lemma {:induction false} SpellBackwards(ds: seq<nat>)
    requires Below(ds, 36)
    ensures forall i :: 0 <= i < |ds| ==> Spell(ds)[|ds| - 1 - i] == DigitChar(ds[i])
  {
    if ds != [] {
      SpellBackwards(ds[1..]);
      assert forall i :: 0 < i < |ds| ==> ds[1..][i - 1] == ds[i];
    }
  }

  // ---------------------------------------------------------------- reading numbers back

  /** Skips blanks. */
  function Trim(s: string): string {
    if s != "" && s[0] == ' ' then Trim(s[1..]) else s
  }

  lemma {:induction false} TrimBlanks(n: nat, s: string)
    requires s != "" && s[0] != ' '
    ensures Trim(Repeat(' ', n) + s) == s
  {
    if n == 0 {
      assert Repeat(' ', 0) + s == s;
    } else {
      assert (Repeat(' ', n) + s)[1..] == Repeat(' ', n - 1) + s;
      TrimBlanks(n - 1, s);
    }
  }

  /** Leading zeros do not change a number. */
  lemma {:induction false} ParseZeros(n: nat, s: string, base: nat)
    ensures Parse(Repeat('0', n) + s, base) == Parse(s, base)
  {
    var whole := Repeat('0', n) + s;
    if s != "" {
      ParseZeros(n, s[..|s| - 1], base);
      assert whole[..|whole| - 1] == Repeat('0', n) + s[..|s| - 1];
    } else if n != 0 {
      assert whole[..|whole| - 1] == Repeat('0', n - 1) + s;
      ParseZeros(n - 1, s, base);
    }
  }

  predicate IsPad(pad: char) {
    pad == ' ' || pad == '0'
  }

  /** Padded to any width, with blanks or zeros, a number reads back. */
  lemma UnsignedRoundTrip(value: nat, radix: nat, width: nat, pad: char)
    requires (radix == 10 || radix == 16) && IsPad(pad)
    ensures Parse(Trim(Unsigned(value, radix, width, pad)), radix) == value
  {
    var digits := Print(value, radix);
    ParsePrint(value, radix);
    assert digits[0] != ' ';
    var n := if |digits| < width then width - |digits| else 0;
    assert Unsigned(value, radix, width, pad) == Repeat(pad, n) + digits;
    hide Print, Parse, Trim;
    if pad == ' ' {
      TrimBlanks(n, digits);
    } else {
      var s := Repeat('0', n) + digits;
      assert s[0] != ' ';
      TrimNothing(s);
      ParseZeros(n, digits, radix);
    }
  }

  lemma TrimNothing(s: string)
    requires s != "" && s[0] != ' '
    ensures Trim(s) == s
  {
  }

  /** Reads a sign, blanks and digits. */
  function ReadSigned(s: string): int {
    if s != "" && s[0] == '-' then 0 - Parse(Trim(s[1..]), 10) as int else Parse(Trim(s), 10)
  }

  lemma NegativeReads(text: string)
    ensures ReadSigned("-" + text) == 0 - Parse(Trim(text), 10) as int
  {
    hide Parse, Trim;
    assert ("-" + text)[1..] == text;
  }

  lemma PositiveReads(text: string)
    requires text != "" && text[0] != '-'
    ensures ReadSigned(text) == Parse(Trim(text), 10)
  {
    hide Parse, Trim;
  }

  /** `%d` round-trips every 32-bit value, the minimum included, at every width and padding. */
  lemma SignedRoundTrip(word: nat, width: nat, pad: char)
    requires word < MODULUS && IsPad(pad)
    ensures ReadSigned(Decimal32(word, width, pad)) == Signed(word)
  {
    hide Parse, Trim, Unsigned, ReadSigned;
    if Signed(word) < 0 {
      var n: nat := 0 - Signed(word);
      UnsignedRoundTrip(n, 10, width, pad);
      NegativeReads(Unsigned(n, 10, width, pad));
    } else {
      UnsignedRoundTrip(word, 10, width, pad);
      UnsignedStart(word, width, pad);
      PositiveReads(Unsigned(word, 10, width, pad));
    }
  }

  lemma UnsignedStart(value: nat, width: nat, pad: char)
    requires IsPad(pad)
    ensures var text := Unsigned(value, 10, width, pad); text != "" && text[0] != '-'
  {
    var digits := Print(value, 10);
    assert digits[0] != '-';
  }

  // ---------------------------------------------------------------- formats as a whole

  /** Doubles every percent sign. */
  function Escape(text: string): string {
    if text == "" then ""
    else (if text[0] == '%' then "%%" else [text[0]]) + Escape(text[1..])
  }

  /** Any text, with its percent signs doubled, prints itself and needs no arguments. */
  lemma {:induction false} EscapePrints(text: string)
    ensures Expand(Escape(text), []) == Some(text)
  {
    if text != "" {
      EscapePrints(text[1..]);
      var rest := Escape(text[1..]);
      if text[0] == '%' {
        var format := "%%" + rest;
        assert format[1..] == "%" + rest && ("%" + rest)[1..] == rest;
        assert ReadConversion(format[1..]) == Some((Conversion(' ', 0, '%'), rest));
        assert text == "%" + text[1..];
      } else {
        assert ([text[0]] + rest)[1..] == rest;
        assert text == [text[0]] + text[1..];
      }
    }
  }

  /** How many arguments a format takes; `None` when it ends inside a conversion. */
  function Takes(format: string): Option<nat>
    decreases |format|
  {
    if format == "" then Some(0)
    else if format[0] != '%' then Takes(format[1..])
    else
      var read := ReadConversion(format[1..]);
      if read.None? then None
      else
        var rest := Takes(read.value.1);
        if rest.None? then None else Some(Arity(read.value.0) + rest.value)
  }

  lemma {:induction false} ReadWidthMore(s: string, more: string, width: nat)
    requires ReadWidth(s, width).Some? && ReadWidth(s, width).value.1 != ""
    ensures ReadWidth(s + more, width) == Some((ReadWidth(s, width).value.0, ReadWidth(s, width).value.1 + more))
  {
    if IsDigit(s[0]) {
      ReadWidthMore(s[1..], more, width * 10 + DigitOf(s[0]));
      assert (s + more)[1..] == s[1..] + more;
    }
  }

  /** A complete conversion is read the same whatever follows it. */
  lemma ReadConversionMore(s: string, more: string)
    requires ReadConversion(s).Some?
    ensures ReadConversion(s + more) == Some((ReadConversion(s).value.0, ReadConversion(s).value.1 + more))
  {
    var zero := s != "" && s[0] == '0';
    var body := if zero then s[1..] else s;
    ReadWidthMore(body, more, 0);
    assert (s + more)[0] == s[0];
    assert (s + more)[1..] == s[1..] + more;
    hide ReadWidth;
    var rest := ReadWidth(body, 0).value.1;
    assert (rest + more)[0] == rest[0];
    assert (rest + more)[1..] == rest[1..] + more;
    if rest[0] == 'l' {
      assert (rest[1..] + more)[0] == rest[1];
      assert (rest[1..] + more)[1..] == rest[2..] + more;
      assert rest[1..][1..] == rest[2..];
    }
  }

  lemma ThenThen(t: string, x: string, rest: Option<string>)
    ensures Then(t, Then(x, rest)) == Then(t + x, rest)
  {
    if rest.Some? {
      assert t + (x + rest.value) == (t + x) + rest.value;
    }
  }

  lemma ThenNothing(rest: Option<string>)
    ensures Then("", rest) == rest
  {
    if rest.Some? {
      assert "" + rest.value == rest.value;
    }
  }

  /** A format is printed piece by piece: joining two formats, with the arguments of each, joins what
      they print. */
  lemma {:induction false} FormatsJoin(f: string, g: string, a: seq<Argument>, b: seq<Argument>)
    requires AllSound(a) && AllSound(b) && Takes(f) == Some(|a|) && Expand(f, a).Some?
    ensures AllSound(a + b)
    ensures Expand(f + g, a + b) == Then(Expand(f, a).value, Expand(g, b))
    decreases |f|
  {
    hide ReadConversion, Render, Sound, Arity;
    if f == "" {
      assert f + g == g && a + b == b;
      ThenNothing(Expand(g, b));
    } else {
      assert (f + g)[0] == f[0] && (f + g)[1..] == f[1..] + g;
      if f[0] != '%' {
        FormatsJoin(f[1..], g, a, b);
        ThenThen([f[0]], Expand(f[1..], a).value, Expand(g, b));
      } else {
        var (c, tail) := ReadConversion(f[1..]).value;
        ReadConversionMore(f[1..], g);
        FormatsJoin(tail, g, a[Arity(c)..], b);
        assert (a + b)[Arity(c)..] == a[Arity(c)..] + b;
        RenderMore(c, a, b);
        ThenThen(Render(c, a).value, Expand(tail, a[Arity(c)..]).value, Expand(g, b));
      }
    }
  }

  lemma RenderMore(c: Conversion, a: seq<Argument>, b: seq<Argument>)
    requires AllSound(a) && AllSound(b) && Arity(c) <= |a|
    ensures AllSound(a + b) && Render(c, a + b) == Render(c, a)
  {
    if a != [] {
      assert (a + b)[0] == a[0];
    }
  }

  // ---------------------------------------------------------------- reading a conversion back

  /** Reads on from left to right. */
  function ReadOn(digits: string, width: nat): nat {
    if digits == "" then width else ReadOn(digits[1..], width * 10 + DigitOf(digits[0]))
  }

  lemma {:induction false} ReadOnGrows(digits: string, width: nat)
    ensures ReadOn(digits, width) >= width
  {
    if digits != "" {
      ReadOnGrows(digits[1..], width * 10 + DigitOf(digits[0]));
    }
  }

  lemma {:induction false} ReadOnLast(digits: string, width: nat, c: char)
    ensures ReadOn(digits + [c], width) == 10 * ReadOn(digits, width) + DigitOf(c)
    decreases |digits|
  {
    if digits != "" {
      ReadOnLast(digits[1..], width * 10 + DigitOf(digits[0]), c);
      assert (digits + [c])[1..] == digits[1..] + [c];
    } else {
      assert ("" + [c])[1..] == "";
    }
  }

  lemma {:induction false} ReadOnParses(digits: string)
    ensures ReadOn(digits, 0) == Parse(digits, 10)
  {
    if digits != "" {
      var n := |digits| - 1;
      ReadOnParses(digits[..n]);
      ReadOnLast(digits[..n], 0, digits[n]);
      assert digits == digits[..n] + [digits[n]];
    }
  }

  lemma {:induction false} WidthReads(digits: string, rest: string, width: nat)
    requires Decimal(digits) && (rest == "" || !IsDigit(rest[0])) && width <= INT_MAX
    ensures ReadWidth(digits + rest, width)
            == if ReadOn(digits, width) <= INT_MAX then Some((ReadOn(digits, width), rest)) else None
    decreases |digits|
  {
    if digits == "" {
      assert "" + rest == rest;
    } else {
      var next := width * 10 + DigitOf(digits[0]);
      assert (digits + rest)[1..] == digits[1..] + rest && (digits + rest)[0] == digits[0];
      if next <= INT_MAX {
        WidthReads(digits[1..], rest, next);
      } else {
        ReadOnGrows(digits[1..], next);
      }
    }
  }

  /** A conversion as it is written: a zero flag or none, the decimal digits of a width, the length modifier
      or none, a letter. It reads back to its padding, width and letter, and to what follows it, unless the
      width exceeds the largest `int`. */
  lemma ConversionReads(zero: bool, digits: string, long: bool, letter: char, tail: string)
    requires Decimal(digits) && (zero || digits == "" || digits[0] != '0')
    requires long || (letter != 'l' && !IsDigit(letter))
    ensures ReadConversion((if zero then "0" else "") + (digits + ((if long then "l" else "") + ([letter] + tail))))
            == if Parse(digits, 10) <= 0x7fff_ffff
               then Some((Conversion(if zero then '0' else ' ', Parse(digits, 10), letter), tail))
               else None
  {
    var rest := (if long then "l" else "") + ([letter] + tail);
    var s := (if zero then "0" else "") + (digits + rest);
    LetterReads(if zero then '0' else ' ', Parse(digits, 10), long, letter, tail);
    FlagReads(zero, digits, rest);
    hide Decimal, Parse, ReadWidth, ReadLetter;
    WidthReads(digits, rest, 0);
    ReadOnParses(digits);
    hide ReadOn;
  }

  lemma LetterReads(pad: char, width: nat, long: bool, letter: char, tail: string)
    requires long || (letter != 'l' && !IsDigit(letter))
    ensures var rest := (if long then "l" else "") + ([letter] + tail);
            && rest != "" && !IsDigit(rest[0])
            && ReadLetter(pad, width, rest) == Some((Conversion(pad, width, letter), tail))
  {
    assert ("l" + ([letter] + tail))[1..] == [letter] + tail;
    assert "" + ([letter] + tail) == [letter] + tail && ([letter] + tail)[1..] == tail;
  }

  lemma FlagReads(zero: bool, digits: string, rest: string)
    requires Decimal(digits) && (zero || digits == "" || digits[0] != '0') && rest != "" && !IsDigit(rest[0])
    ensures var s := (if zero then "0" else "") + (digits + rest);
            && (s[0] == '0' <==> zero)
            && (if zero then s[1..] else s) == digits + rest
  {
    assert ("0" + (digits + rest))[1..] == digits + rest;
    assert "" + (digits + rest) == digits + rest && (digits + rest)[0] == if digits == "" then rest[0] else digits[0];
  }
}
