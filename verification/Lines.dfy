/** Text as Python sees it: splitting into lines and into blank-separated fields. */
module Lines {

  /** The characters at which a line ends. */
  predicate IsBreak(c: char) {
    c == '\n' || c == '\r' || c == 0x0b as char || c == 0x0c as char
    || c == 0x1c as char || c == 0x1d as char || c == 0x1e as char
    || c == 0x85 as char || c == 0x2028 as char || c == 0x2029 as char
  }

  /** The ASCII and Latin-1 characters that separate fields. */
  predicate IsSpace(c: char) {
    c == ' ' || c == '\t' || c == '\n' || c == '\r' || c == 0x0b as char || c == 0x0c as char
    || 0x1c as char <= c <= 0x1f as char || c == 0x85 as char || c == 0xa0 as char
  }

  predicate Visible(c: char) {
    '!' <= c <= '~'
  }

  /** A field: visible characters only. */
  predicate Word(w: string) {
    w != "" && forall i :: 0 <= i < |w| ==> Visible(w[i])
  }

  /** A line of visible characters and blanks. */
  predicate Line(s: string) {
    forall i :: 0 <= i < |s| ==> Visible(s[i]) || s[i] == ' '
  }

  function BreakAt(s: string): (k: nat)
    ensures k <= |s|
    ensures forall i :: 0 <= i < k ==> !IsBreak(s[i])
    ensures k < |s| ==> IsBreak(s[k])
  {
    if s == "" || IsBreak(s[0]) then 0 else 1 + BreakAt(s[1..])
  }

  /** A carriage return and a line feed together end one line. */
  function BreakLength(s: string): nat {
    if |s| >= 2 && s[0] == '\r' && s[1] == '\n' then 2 else 1
  }

  function SplitLines(s: string): seq<string>
    decreases |s|
  {
    if s == "" then []
    else
      var k := BreakAt(s);
      if k == |s| then [s] else [s[..k]] + SplitLines(s[k + BreakLength(s[k..])..])
  }

  function Join(lines: seq<string>): string {
    if lines == [] then "" else lines[0] + "\n" + Join(lines[1..])
  }

  lemma BreakAfter(line: string, rest: string)
    requires Line(line)
    ensures BreakAt(line + "\n" + rest) == |line|
  {
    var s := line + "\n" + rest;
    var k := BreakAt(s);
    assert forall i :: 0 <= i < |line| ==> s[i] == line[i];
    assert s[|line|] == '\n';
  }

  lemma SplitFirst(line: string, rest: string)
    requires Line(line)
    ensures SplitLines(line + "\n" + rest) == [line] + SplitLines(rest)
  {
    var s := line + "\n" + rest;
    BreakAfter(line, rest);
    var k := |line|;
    assert s[k..] == "\n" + rest;
    assert BreakLength(s[k..]) == 1;
    hide IsBreak, BreakAt, BreakLength;
    assert s[..k] == line;
    assert s[k + 1..] == rest;
  }

  /** Lines written one by one are read back. */
  lemma {:induction false} SplitJoin(lines: seq<string>)
    requires forall i :: 0 <= i < |lines| ==> Line(lines[i])
    ensures SplitLines(Join(lines)) == lines
  {
    hide IsBreak, BreakAt, BreakLength, SplitLines;
    if lines != [] {
      SplitFirst(lines[0], Join(lines[1..]));
      SplitJoin(lines[1..]);
    } else {
      SplitNothing();
    }
  }

  lemma SplitNothing()
    ensures SplitLines("") == []
  {
  }

  lemma {:induction false} JoinConcat(a: seq<string>, b: seq<string>)
    ensures Join(a + b) == Join(a) + Join(b)
  {
    if a == [] {
      assert a + b == b;
    } else {
      assert (a + b)[1..] == a[1..] + b;
      JoinConcat(a[1..], b);
      assert a[0] + "\n" + (Join(a[1..]) + Join(b)) == (a[0] + "\n" + Join(a[1..])) + Join(b);
    }
  }

  // ---------------------------------------------------------------- fields

  function WordEnd(s: string): (k: nat)
    ensures k <= |s|
    ensures s != "" && !IsSpace(s[0]) ==> 0 < k
    ensures forall i :: 0 <= i < k ==> !IsSpace(s[i])
    ensures k < |s| ==> IsSpace(s[k])
  {
    if s == "" || IsSpace(s[0]) then 0 else 1 + WordEnd(s[1..])
  }

  /** The fields of a line. */
  function Fields(s: string): seq<string>
    decreases |s|
  {
    if s == "" then []
    else if IsSpace(s[0]) then Fields(s[1..])
    else [s[..WordEnd(s)]] + Fields(s[WordEnd(s)..])
  }

  function Unfields(words: seq<string>): string {
    if words == [] then ""
    else if |words| == 1 then words[0]
    else words[0] + " " + Unfields(words[1..])
  }

  lemma WordEndsAt(w: string, rest: string)
    requires Word(w) && (rest == "" || IsSpace(rest[0]))
    ensures WordEnd(w + rest) == |w| && (w + rest)[..|w|] == w && (w + rest)[|w|..] == rest
  {
    var s := w + rest;
    assert forall i :: 0 <= i < |w| ==> s[i] == w[i];
    assert rest != "" ==> s[|w|] == rest[0];
  }

  lemma FieldsFirst(w: string, rest: string)
    requires Word(w) && (rest == "" || IsSpace(rest[0]))
    ensures Fields(w + rest) == [w] + Fields(rest)
  {
    WordEndsAt(w, rest);
    assert !IsSpace((w + rest)[0]) by {
      assert (w + rest)[0] == w[0];
    }
    hide IsSpace, WordEnd;
  }

  lemma FieldsBlank(s: string)
    ensures Fields(" " + s) == Fields(s)
  {
    assert (" " + s)[1..] == s;
  }

  /** Words separated by single blanks are the fields of the line. */
  lemma {:induction false} FieldsOf(words: seq<string>)
    requires forall i :: 0 <= i < |words| ==> Word(words[i])
    ensures Fields(Unfields(words)) == words
  {
    if |words| == 1 {
      FieldsFirst(words[0], "");
      hide WordEnd, IsSpace;
      assert words[0] + "" == words[0];
      assert words == [words[0]];
    } else if words != [] {
      var rest := Unfields(words[1..]);
      FieldsFirst(words[0], " " + rest);
      FieldsBlank(rest);
      hide WordEnd, IsSpace, Fields;
      assert words[0] + " " + rest == words[0] + (" " + rest);
      FieldsOf(words[1..]);
      assert words == [words[0]] + words[1..];
    }
  }
}
