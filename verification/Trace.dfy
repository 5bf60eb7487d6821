/** The VCD trace: the streaming writer, the reader used to check scalar signals, and the proof that
    what one writes is what the other sees. */
module Trace {
  import opened Numerals
  import opened Lines
  import opened Options

  datatype Logic = Zero | One | HighZ | Unknown

  /** A signal value, least significant bit first. */
  type Value = v: seq<Logic> | v != [] witness [Zero]

  /** A declared signal: the components of its dotted path, and its first value. */
  datatype Signal = Signal(path: seq<string>, initial: Value)

  predicate NonEmpty(path: seq<string>) {
    path != [] && forall i :: 0 <= i < |path| ==> path[i] != ""
  }

  /** What a registry accepts: no empty path and no empty component. */
  predicate AllRegistered(registry: seq<Signal>) {
    forall i :: 0 <= i < |registry| ==> NonEmpty(registry[i].path)
  }

  function LogicChar(l: Logic): (c: char)
    ensures Visible(c) && IsScalar(c)
  {
    match l
    case Zero => '0'
    case One => '1'
    case HighZ => 'z'
    case Unknown => 'x'
  }

  predicate IsScalar(c: char) {
    c == '0' || c == '1' || c == 'x' || c == 'z'
  }

  // ---------------------------------------------------------------- names

  predicate Plain(c: char) {
    '0' <= c <= '9' || 'A' <= c <= 'Z' || 'a' <= c <= 'z' || c == '_'
  }

  function Sanitize(name: string): (s: string)
    ensures |s| == |name|
    ensures forall i :: 0 <= i < |s| ==> s[i] == if Plain(name[i]) then name[i] else '_'
    ensures name != "" ==> Word(s)
  {
    if name == "" then ""
    else [if Plain(name[0]) then name[0] else '_'] + Sanitize(name[1..])
  }

  function SanitizeAll(names: seq<string>): seq<string> {
    if names == [] then [] else [Sanitize(names[0])] + SanitizeAll(names[1..])
  }

  function Mark(ds: seq<nat>): (s: string)
    requires Below(ds, 94)
    ensures |s| == |ds|
    ensures forall i :: 0 <= i < |s| ==> s[i] == (ds[i] + '!' as int) as char && Visible(s[i])
  {
    if ds == [] then "" else [(ds[0] + '!' as int) as char] + Mark(ds[1..])
  }

  /** The short identifier of the `index`-th signal: base 94, least significant character first. */
  function Identifier(index: nat): (s: string)
    ensures Word(s)
  {
    Mark(Digits(index, 94))
  }

  /** No two signals share an identifier. */
  lemma IdentifierInjective(i: nat, j: nat)
    requires Identifier(i) == Identifier(j)
    ensures i == j
  {
    var a, b := Digits(i, 94), Digits(j, 94);
    forall k | 0 <= k < |a| ensures a[k] == b[k] {
      assert Mark(a)[k] == Mark(b)[k];
    }
    assert a == b;
    DigitsInjective(i, j, 94);
  }

  /** The identifier's characters, one division at a time. */
  method EncodeIdentifier(index: nat) returns (encoded: string)
    ensures encoded == Identifier(index)
  {
    assert Mark([]) == "";
    hide Split, Mark;
    ghost var all := Digits(index, 94);
    ghost var n := 0;
    encoded := "";
    assert all[..0] == [];
    var rest: nat := index;
    while true
      invariant n < |all| && Digits(rest, 94) == all[n..] && encoded == Mark(all[..n])
      decreases rest
    {
      var (quotient, digit) := Split(rest, 94);
      assert all[n..][0] == digit;
      MarkSnoc(all[..n], digit);
      assert all[..n + 1] == all[..n] + [digit];
      encoded := encoded + [('!' as int + digit) as char];
      rest, n := quotient, n + 1;
      if rest == 0 {
        break;
      }
      assert all[n - 1..][1..] == all[n..];
    }
    assert all[..n] == all;
  }

  lemma {:induction false} MarkSnoc(ds: seq<nat>, d: nat)
    requires Below(ds, 94) && d < 94
    ensures Below(ds + [d], 94) && Mark(ds + [d]) == Mark(ds) + [('!' as int + d) as char]
  {
    if ds != [] {
      assert (ds + [d])[1..] == ds[1..] + [d];
      MarkSnoc(ds[1..], d);
    }
  }

  /** A name, character by character. */
  method SanitizeName(name: string) returns (plain: string)
    ensures plain == Sanitize(name)
  {
    plain := "";
    for i := 0 to |name|
      invariant |plain| == i && forall j :: 0 <= j < i ==> plain[j] == Sanitize(name)[j]
    {
      var c := name[i];
      var keeps := '0' <= c <= '9' || 'a' <= c <= 'z' || 'A' <= c <= 'Z' || c == '_';
      plain := plain + [if keeps then c else '_'];
    }
  }

  function Dotted(parts: seq<string>): string {
    if parts == [] then ""
    else if |parts| == 1 then parts[0]
    else parts[0] + "." + Dotted(parts[1..])
  }

  // ---------------------------------------------------------------- the scope tree

  datatype Leaf = Leaf(name: string, width: nat, id: string)

  /** A scope: its signals in declaration order and its children in name order. */
  datatype Scope = Scope(signals: seq<Leaf>, children: Forest)
  datatype Forest = Empty | Branch(name: string, scope: Scope, rest: Forest)

  predicate Less(a: string, b: string) {
    b != "" && (a == "" || a[0] < b[0] || (a[0] == b[0] && Less(a[1..], b[1..])))
  }

  /** The order of names: they agree up to a place where the one ends or has the smaller character. */
  ghost predicate Earlier(a: string, b: string) {
    exists k: nat :: k <= |a| && k < |b| && a[..k] == b[..k] && (k == |a| || a[k] < b[k])
  }

  lemma {:induction false} LessIff(a: string, b: string)
    ensures Less(a, b) <==> Earlier(a, b)
    ensures a == b || Less(a, b) || Less(b, a)
  {
    if a != "" && b != "" && a[0] == b[0] {
      LessIff(a[1..], b[1..]);
      if k: nat :| k <= |a| && k < |b| && a[..k] == b[..k] && (k == |a| || a[k] < b[k]) {
        assert k > 0 && a[1..][..k - 1] == a[..k][1..] && b[1..][..k - 1] == b[..k][1..];
      }
      if k: nat :| k <= |a[1..]| && k < |b[1..]| && a[1..][..k] == b[1..][..k] && (k == |a[1..]| || a[1..][k] < b[1..][k]) {
        assert a[..k + 1] == [a[0]] + a[1..][..k] && b[..k + 1] == [b[0]] + b[1..][..k];
      }
      assert a == [a[0]] + a[1..] && b == [b[0]] + b[1..];
    } else if b != "" && (a == "" || a[0] < b[0]) {
      assert a[..0] == b[..0];
    } else {
      forall k: nat | 0 < k <= |a| && k < |b| ensures a[..k] != b[..k] {
        assert a[..k][0] == a[0] && b[..k][0] == b[0];
      }
    }
  }

  /** The children of every scope are in name order. */
  ghost predicate Arranged(scope: Scope)
    decreases scope
  {
    ArrangedForest(scope.children)
  }

  ghost predicate ArrangedForest(forest: Forest)
    decreases forest
  {
    match forest
    case Empty => true
    case Branch(name, scope, rest) =>
      Arranged(scope) && ArrangedForest(rest) && (rest.Branch? ==> Earlier(name, rest.name))
  }

  lemma {:induction false} PlaceArranged(scope: Scope, path: seq<string>, width: nat, id: string)
    requires path != [] && Arranged(scope)
    ensures Arranged(Place(scope, path, width, id))
    decreases |path|, 1, scope
  {
    if |path| > 1 {
      PlaceInArranged(scope.children, path, width, id);
    }
  }

  lemma {:induction false} PlaceInArranged(forest: Forest, path: seq<string>, width: nat, id: string)
    requires |path| > 1 && ArrangedForest(forest)
    ensures var placed := PlaceIn(forest, path, width, id);
            && ArrangedForest(placed) && placed.Branch?
            && (placed.name == path[0] || (forest.Branch? && placed.name == forest.name))
    decreases |path|, 0, forest
  {
    hide Earlier, Less;
    match forest
    case Empty => PlaceArranged(Scope([], Empty), path[1..], width, id);
    case Branch(name, scope, rest) =>
      LessIff(path[0], name);
      LessIff(name, path[0]);
      if name == path[0] {
        PlaceArranged(scope, path[1..], width, id);
      } else if Less(path[0], name) {
        PlaceArranged(Scope([], Empty), path[1..], width, id);
      } else {
        PlaceInArranged(rest, path, width, id);
      }
  }

  /** The tree of a registry, as it is printed: every scope's children in the order of their names. */
  lemma {:induction false} TreeArranged(registry: seq<Signal>, n: nat)
    requires n <= |registry| && AllRegistered(registry)
    ensures Arranged(Tree(registry, n))
  {
    hide Arranged;
    if n == 0 {
      NothingArranged();
    } else {
      TreeArranged(registry, n - 1);
      var s := registry[n - 1];
      PlaceArranged(Tree(registry, n - 1), s.path, |s.initial|, Identifier(n - 1));
    }
  }

  lemma NothingArranged()
    ensures Arranged(Scope([], Empty))
  {
  }

  function Place(scope: Scope, path: seq<string>, width: nat, id: string): Scope
    requires path != []
    decreases |path|, 1, scope
  {
    if |path| == 1 then scope.(signals := scope.signals + [Leaf(path[0], width, id)])
    else scope.(children := PlaceIn(scope.children, path, width, id))
  }

  function PlaceIn(forest: Forest, path: seq<string>, width: nat, id: string): Forest
    requires |path| > 1
    decreases |path|, 0, forest
  {
    match forest
    case Empty => Branch(path[0], Place(Scope([], Empty), path[1..], width, id), Empty)
    case Branch(name, scope, rest) =>
      if name == path[0] then Branch(name, Place(scope, path[1..], width, id), rest)
      else if Less(path[0], name) then
        Branch(path[0], Place(Scope([], Empty), path[1..], width, id), forest)
      else Branch(name, scope, PlaceIn(rest, path, width, id))
  }

  /** The tree of the first `n` signals. */
  function Tree(registry: seq<Signal>, n: nat): Scope
    requires n <= |registry| && AllRegistered(registry)
  {
    if n == 0 then Scope([], Empty)
    else
      var s := registry[n - 1];
      Place(Tree(registry, n - 1), s.path, |s.initial|, Identifier(n - 1))
  }

  // ---------------------------------------------------------------- printing

  function ScopeLine(name: string): string {
    Unfields(["$scope", "module", Sanitize(name), "$end"])
  }

  function VarLine(leaf: Leaf): string {
    Unfields(["$var", "wire", Print(leaf.width, 10), leaf.id, Sanitize(leaf.name), "$end"])
  }

  const UPSCOPE := "$upscope $end"
  const ENDDEFINITIONS := "$enddefinitions $end"

  function VarLines(leaves: seq<Leaf>): seq<string> {
    if leaves == [] then [] else [VarLine(leaves[0])] + VarLines(leaves[1..])
  }

  function ScopeLines(name: string, scope: Scope): seq<string>
    decreases scope
  {
    [ScopeLine(name)] + VarLines(scope.signals) + ForestLines(scope.children) + [UPSCOPE]
  }

  function ForestLines(forest: Forest): seq<string>
    decreases forest
  {
    match forest
    case Empty => []
    case Branch(name, scope, rest) => ScopeLines(name, scope) + ForestLines(rest)
  }

  function Bits(value: seq<Logic>): string {
    if value == [] then "" else Bits(value[1..]) + [LogicChar(value[0])]
  }

  /** One bit is written as a scalar, more as a vector, most significant bit first. */
  function ValueLine(id: string, value: Value): string {
    if |value| == 1 then [LogicChar(value[0])] + id else "b" + Bits(value) + " " + id
  }

  /** A vector is written most significant bit first, after a `b` and before its identifier. */
  lemma {:induction false} VectorBits(value: seq<Logic>)
    ensures |Bits(value)| == |value|
    ensures forall i :: 0 <= i < |value| ==>
              var c := Bits(value)[|value| - 1 - i];
              && (c == '0' <==> value[i].Zero?) && (c == '1' <==> value[i].One?)
              && (c == 'z' <==> value[i].HighZ?) && (c == 'x' <==> value[i].Unknown?)
  {
    if value != [] {
      VectorBits(value[1..]);
      var rest := Bits(value[1..]);
      forall i | 1 <= i < |value| ensures Bits(value)[|value| - 1 - i] == rest[|rest| - 1 - (i - 1)] && value[1..][i - 1] == value[i] {
      }
    }
  }

  lemma VectorLine(id: string, value: Value)
    requires |value| > 1
    ensures var line := ValueLine(id, value);
            && |line| == |value| + 2 + |id|
            && line[0] == 'b' && line[|value| + 1] == ' ' && line[|value| + 2..] == id
            && forall i :: 0 <= i < |value| ==>
                 var c := line[|value| - i];
                 && (c == '0' <==> value[i].Zero?) && (c == '1' <==> value[i].One?)
                 && (c == 'z' <==> value[i].HighZ?) && (c == 'x' <==> value[i].Unknown?)
  {
    VectorBits(value);
  }

  function TimeLine(at: nat): string {
    "#" + Print(at, 10)
  }

  // ---------------------------------------------------------------- the reader

  /** The reader's variables. */
  datatype Reader = Reader(
    scopes: seq<string>,
    identifiers: map<string, string>,
    events: map<string, seq<(nat, char)>>,
    time: nat,
    definitions: bool)

  const START := Reader([], map[], map[], 0, true)

  function Record(events: map<string, seq<(nat, char)>>, path: string, event: (nat, char))
    : map<string, seq<(nat, char)>>
  {
    events[path := (if path in events then events[path] else []) + [event]]
  }

  /** A timestamp: decimal digits. */
  function ReadTime(s: string): Option<nat> {
    if s != "" && Decimal(s) then Some(Parse(s, 10)) else None
  }

  predicate StartsScope(line: string) {
    "$scope module " <= line
  }

  predicate StartsVar(line: string) {
    "$var " <= line
  }

  /** The body of the reader's loop. */
  method TakeLine(r: Reader, line: string) returns (after: Option<Reader>)
    ensures after == ReadLine(r, line)
  {
    hide Fields, ReadTime, Dotted, Record;
    if r.definitions {
      if "$scope module " <= line {
        var fields := Fields(line);
        if |fields| <= 2 {
          return None;
        }
        after := Some(r.(scopes := r.scopes + [fields[2]]));
      } else if line == "$upscope $end" {
        if r.scopes == [] {
          return None;
        }
        after := Some(r.(scopes := r.scopes[..|r.scopes| - 1]));
      } else if "$var " <= line {
        var fields := Fields(line);
        if |fields| <= 4 {
          return None;
        }
        after := Some(r.(identifiers := r.identifiers[fields[3] := Dotted(r.scopes + [fields[4]])]));
      } else if line == "$enddefinitions $end" {
        after := Some(r.(definitions := false));
      } else {
        after := Some(r);
      }
    } else if "#" <= line {
      var time := ReadTime(line[1..]);
      after := if time.None? then None else Some(r.(time := time.value));
    } else if line != "" && (line[0] == '0' || line[0] == '1' || line[0] == 'x' || line[0] == 'z')
              && line[1..] in r.identifiers {
      after := Some(r.(events := Record(r.events, r.identifiers[line[1..]], (r.time, line[0]))));
    } else {
      after := Some(r);
    }
  }

  /** One line; `None` is an exception. */
  function ReadLine(r: Reader, line: string): Option<Reader> {
    if r.definitions then
      if StartsScope(line) then
        var fields := Fields(line);
        if |fields| < 3 then None else Some(r.(scopes := r.scopes + [fields[2]]))
      else if line == "$upscope $end" then
        if r.scopes == [] then None else Some(r.(scopes := r.scopes[..|r.scopes| - 1]))
      else if StartsVar(line) then
        var fields := Fields(line);
        if |fields| < 5 then None
        else Some(r.(identifiers := r.identifiers[fields[3] := Dotted(r.scopes + [fields[4]])]))
      else if line == "$enddefinitions $end" then Some(r.(definitions := false))
      else Some(r)
    else if "#" <= line then
      var time := ReadTime(line[1..]);
      if time.None? then None else Some(r.(time := time.value))
    else if line != "" && IsScalar(line[0]) && line[1..] in r.identifiers then
      Some(r.(events := Record(r.events, r.identifiers[line[1..]], (r.time, line[0]))))
    else Some(r)
  }

  function ReadAll(r: Reader, lines: seq<string>): Option<Reader>
    decreases |lines|
  {
    if lines == [] then Some(r)
    else
      var next := ReadLine(r, lines[0]);
      if next.None? then None else ReadAll(next.value, lines[1..])
  }

  /** The reader's loop. */
  method ParseScalarEvents(text: string) returns (r: Option<Reader>)
    ensures r == ReadAll(START, SplitLines(text))
  {
    var lines := SplitLines(text);
    var state := START;
    var i := 0;
    while i < |lines|
      invariant 0 <= i <= |lines|
      invariant ReadAll(START, lines) == ReadAll(state, lines[i..])
    {
      var next := TakeLine(state, lines[i]);
      assert lines[i..][1..] == lines[i + 1..];
      if next.None? {
        return None;
      }
      state := next.value;
      i := i + 1;
    }
    r := Some(state);
  }

  lemma {:induction false} ReadConcat(r: Reader, a: seq<string>, b: seq<string>)
    requires ReadAll(r, a).Some?
    ensures ReadAll(r, a + b) == ReadAll(ReadAll(r, a).value, b)
    decreases |a|
  {
    hide ReadLine;
    if a == [] {
      assert a + b == b;
    } else {
      assert (a + b)[1..] == a[1..] + b;
      ReadConcat(ReadLine(r, a[0]).value, a[1..], b);
    }
  }

  lemma ReadOne(r: Reader, line: string)
    ensures ReadAll(r, [line]) == ReadLine(r, line)
  {
    hide ReadLine;
    assert [line][1..] == [];
  }

  // ---------------------------------------------------------------- reading the definitions back

  lemma TwoWords(a: string, b: string, rest: seq<string>)
    requires rest != []
    ensures Unfields([a, b] + rest) == (a + " " + b + " ") + Unfields(rest)
  {
    var words := [a, b] + rest;
    assert words[1..] == [b] + rest && words[1..][1..] == rest;
    assert a + " " + (b + " " + Unfields(rest)) == (a + " " + b + " ") + Unfields(rest);
  }

  lemma ScopeLineStarts(name: string)
    ensures StartsScope(ScopeLine(name))
  {
    var rest := [Sanitize(name), "$end"];
    TwoWords("$scope", "module", rest);
    assert ["$scope", "module", Sanitize(name), "$end"] == ["$scope", "module"] + rest;
    hide Unfields, Sanitize;
    assert "$scope" + " " + "module" + " " == "$scope module ";
  }

  lemma VarLineStarts(leaf: Leaf)
    ensures StartsVar(VarLine(leaf)) && !StartsScope(VarLine(leaf)) && VarLine(leaf) != UPSCOPE
  {
    var rest := ["wire", Print(leaf.width, 10), leaf.id, Sanitize(leaf.name), "$end"];
    assert ["$var", "wire", Print(leaf.width, 10), leaf.id, Sanitize(leaf.name), "$end"] == ["$var"] + rest;
    assert (["$var"] + rest)[1..] == rest;
    assert "$var" + " " == "$var ";
    var line := VarLine(leaf);
    assert line == "$var" + " " + Unfields(rest);
    hide Unfields, Sanitize, Print;
    assert line == "$var " + Unfields(rest);
    assert line[1] == 'v';
    assert "$scope module "[1] == 's' && UPSCOPE[1] == 'u';
  }

  lemma ReadScopeLine(r: Reader, name: string)
    requires r.definitions && name != ""
    ensures ReadLine(r, ScopeLine(name)) == Some(r.(scopes := r.scopes + [Sanitize(name)]))
  {
    ScopeLineStarts(name);
    hide StartsScope, StartsVar, Unfields, Fields, Sanitize, Word;
    assert Word("$scope") && Word("module") && Word("$end") by {
      Keywords();
    }
    FieldsOf(["$scope", "module", Sanitize(name), "$end"]);
  }

  lemma Keywords()
    ensures Word("$scope") && Word("module") && Word("$end") && Word("$var") && Word("wire")
  {
  }

  lemma PrintWord(n: nat, base: nat)
    requires 1 < base <= 36
    ensures Word(Print(n, base))
  {
  }

  lemma ReadVarLine(r: Reader, leaf: Leaf)
    requires r.definitions && leaf.name != "" && Word(leaf.id)
    ensures ReadLine(r, VarLine(leaf))
            == Some(r.(identifiers := r.identifiers[leaf.id := Dotted(r.scopes + [Sanitize(leaf.name)])]))
  {
    VarLineStarts(leaf);
    Keywords();
    PrintWord(leaf.width, 10);
    hide StartsScope, StartsVar, Unfields, Fields, Sanitize, Word, Print, Dotted;
    FieldsOf(["$var", "wire", Print(leaf.width, 10), leaf.id, Sanitize(leaf.name), "$end"]);
  }

  // ---------------------------------------------------------------- scope trees

  /** Every name in the tree is non-empty, and every identifier a word. */
  ghost predicate Named(scope: Scope)
    decreases scope
  {
    && (forall leaf :: leaf in scope.signals ==> leaf.name != "" && Word(leaf.id))
    && ForestNamed(scope.children)
  }

  ghost predicate ForestNamed(forest: Forest)
    decreases forest
  {
    match forest
    case Empty => true
    case Branch(name, scope, rest) => name != "" && Named(scope) && ForestNamed(rest)
  }

  /** The identifiers of a tree with their dotted paths, in printing order. */
  function Paths(scope: Scope, prefix: seq<string>): seq<(string, string)>
    decreases scope
  {
    LeafPaths(scope.signals, prefix) + ForestPaths(scope.children, prefix)
  }

  function LeafPaths(leaves: seq<Leaf>, prefix: seq<string>): seq<(string, string)> {
    if leaves == [] then []
    else [(leaves[0].id, Dotted(prefix + [Sanitize(leaves[0].name)]))] + LeafPaths(leaves[1..], prefix)
  }

  function ForestPaths(forest: Forest, prefix: seq<string>): seq<(string, string)>
    decreases forest
  {
    match forest
    case Empty => []
    case Branch(name, scope, rest) => Paths(scope, prefix + [Sanitize(name)]) + ForestPaths(rest, prefix)
  }

  /** Assigning entries one after another. */
  function Assign(m: map<string, string>, entries: seq<(string, string)>): map<string, string>
    decreases |entries|
  {
    if entries == [] then m else Assign(m[entries[0].0 := entries[0].1], entries[1..])
  }

  lemma {:induction false} AssignConcat(m: map<string, string>, a: seq<(string, string)>, b: seq<(string, string)>)
    ensures Assign(m, a + b) == Assign(Assign(m, a), b)
    decreases |a|
  {
    if a == [] {
      assert a + b == b;
    } else {
      assert (a + b)[1..] == a[1..] + b;
      AssignConcat(m[a[0].0 := a[0].1], a[1..], b);
    }
  }

  lemma AssignOne(m: map<string, string>, entry: (string, string))
    ensures Assign(m, [entry]) == m[entry.0 := entry.1]
  {
    var entries := [entry];
    assert |entries[1..]| == 0;
  }

  /** Reading these lines adds these entries and leaves the scope stack as it was. */
  ghost predicate Adds(r: Reader, lines: seq<string>, entries: seq<(string, string)>) {
    ReadAll(r, lines) == Some(r.(identifiers := Assign(r.identifiers, entries)))
  }

  lemma AddsBoth(r: Reader, a: seq<string>, ea: seq<(string, string)>, b: seq<string>, eb: seq<(string, string)>)
    requires Adds(r, a, ea) && Adds(r.(identifiers := Assign(r.identifiers, ea)), b, eb)
    ensures Adds(r, a + b, ea + eb)
  {
    hide ReadAll, Assign;
    ReadConcat(r, a, b);
    AssignConcat(r.identifiers, ea, eb);
  }

  lemma {:induction false} ReadVarLines(r: Reader, leaves: seq<Leaf>)
    requires r.definitions
    requires forall leaf :: leaf in leaves ==> leaf.name != "" && Word(leaf.id)
    ensures Adds(r, VarLines(leaves), LeafPaths(leaves, r.scopes))
    decreases |leaves|
  {
    hide ReadLine, VarLine, Dotted, Sanitize, Word;
    if leaves != [] {
      var entry := (leaves[0].id, Dotted(r.scopes + [Sanitize(leaves[0].name)]));
      ReadVarLine(r, leaves[0]);
      ReadOne(r, VarLine(leaves[0]));
      AssignOne(r.identifiers, entry);
      assert Adds(r, [VarLine(leaves[0])], [entry]);
      ReadVarLines(r.(identifiers := r.identifiers[entry.0 := entry.1]), leaves[1..]);
      AddsBoth(r, [VarLine(leaves[0])], [entry], VarLines(leaves[1..]), LeafPaths(leaves[1..], r.scopes));
    }
  }

  /** For any scope tree, the reader recovers every identifier's dotted path and returns to the scope
      it started in. */
  lemma {:induction false} ReadScope(r: Reader, name: string, scope: Scope)
    requires r.definitions && name != "" && Named(scope)
    ensures Adds(r, ScopeLines(name, scope), Paths(scope, r.scopes + [Sanitize(name)]))
    decreases scope
  {
    hide ReadLine, ScopeLine, Sanitize, VarLines, Assign, LeafPaths;
    var inner := r.(scopes := r.scopes + [Sanitize(name)]);
    ReadScopeLine(r, name);
    ReadVarLines(inner, scope.signals);
    var filled := inner.(identifiers := Assign(r.identifiers, LeafPaths(scope.signals, inner.scopes)));
    ReadForest(filled, scope.children);
    AddsBoth(inner, VarLines(scope.signals), LeafPaths(scope.signals, inner.scopes),
             ForestLines(scope.children), ForestPaths(scope.children, inner.scopes));
    ReadUpscope(inner, r.scopes, Sanitize(name), VarLines(scope.signals) + ForestLines(scope.children),
                Paths(scope, inner.scopes), ScopeLine(name), r);
    assert ScopeLines(name, scope)
        == [ScopeLine(name)] + (VarLines(scope.signals) + ForestLines(scope.children)) + [UPSCOPE];
  }

  /** Lines that add entries inside a scope, bracketed by the lines that enter and leave it. */
  lemma ReadUpscope(inner: Reader, scopes: seq<string>, name: string, lines: seq<string>,
                    entries: seq<(string, string)>, first: string, r: Reader)
    requires r.definitions && r.scopes == scopes && inner == r.(scopes := scopes + [name])
    requires ReadLine(r, first) == Some(inner) && Adds(inner, lines, entries)
    ensures Adds(r, [first] + lines + [UPSCOPE], entries)
  {
    var last := inner.(identifiers := Assign(r.identifiers, entries));
    assert ReadLine(last, UPSCOPE) == Some(last.(scopes := scopes)) by {
      assert last.scopes[..|last.scopes| - 1] == scopes;
      assert UPSCOPE[1] == 'u';
    }
    ReadOne(r, first);
    ReadOne(last, UPSCOPE);
    hide ReadLine, ReadAll, Assign;
    ReadConcat(r, [first], lines);
    ReadConcat(r, [first] + lines, [UPSCOPE]);
  }

  lemma {:induction false} ReadForest(r: Reader, forest: Forest)
    requires r.definitions && ForestNamed(forest)
    ensures Adds(r, ForestLines(forest), ForestPaths(forest, r.scopes))
    decreases forest
  {
    hide ReadLine, ScopeLine, Sanitize, VarLines, Assign, Paths, ScopeLines, Named;
    match forest
    case Empty => AddsNothing(r);
    case Branch(name, scope, rest) =>
      var entries := Paths(scope, r.scopes + [Sanitize(name)]);
      ReadScope(r, name, scope);
      ReadForest(r.(identifiers := Assign(r.identifiers, entries)), rest);
      AddsBoth(r, ScopeLines(name, scope), entries, ForestLines(rest), ForestPaths(rest, r.scopes));
  }

  lemma AddsNothing(r: Reader)
    ensures Adds(r, [], [])
  {
  }
}
