/** Whole traces: the writer as an object, and what the reader makes of any run of it. */
module TraceRuns {
  import opened Numerals
  import opened Lines
  import opened Options
  import opened Trace

  // ---------------------------------------------------------------- the tree holds what was declared

  function FullPath(path: seq<string>): string {
    Dotted(["remu"] + SanitizeAll(path))
  }

  lemma SanitizeStep(path: seq<string>, prefix: seq<string>)
    requires path != []
    ensures prefix + SanitizeAll(path) == prefix + [Sanitize(path[0])] + SanitizeAll(path[1..])
  {
  }

  lemma {:induction false} LeafPathsSnoc(leaves: seq<Leaf>, leaf: Leaf, prefix: seq<string>)
    ensures LeafPaths(leaves + [leaf], prefix)
            == LeafPaths(leaves, prefix) + [(leaf.id, Dotted(prefix + [Sanitize(leaf.name)]))]
  {
    hide Dotted, Sanitize;
    if leaves == [] {
      assert leaves + [leaf] == [leaf];
      assert [leaf][1..] == [];
    } else {
      assert (leaves + [leaf])[1..] == leaves[1..] + [leaf];
      LeafPathsSnoc(leaves[1..], leaf, prefix);
    }
  }

  /** `added` holds the members of `old` and one more. */
  ghost predicate Extends(added: seq<(string, string)>, old_: seq<(string, string)>, entry: (string, string)) {
    forall e :: e in added <==> e in old_ || e == entry
  }

  /** Placing a signal in the tree adds its own entry and disturbs no other. */
  lemma {:induction false} PlacePaths(scope: Scope, path: seq<string>, width: nat, id: string, prefix: seq<string>)
    requires NonEmpty(path) && Word(id)
    ensures Extends(Paths(Place(scope, path, width, id), prefix), Paths(scope, prefix),
                    (id, Dotted(prefix + SanitizeAll(path))))
    ensures Named(scope) ==> Named(Place(scope, path, width, id))
    decreases |path|, 1, scope
  {
    hide Sanitize, Dotted, Word;
    SanitizeStep(path, prefix);
    if |path| == 1 {
      LeafPathsSnoc(scope.signals, Leaf(path[0], width, id), prefix);
      assert prefix + [Sanitize(path[0])] + SanitizeAll(path[1..]) == prefix + [Sanitize(path[0])];
    } else {
      PlaceInPaths(scope.children, path, width, id, prefix);
    }
  }

  lemma {:induction false} PlaceInPaths(forest: Forest, path: seq<string>, width: nat, id: string, prefix: seq<string>)
    requires NonEmpty(path) && |path| > 1 && Word(id)
    ensures Extends(ForestPaths(PlaceIn(forest, path, width, id), prefix), ForestPaths(forest, prefix),
                    (id, Dotted(prefix + SanitizeAll(path))))
    ensures ForestNamed(forest) ==> ForestNamed(PlaceIn(forest, path, width, id))
    decreases |path|, 0, forest
  {
    hide Sanitize, Dotted, Word, Less, Place;
    SanitizeStep(path, prefix);
    var inner := prefix + [Sanitize(path[0])];
    PlacePaths(Scope([], Empty), path[1..], width, id, inner);
    assert Paths(Scope([], Empty), inner) == [];
    match forest
    case Empty =>
    case Branch(name, scope, rest) =>
      if name == path[0] {
        PlacePaths(scope, path[1..], width, id, inner);
      } else {
        PlaceInPaths(rest, path, width, id, prefix);
      }
  }

  /** The entry of signal `i`. */
  function Entry(registry: seq<Signal>, i: nat): (string, string)
    requires i < |registry|
  {
    (Identifier(i), FullPath(registry[i].path))
  }

  /** The tree of a registry lists exactly its signals. */
  lemma {:induction false} TreePaths(registry: seq<Signal>, n: nat)
    requires AllRegistered(registry) && n <= |registry|
    ensures Named(Tree(registry, n))
    ensures forall e :: e in Paths(Tree(registry, n), ["remu"])
                        <==> exists i :: 0 <= i < n && e == Entry(registry, i)
  {
    hide Dotted, Sanitize, Identifier, Place;
    if n == 0 {
      assert Paths(Scope([], Empty), ["remu"]) == [];
    } else {
      TreePaths(registry, n - 1);
      var s := registry[n - 1];
      PlacePaths(Tree(registry, n - 1), s.path, |s.initial|, Identifier(n - 1), ["remu"]);
      assert Entry(registry, n - 1) == (Identifier(n - 1), Dotted(["remu"] + SanitizeAll(s.path)));
    }
  }

  /** The reader's table: every signal's identifier leads to its path, and there are no others. */
  ghost predicate Table(registry: seq<Signal>, ids: map<string, string>) {
    && (forall i :: 0 <= i < |registry| ==>
          Identifier(i) in ids && ids[Identifier(i)] == FullPath(registry[i].path))
    && (forall id :: id in ids ==> exists i :: 0 <= i < |registry| && id == Identifier(i))
  }

  /** Later entries overwrite, so each key keeps the value of some entry, or its old one. */
  lemma {:induction false} AssignKeeps(m: map<string, string>, entries: seq<(string, string)>, id: string)
    ensures id in Assign(m, entries) <==> id in m || exists e :: e in entries && e.0 == id
    ensures id in Assign(m, entries) ==>
              (id in m && Assign(m, entries)[id] == m[id])
              || exists e :: e in entries && e == (id, Assign(m, entries)[id])
    decreases |entries|
  {
    if entries != [] {
      var first := entries[0];
      AssignKeeps(m[first.0 := first.1], entries[1..], id);
      assert first in entries;
      assert forall e :: e in entries <==> e == first || e in entries[1..];
    }
  }

  ghost predicate Lists(entries: seq<(string, string)>, registry: seq<Signal>) {
    forall e :: e in entries <==> exists i :: 0 <= i < |registry| && e == Entry(registry, i)
  }

  lemma RowRead(registry: seq<Signal>, entries: seq<(string, string)>, i: nat)
    requires Lists(entries, registry) && i < |registry|
    ensures var ids := Assign(map[], entries);
            Identifier(i) in ids && ids[Identifier(i)] == FullPath(registry[i].path)
  {
    hide Identifier, FullPath, Assign;
    var ids := Assign(map[], entries);
    AssignKeeps(map[], entries, Identifier(i));
    assert Entry(registry, i) in entries;
    var e :| e in entries && e == (Identifier(i), ids[Identifier(i)]);
    var j :| 0 <= j < |registry| && e == Entry(registry, j);
    IdentifierInjective(i, j);
  }

  lemma KeyRead(registry: seq<Signal>, entries: seq<(string, string)>, id: string)
    requires Lists(entries, registry) && id in Assign(map[], entries)
    ensures exists i :: 0 <= i < |registry| && id == Identifier(i)
  {
    hide Identifier, FullPath, Assign;
    AssignKeeps(map[], entries, id);
    var e :| e in entries && e.0 == id;
    var j :| 0 <= j < |registry| && e == Entry(registry, j);
  }

  lemma TableRead(registry: seq<Signal>)
    requires AllRegistered(registry)
    ensures Table(registry, Assign(map[], Paths(Tree(registry, |registry|), ["remu"])))
  {
    TreePaths(registry, |registry|);
    var entries := Paths(Tree(registry, |registry|), ["remu"]);
    assert Lists(entries, registry);
    hide Identifier, FullPath, Tree, Paths, Assign, Lists;
    forall i | 0 <= i < |registry|
      ensures Identifier(i) in Assign(map[], entries)
      ensures Assign(map[], entries)[Identifier(i)] == FullPath(registry[i].path)
    {
      RowRead(registry, entries, i);
    }
    forall id | id in Assign(map[], entries) ensures exists i :: 0 <= i < |registry| && id == Identifier(i) {
      KeyRead(registry, entries, id);
    }
  }

  // ---------------------------------------------------------------- the writer

  datatype TraceError =
    | HeaderAlreadyWritten
    | HeaderNotWritten
    | Undeclared(signal: nat)
    | TimeRegression(previous: nat, next: nat)

  datatype Change = Change(at: nat, signal: nat, value: Value)

  /** The writer: the lines written so far and its variables. */
  datatype Writer = Writer(lines: seq<string>, identifiers: map<nat, string>, header: bool, time: nat)

  const FRESH := Writer([], map[], false, 0)

  function Dump(registry: seq<Signal>, n: nat): seq<string>
    requires n <= |registry|
  {
    if n == 0 then []
    else Dump(registry, n - 1) + [ValueLine(Identifier(n - 1), registry[n - 1].initial)]
  }

  function Banner(version: string, timescale: string): seq<string> {
    ["$date deterministic simulation $end",
     "$version Renvo Emulator " + version + " $end",
     "$timescale " + timescale + " $end"]
  }

  function Definitions(version: string, timescale: string, registry: seq<Signal>): seq<string>
    requires AllRegistered(registry)
  {
    Banner(version, timescale)
    + ScopeLines("remu", Tree(registry, |registry|))
    + [ENDDEFINITIONS]
  }

  function Header(version: string, timescale: string, registry: seq<Signal>): seq<string>
    requires AllRegistered(registry)
  {
    Definitions(version, timescale, registry) + ["#0", "$dumpvars"] + Dump(registry, |registry|) + ["$end"]
  }

  function Open(w: Writer, version: string, timescale: string, registry: seq<Signal>): (Writer, Option<TraceError>)
    requires AllRegistered(registry)
  {
    if w.header then (w, Some(HeaderAlreadyWritten))
    else
      (Writer(w.lines + Header(version, timescale, registry),
              w.identifiers + map i: nat | i < |registry| :: Identifier(i), true, w.time), None)
  }

  function Emit(w: Writer, c: Change): (Writer, Option<TraceError>) {
    if !w.header then (w, Some(HeaderNotWritten))
    else if c.signal !in w.identifiers then (w, Some(Undeclared(c.signal)))
    else if c.at < w.time then (w, Some(TimeRegression(w.time, c.at)))
    else
      (w.(lines := w.lines
                   + (if c.at != w.time then [TimeLine(c.at)] else [])
                   + [ValueLine(w.identifiers[c.signal], c.value)],
          time := c.at), None)
  }

  function EmitAll(w: Writer, changes: seq<Change>): Writer
    decreases |changes|
  {
    if changes == [] then w else EmitAll(Emit(w, changes[0]).0, changes[1..])
  }

  lemma ScopeText(name: string)
    ensures ScopeLine(name) == "$scope module " + Sanitize(name) + " $end"
  {
    hide Sanitize;
    var plain := Sanitize(name);
    assert ["$scope", "module", plain, "$end"][1..] == ["module", plain, "$end"];
    assert ["module", plain, "$end"][1..] == [plain, "$end"];
    assert [plain, "$end"][1..] == ["$end"];
    assert Unfields([plain, "$end"]) == plain + " " + "$end";
    assert Unfields(["module", plain, "$end"]) == "module" + " " + (plain + " " + "$end");
    assert ScopeLine(name) == "$scope" + " " + ("module" + " " + (plain + " " + "$end"));
    assert "$scope" + " " + "module" + " " == "$scope module " && " " + "$end" == " $end";
    hide Unfields;
    Regroup("$scope" + " ", "module" + " ", plain + " " + "$end");
    Regroup("$scope module ", plain, " $end");
    Regroup(plain, " ", "$end");
    Regroup("$scope" + " ", "module", " ");
  }

  lemma Regroup(a: string, b: string, c: string)
    ensures a + (b + c) == (a + b) + c
  {
  }

  lemma VarText(leaf: Leaf)
    ensures VarLine(leaf) == "$var wire " + Print(leaf.width, 10) + " " + leaf.id + " " + Sanitize(leaf.name) + " $end"
  {
    hide Sanitize, Print;
    var (width, id, name) := (Print(leaf.width, 10), leaf.id, Sanitize(leaf.name));
    assert ["$var", "wire", width, id, name, "$end"][1..] == ["wire", width, id, name, "$end"];
    assert ["wire", width, id, name, "$end"][1..] == [width, id, name, "$end"];
    assert [width, id, name, "$end"][1..] == [id, name, "$end"];
    assert [id, name, "$end"][1..] == [name, "$end"];
    assert [name, "$end"][1..] == ["$end"];
    assert Unfields([name, "$end"]) == name + " " + "$end";
    assert Unfields([id, name, "$end"]) == id + " " + (name + " " + "$end");
    assert Unfields([width, id, name, "$end"]) == width + " " + (id + " " + (name + " " + "$end"));
    assert Unfields(["wire", width, id, name, "$end"]) == "wire" + " " + (width + " " + (id + " " + (name + " " + "$end")));
    assert VarLine(leaf) == "$var" + " " + ("wire" + " " + (width + " " + (id + " " + (name + " " + "$end"))));
    hide Unfields, VarLine;
    VarGroups(width, id, name);
  }

  lemma VarGroups(width: string, id: string, name: string)
    ensures "$var" + " " + ("wire" + " " + (width + " " + (id + " " + (name + " " + "$end"))))
            == "$var wire " + width + " " + id + " " + name + " $end"
  {
    assert "$var" + " " + "wire" + " " == "$var wire " && " " + "$end" == " $end";
    var rest := id + " " + (name + " $end");
    Regroup(name, " ", "$end");
    Regroup("$var" + " ", "wire", " ");
    Regroup("$var" + " ", "wire" + " ", width + " " + rest);
    Regroup("$var wire ", width + " ", rest);
    Regroup("$var wire ", width, " ");
    Regroup("$var wire " + width + " ", id + " ", name + " $end");
    Regroup("$var wire " + width + " ", id, " ");
    Regroup("$var wire " + width + " " + id + " ", name, " $end");
  }

  /** The scope tree and the identifiers, signal by signal. */
  method Plan(registry: seq<Signal>) returns (root: Scope, given: map<nat, string>)
    requires AllRegistered(registry)
    ensures root == Tree(registry, |registry|)
    ensures given == map i: nat | i < |registry| :: Identifier(i)
  {
    hide Identifier;
    root, given := Scope([], Empty), map[];
    for i := 0 to |registry|
      invariant root == Tree(registry, i) && given == map k: nat | k < i :: Identifier(k)
    {
      var identifier := EncodeIdentifier(i);
      given := given[i := identifier];
      root := Place(root, registry[i].path, |registry[i].initial|, identifier);
    }
  }

  lemma {:induction false} VarLinesSnoc(leaves: seq<Leaf>, leaf: Leaf)
    ensures VarLines(leaves + [leaf]) == VarLines(leaves) + [VarLine(leaf)]
  {
    hide VarLine;
    if leaves == [] {
      assert leaves + [leaf] == [leaf] && [leaf][1..] == [];
    } else {
      assert (leaves + [leaf])[1..] == leaves[1..] + [leaf];
      VarLinesSnoc(leaves[1..], leaf);
    }
  }

  /** The writer object: its output is text. */
  class VcdWriter {
    var output: string
    var identifiers: map<nat, string>
    var headerWritten: bool
    var currentTime: nat
    ghost var lines: seq<string>

    ghost predicate Valid()
      reads this
    {
      output == Join(lines)
    }

    ghost function View(): Writer
      reads this
    {
      Writer(lines, identifiers, headerWritten, currentTime)
    }

    constructor ()
      ensures Valid() && View() == FRESH
    {
      output, identifiers, headerWritten, currentTime, lines := "", map[], false, 0, [];
    }

    method WriteLine(line: string)
      requires Valid()
      modifies this`output, this`lines
      ensures Valid() && lines == old(lines) + [line]
    {
      output := output + (line + "\n");
      lines := lines + [line];
      JoinConcat(old(lines), [line]);
      assert [line][1..] == [];
    }

    /** A value, as a scalar or as a vector. */
    method WriteValue(identifier: string, value: Value)
      requires Valid()
      modifies this`output, this`lines
      ensures Valid() && lines == old(lines) + [ValueLine(identifier, value)]
    {
      hide Join;
      if |value| == 1 {
        WriteLine([LogicChar(value[0])] + identifier);
      } else {
        WriteLine("b" + Bits(value) + " " + identifier);
      }
    }

    /** A scope: its head, its variables, its children, its end. */
    method WriteScope(name: string, scope: Scope)
      requires Valid()
      modifies this`output, this`lines
      ensures Valid() && lines == old(lines) + ScopeLines(name, scope)
      decreases scope
    {
      hide Join, Sanitize, Print;
      var plain := SanitizeName(name);
      WriteLine("$scope module " + plain + " $end");
      ScopeText(name);
      ghost var head := lines;
      for i := 0 to |scope.signals|
        invariant Valid() && lines == head + VarLines(scope.signals[..i])
      {
        var leaf := scope.signals[i];
        var short := SanitizeName(leaf.name);
        WriteLine("$var wire " + Print(leaf.width, 10) + " " + leaf.id + " " + short + " $end");
        VarText(leaf);
        VarLinesSnoc(scope.signals[..i], leaf);
        assert scope.signals[..i + 1] == scope.signals[..i] + [leaf];
      }
      assert scope.signals[..|scope.signals|] == scope.signals;
      WriteForest(scope.children);
      WriteLine("$upscope $end");
    }

    method WriteForest(forest: Forest)
      requires Valid()
      modifies this`output, this`lines
      ensures Valid() && lines == old(lines) + ForestLines(forest)
      decreases forest
    {
      hide Join;
      match forest
      case Empty =>
      case Branch(name, scope, rest) =>
        WriteScope(name, scope);
        WriteForest(rest);
    }

    method WriteDump(registry: seq<Signal>, given: map<nat, string>)
      requires Valid() && given == map i: nat | i < |registry| :: Identifier(i)
      modifies this`output, this`lines
      ensures Valid() && lines == old(lines) + Dump(registry, |registry|)
    {
      hide Join, Identifier;
      for i := 0 to |registry|
        invariant Valid() && lines == old(lines) + Dump(registry, i)
      {
        WriteValue(given[i], registry[i].initial);
      }
    }

    /** The declarations and the initial values. */
    method WriteHeader(version: string, timescale: string, registry: seq<Signal>) returns (given: map<nat, string>)
      requires Valid() && AllRegistered(registry)
      modifies this`output, this`lines
      ensures Valid() && lines == old(lines) + Header(version, timescale, registry)
      ensures given == map i: nat | i < |registry| :: Identifier(i)
    {
      hide Tree, ScopeLines, Identifier, Dump, Join;
      WriteLine("$date deterministic simulation $end");
      WriteLine("$version Renvo Emulator " + version + " $end");
      WriteLine("$timescale " + timescale + " $end");
      assert lines == old(lines) + Banner(version, timescale);
      var root;
      root, given := Plan(registry);
      WriteScope("remu", root);
      WriteLine("$enddefinitions $end");
      assert lines == old(lines) + Definitions(version, timescale, registry);
      hide Definitions;
      WriteLine("#0");
      WriteLine("$dumpvars");
      WriteDump(registry, given);
      WriteLine("$end");
    }

    method Begin(version: string, timescale: string, registry: seq<Signal>) returns (error: Option<TraceError>)
      requires Valid() && AllRegistered(registry)
      modifies this
      ensures Valid() && (View(), error) == Open(old(View()), version, timescale, registry)
    {
      hide Header, Identifier, Join;
      if headerWritten {
        return Some(HeaderAlreadyWritten);
      }
      var given := WriteHeader(version, timescale, registry);
      identifiers := identifiers + given;
      headerWritten := true;
      error := None;
    }

    method EmitChange(change: Change) returns (error: Option<TraceError>)
      requires Valid()
      modifies this
      ensures Valid() && (View(), error) == Emit(old(View()), change)
    {
      if !headerWritten {
        return Some(HeaderNotWritten);
      }
      if change.signal !in identifiers {
        return Some(Undeclared(change.signal));
      }
      var identifier := identifiers[change.signal];
      if change.at < currentTime {
        return Some(TimeRegression(currentTime, change.at));
      }
      if change.at != currentTime {
        WriteLine("#" + Print(change.at, 10));
        currentTime := change.at;
      }
      assert old(lines) + [] == old(lines);
      WriteValue(identifier, change.value);
      error := None;
    }
  }

  // ---------------------------------------------------------------- what was written, as a history

  /** One scalar write: the signal's path, the time and the level. */
  type Scalar = (string, (nat, char))

  function ScalarOf(path: string, at: nat, value: Value): seq<Scalar> {
    if value == [Zero] then [(path, (at, '0'))]
    else if value == [One] then [(path, (at, '1'))]
    else if value == [HighZ] then [(path, (at, 'z'))]
    else if value == [Unknown] then [(path, (at, 'x'))]
    else []
  }

  /** The initial values of the first `n` signals. */
  function Initially(registry: seq<Signal>, n: nat): seq<Scalar>
    requires n <= |registry|
  {
    if n == 0 then []
    else Initially(registry, n - 1) + ScalarOf(FullPath(registry[n - 1].path), 0, registry[n - 1].initial)
  }

  /** The changes that are neither of undeclared signals nor out of order, stamped with their times. */
  function Accepted(registry: seq<Signal>, time: nat, changes: seq<Change>): seq<Scalar>
    decreases |changes|
  {
    if changes == [] then []
    else
      var c := changes[0];
      if c.signal >= |registry| || c.at < time then Accepted(registry, time, changes[1..])
      else ScalarOf(FullPath(registry[c.signal].path), c.at, c.value) + Accepted(registry, c.at, changes[1..])
  }

  function RecordAll(events: map<string, seq<(nat, char)>>, history: seq<Scalar>): map<string, seq<(nat, char)>>
    decreases |history|
  {
    if history == [] then events else RecordAll(Record(events, history[0].0, history[0].1), history[1..])
  }

  /** The events of one path, in order. */
  function Select(history: seq<Scalar>, path: string): seq<(nat, char)>
    decreases |history|
  {
    if history == [] then []
    else if history[0].0 == path then [history[0].1] + Select(history[1..], path)
    else Select(history[1..], path)
  }

  /** Recording a history gives every path its own events, in order, and no path an empty list. */
  lemma {:induction false} RecordSelects(events: map<string, seq<(nat, char)>>, history: seq<Scalar>, path: string)
    ensures var after := RecordAll(events, history);
            && (path in after <==> path in events || Select(history, path) != [])
            && (path in after ==>
                  after[path] == (if path in events then events[path] else []) + Select(history, path))
    decreases |history|
  {
    if history != [] {
      var next := Record(events, history[0].0, history[0].1);
      RecordSelects(next, history[1..], path);
      if history[0].0 == path {
        var before := if path in events then events[path] else [];
        assert before + [history[0].1] + Select(history[1..], path) == before + Select(history, path);
      }
    }
  }

  lemma {:induction false} RecordConcat(events: map<string, seq<(nat, char)>>, a: seq<Scalar>, b: seq<Scalar>)
    ensures RecordAll(events, a + b) == RecordAll(RecordAll(events, a), b)
    decreases |a|
  {
    hide Record;
    if a == [] {
      assert a + b == b;
    } else {
      assert (a + b)[1..] == a[1..] + b;
      RecordConcat(Record(events, a[0].0, a[0].1), a[1..], b);
    }
  }

  // ---------------------------------------------------------------- reading the values back

  /** Past the definitions, with this table. */
  ghost predicate Reading(registry: seq<Signal>, r: Reader) {
    !r.definitions && Table(registry, r.identifiers)
  }

  lemma ReadValue(registry: seq<Signal>, r: Reader, i: nat, value: Value)
    requires Reading(registry, r) && i < |registry|
    ensures ReadLine(r, ValueLine(Identifier(i), value))
            == Some(r.(events := RecordAll(r.events, ScalarOf(FullPath(registry[i].path), r.time, value))))
  {
    hide Identifier, FullPath, Record, Parse;
    var id := Identifier(i);
    var line := ValueLine(id, value);
    if |value| == 1 {
      assert line[0] == LogicChar(value[0]) && line[1..] == id;
      RecordOne(r.events, (FullPath(registry[i].path), (r.time, line[0])));
    } else {
      assert line[0] == 'b';
    }
  }

  lemma RecordOne(events: map<string, seq<(nat, char)>>, s: Scalar)
    ensures RecordAll(events, [s]) == Record(events, s.0, s.1)
  {
    var history := [s];
    assert |history[1..]| == 0;
  }

  lemma ReadTimeLine(r: Reader, at: nat)
    requires !r.definitions
    ensures ReadLine(r, TimeLine(at)) == Some(r.(time := at))
  {
    assert TimeLine(at)[1..] == Print(at, 10);
    ParsePrint(at, 10);
  }

  lemma {:induction false} ReadDump(registry: seq<Signal>, r: Reader, n: nat)
    requires Reading(registry, r) && r.time == 0 && n <= |registry|
    ensures ReadAll(r, Dump(registry, n)) == Some(r.(events := RecordAll(r.events, Initially(registry, n))))
  {
    hide ReadLine, ValueLine, Identifier, FullPath, ScalarOf, Record, Table;
    if n != 0 {
      ReadDump(registry, r, n - 1);
      var line := ValueLine(Identifier(n - 1), registry[n - 1].initial);
      var mid := r.(events := RecordAll(r.events, Initially(registry, n - 1)));
      ReadValue(registry, mid, n - 1, registry[n - 1].initial);
      ReadOne(mid, line);
      ReadConcat(r, Dump(registry, n - 1), [line]);
      RecordConcat(r.events, Initially(registry, n - 1),
                   ScalarOf(FullPath(registry[n - 1].path), 0, registry[n - 1].initial));
    }
  }

  /** The reader over the definitions: the table, and nothing else. */
  lemma ReadDefinitions(version: string, timescale: string, registry: seq<Signal>)
    requires AllRegistered(registry)
    ensures ReadAll(START, Definitions(version, timescale, registry))
            == Some(Reader([], Assign(map[], Paths(Tree(registry, |registry|), ["remu"])), map[], 0, false))
  {
    var tree := Tree(registry, |registry|);
    var entries := Paths(tree, ["remu"]);
    ReadBanner(version, timescale);
    TreePaths(registry, |registry|);
    ReadRoot(tree);
    hide ReadLine, ReadAll, ScopeLines, Paths, Assign, Tree, Banner;
    var banner, body := Banner(version, timescale), ScopeLines("remu", tree);
    ReadConcat(START, banner, body);
    ReadEnd(START.(identifiers := Assign(map[], entries)));
    ReadConcat(START, banner + body, [ENDDEFINITIONS]);
  }

  lemma ReadRoot(tree: Scope)
    requires Named(tree)
    ensures ReadAll(START, ScopeLines("remu", tree))
            == Some(START.(identifiers := Assign(map[], Paths(tree, ["remu"]))))
  {
    SanitizeRemu();
    hide ReadAll, ScopeLines, Paths, Assign, Named;
    ReadScope(START, "remu", tree);
    assert START.scopes + [Sanitize("remu")] == ["remu"];
  }

  lemma SanitizeRemu()
    ensures Sanitize("remu") == "remu"
  {
    var s := Sanitize("remu");
    assert s[0] == 'r' && s[1] == 'e' && s[2] == 'm' && s[3] == 'u';
  }

  lemma ReadEnd(r: Reader)
    requires r.definitions
    ensures ReadAll(r, [ENDDEFINITIONS]) == Some(r.(definitions := false))
  {
    assert ENDDEFINITIONS[1] == 'e' && UPSCOPE[1] == 'u' && "$scope module "[1] == 's' && "$var "[1] == 'v';
    ReadOne(r, ENDDEFINITIONS);
  }

  /** A line of the definitions that says nothing to the reader. */
  lemma ReadOther(r: Reader, line: string)
    requires r.definitions && |line| > 1 && line[1] !in "suve"
    ensures ReadAll(r, [line]) == Some(r)
  {
    assert UPSCOPE[1] == 'u' && "$scope module "[1] == 's' && "$var "[1] == 'v' && ENDDEFINITIONS[1] == 'e';
    ReadOne(r, line);
  }

  lemma ReadVersion(line: string, version: string)
    requires line == "$version Renvo Emulator " + version + " $end"
    ensures ReadAll(START, [line]) == Some(START)
  {
    assert line[1] == 'v' && line[2] == 'e' && "$var "[2] == 'a';
    assert UPSCOPE[1] == 'u' && "$scope module "[1] == 's' && ENDDEFINITIONS[1] == 'e';
    ReadOne(START, line);
  }

  lemma ReadBanner(version: string, timescale: string)
    ensures ReadAll(START, Banner(version, timescale)) == Some(START)
  {
    var lines := Banner(version, timescale);
    assert lines[0][1] == 'd' && lines[2][1] == 't';
    ReadOther(START, lines[0]);
    ReadOther(START, lines[2]);
    ReadVersion(lines[1], version);
    hide ReadLine, ReadAll;
    ReadConcat(START, [lines[0]], [lines[1]]);
    ReadConcat(START, [lines[0]] + [lines[1]], [lines[2]]);
    assert [lines[0]] + [lines[1]] + [lines[2]] == lines;
  }

  /** A line of the values that says nothing to the reader. */
  lemma ReadDirective(r: Reader, line: string)
    requires !r.definitions && line != "" && line[0] == '$'
    ensures ReadAll(r, [line]) == Some(r)
  {
    ReadOne(r, line);
  }

  lemma ReadHeader(version: string, timescale: string, registry: seq<Signal>)
    requires AllRegistered(registry)
    ensures var ids := Assign(map[], Paths(Tree(registry, |registry|), ["remu"]));
            && Table(registry, ids)
            && ReadAll(START, Header(version, timescale, registry))
               == Some(Reader([], ids, RecordAll(map[], Initially(registry, |registry|)), 0, false))
  {
    var ids := Assign(map[], Paths(Tree(registry, |registry|), ["remu"]));
    TableRead(registry);
    ReadDefinitions(version, timescale, registry);
    var defined := Reader([], ids, map[], 0, false);
    var dumped := defined.(events := RecordAll(map[], Initially(registry, |registry|)));
    ReadZero(defined);
    ReadDump(registry, defined, |registry|);
    ReadDirective(dumped, "$end");
    var head := Definitions(version, timescale, registry);
    var dump := Dump(registry, |registry|);
    hide Assign, Paths, Tree, Definitions, Dump, ReadLine, ReadAll, RecordAll, Initially, Table;
    ReadConcat(START, head, ["#0", "$dumpvars"]);
    ReadConcat(START, head + ["#0", "$dumpvars"], dump);
    ReadConcat(START, head + ["#0", "$dumpvars"] + dump, ["$end"]);
  }

  lemma ReadZero(r: Reader)
    requires !r.definitions && r.time == 0
    ensures ReadAll(r, ["#0", "$dumpvars"]) == Some(r)
  {
    assert "#0"[1..] == "0";
    assert Parse("0", 10) == 0 by {
      assert "0"[..0] == "";
    }
    ReadOne(r, "#0");
    ReadDirective(r, "$dumpvars");
    hide ReadLine, ReadAll, Parse;
    ReadConcat(r, ["#0"], ["$dumpvars"]);
    assert ["#0"] + ["$dumpvars"] == ["#0", "$dumpvars"];
  }

  /** The writer knows exactly the signals of the registry. */
  ghost predicate Knows(w: Writer, registry: seq<Signal>) {
    w.header && forall i: nat ::
      (i in w.identifiers <==> i < |registry|) && (i < |registry| ==> w.identifiers[i] == Identifier(i))
  }

  /** One change: the reader, having followed the writer so far, follows it further. */
  lemma ReadChange(registry: seq<Signal>, w: Writer, r: Reader, c: Change)
    requires Knows(w, registry) && Reading(registry, r) && r.time == w.time
    ensures var next := Emit(w, c).0;
            && Knows(next, registry)
            && w.lines <= next.lines
            && ReadAll(r, next.lines[|w.lines|..])
               == Some(r.(time := next.time, events := RecordAll(r.events, Accepted(registry, w.time, [c]))))
  {
    hide ReadLine, ValueLine, TimeLine, Identifier, FullPath, ScalarOf, Record, Table;
    var next := Emit(w, c).0;
    assert [c][1..] == [];
    if c.signal < |registry| && c.at >= w.time {
      var value := ValueLine(Identifier(c.signal), c.value);
      var timed := r.(time := c.at);
      ReadTimeLine(r, c.at);
      ReadOne(r, TimeLine(c.at));
      ReadValue(registry, timed, c.signal, c.value);
      ReadOne(timed, value);
      ReadConcat(r, [TimeLine(c.at)], [value]);
      var added := next.lines[|w.lines|..];
      assert added == if c.at != w.time then [TimeLine(c.at)] + [value] else [value];
      assert timed == r || c.at != w.time;
      AcceptedOne(registry, w.time, c);
    } else {
      assert next.lines[|w.lines|..] == [];
    }
  }

  lemma AcceptedOne(registry: seq<Signal>, time: nat, c: Change)
    requires c.signal < |registry| && c.at >= time
    ensures Accepted(registry, time, [c]) == ScalarOf(FullPath(registry[c.signal].path), c.at, c.value)
  {
    var changes := [c];
    assert |changes[1..]| == 0;
  }

  lemma AcceptedStep(registry: seq<Signal>, w: Writer, changes: seq<Change>)
    requires Knows(w, registry) && changes != []
    ensures Accepted(registry, w.time, changes)
            == Accepted(registry, w.time, [changes[0]]) + Accepted(registry, Emit(w, changes[0]).0.time, changes[1..])
  {
    var c := changes[0];
    assert [c][1..] == [];
    if c.signal < |registry| && c.at >= w.time {
      AcceptedOne(registry, w.time, c);
    }
  }

  lemma {:induction false} ReadChanges(registry: seq<Signal>, w: Writer, r: Reader, changes: seq<Change>)
    requires Knows(w, registry) && Reading(registry, r) && r.time == w.time
    ensures var last := EmitAll(w, changes);
            && w.lines <= last.lines
            && ReadAll(r, last.lines[|w.lines|..])
               == Some(r.(time := last.time, events := RecordAll(r.events, Accepted(registry, w.time, changes))))
    decreases |changes|
  {
    hide ReadLine, Emit, Knows, Table, Accepted, Record;
    if changes == [] {
      AcceptedNothing(registry, w.time);
      assert w.lines[|w.lines|..] == [];
    } else {
      var next := Emit(w, changes[0]).0;
      var last := EmitAll(w, changes);
      ReadChange(registry, w, r, changes[0]);
      var mid := ReadAll(r, next.lines[|w.lines|..]).value;
      ReadChanges(registry, next, mid, changes[1..]);
      AcceptedStep(registry, w, changes);
      RecordConcat(r.events, Accepted(registry, w.time, [changes[0]]), Accepted(registry, next.time, changes[1..]));
      ReadConcat(r, next.lines[|w.lines|..], last.lines[|next.lines|..]);
      assert last.lines[|w.lines|..] == next.lines[|w.lines|..] + last.lines[|next.lines|..];
    }
  }

  lemma AcceptedNothing(registry: seq<Signal>, time: nat)
    ensures Accepted(registry, time, []) == []
  {
  }

  // ---------------------------------------------------------------- the text splits into its lines

  ghost predicate AllLines(lines: seq<string>) {
    forall i :: 0 <= i < |lines| ==> Line(lines[i])
  }

  lemma {:induction false} UnfieldsLine(words: seq<string>)
    requires forall i :: 0 <= i < |words| ==> Word(words[i])
    ensures Line(Unfields(words))
  {
    if words != [] {
      UnfieldsLine(words[1..]);
    }
  }

  lemma ScopeLineLine(name: string)
    requires name != ""
    ensures Line(ScopeLine(name))
  {
    Keywords();
    hide Unfields;
    UnfieldsLine(["$scope", "module", Sanitize(name), "$end"]);
  }

  lemma {:induction false} VarLinesLine(leaves: seq<Leaf>)
    requires forall leaf :: leaf in leaves ==> leaf.name != "" && Word(leaf.id)
    ensures AllLines(VarLines(leaves))
  {
    if leaves != [] {
      VarLinesLine(leaves[1..]);
      Keywords();
      PrintWord(leaves[0].width, 10);
      hide Unfields, Word, Line, Sanitize, Print;
      UnfieldsLine(["$var", "wire", Print(leaves[0].width, 10), leaves[0].id, Sanitize(leaves[0].name), "$end"]);
    }
  }

  lemma {:induction false} ScopeLinesLine(name: string, scope: Scope)
    requires name != "" && Named(scope)
    ensures AllLines(ScopeLines(name, scope))
    decreases scope
  {
    assert Line(UPSCOPE);
    hide Line, ScopeLine, VarLines;
    ScopeLineLine(name);
    VarLinesLine(scope.signals);
    ForestLinesLine(scope.children);
  }

  lemma {:induction false} ForestLinesLine(forest: Forest)
    requires ForestNamed(forest)
    ensures AllLines(ForestLines(forest))
    decreases forest
  {
    hide Line, ScopeLines, Named;
    match forest
    case Empty =>
    case Branch(name, scope, rest) =>
      ScopeLinesLine(name, scope);
      ForestLinesLine(rest);
  }

  lemma {:induction false} BitsLine(value: seq<Logic>)
    ensures Line(Bits(value))
  {
    if value != [] {
      BitsLine(value[1..]);
    }
  }

  lemma ValueLineLine(id: string, value: Value)
    requires Word(id)
    ensures Line(ValueLine(id, value))
  {
    BitsLine(value);
  }

  lemma {:induction false} DumpLine(registry: seq<Signal>, n: nat)
    requires n <= |registry|
    ensures AllLines(Dump(registry, n))
  {
    hide Line, ValueLine, Identifier;
    if n != 0 {
      DumpLine(registry, n - 1);
      ValueLineLine(Identifier(n - 1), registry[n - 1].initial);
    }
  }

  lemma LiteralsLine()
    ensures Line("$date deterministic simulation $end")
    ensures Line("$version Renvo Emulator ") && Line("$timescale ") && Line(" $end")
  {
  }

  lemma BannerLine(version: string, timescale: string)
    requires Line(version) && Line(timescale)
    ensures AllLines(Banner(version, timescale))
  {
    LiteralsLine();
    LineBoth("$version Renvo Emulator ", version);
    LineBoth("$version Renvo Emulator " + version, " $end");
    LineBoth("$timescale ", timescale);
    LineBoth("$timescale " + timescale, " $end");
    hide Line;
  }

  lemma LineBoth(a: string, b: string)
    requires Line(a) && Line(b)
    ensures Line(a + b)
  {
  }

  lemma MarksLine()
    ensures AllLines([ENDDEFINITIONS]) && AllLines(["#0", "$dumpvars"]) && AllLines(["$end"])
  {
  }

  lemma BothLines(a: seq<string>, b: seq<string>)
    requires AllLines(a) && AllLines(b)
    ensures AllLines(a + b)
  {
  }

  lemma HeaderLine(version: string, timescale: string, registry: seq<Signal>)
    requires AllRegistered(registry) && Line(version) && Line(timescale)
    ensures AllLines(Header(version, timescale, registry))
  {
    BannerLine(version, timescale);
    MarksLine();
    TreePaths(registry, |registry|);
    hide Line, AllLines, Banner, ScopeLines, Tree, Dump, Paths;
    ScopeLinesLine("remu", Tree(registry, |registry|));
    DumpLine(registry, |registry|);
    var head := Definitions(version, timescale, registry);
    BothLines(Banner(version, timescale), ScopeLines("remu", Tree(registry, |registry|)));
    BothLines(Banner(version, timescale) + ScopeLines("remu", Tree(registry, |registry|)), [ENDDEFINITIONS]);
    BothLines(head, ["#0", "$dumpvars"]);
    BothLines(head + ["#0", "$dumpvars"], Dump(registry, |registry|));
    BothLines(head + ["#0", "$dumpvars"] + Dump(registry, |registry|), ["$end"]);
  }

  lemma {:induction false} EmitAllLine(registry: seq<Signal>, w: Writer, changes: seq<Change>)
    requires Knows(w, registry) && AllLines(w.lines)
    ensures AllLines(EmitAll(w, changes).lines)
    decreases |changes|
  {
    hide Line, ValueLine, TimeLine, Identifier;
    if changes != [] {
      var c := changes[0];
      if c.signal in w.identifiers {
        ValueLineLine(w.identifiers[c.signal], c.value);
        TimeLineLine(c.at);
      }
      EmitAllLine(registry, Emit(w, c).0, changes[1..]);
    }
  }

  lemma TimeLineLine(at: nat)
    ensures Line(TimeLine(at))
  {
  }

  // ---------------------------------------------------------------- the round trip

  /** Everything written, as scalars per path: the initial values, then the accepted changes. */
  function History(registry: seq<Signal>, changes: seq<Change>): seq<Scalar> {
    Initially(registry, |registry|) + Accepted(registry, 0, changes)
  }

  /** The trace of any run: what was declared, then the changes. */
  function Written(version: string, timescale: string, registry: seq<Signal>, changes: seq<Change>): Writer
    requires AllRegistered(registry)
  {
    EmitAll(Open(FRESH, version, timescale, registry).0, changes)
  }

  lemma WrittenLines(version: string, timescale: string, registry: seq<Signal>, changes: seq<Change>)
    requires AllRegistered(registry) && Line(version) && Line(timescale)
    ensures var w := Written(version, timescale, registry, changes);
            SplitLines(Join(w.lines)) == w.lines
  {
    HeaderKnown(version, timescale, registry);
    HeaderLine(version, timescale, registry);
    hide Header, Line, Open, EmitAll, Join, SplitLines, Knows;
    EmitAllLine(registry, Open(FRESH, version, timescale, registry).0, changes);
    SplitJoin(Written(version, timescale, registry, changes).lines);
  }

  lemma ReadOn(registry: seq<Signal>, w: Writer, r: Reader, earlier: seq<Scalar>, changes: seq<Change>)
    requires Knows(w, registry) && Reading(registry, r) && r.time == w.time
    requires ReadAll(START, w.lines) == Some(r) && r.events == RecordAll(map[], earlier)
    ensures var last := EmitAll(w, changes);
            ReadAll(START, last.lines)
            == Some(r.(time := last.time, events := RecordAll(map[], earlier + Accepted(registry, w.time, changes))))
  {
    hide *;
    ReadChanges(registry, w, r, changes);
    RecordConcat(map[], earlier, Accepted(registry, w.time, changes));
    var last := EmitAll(w, changes).lines;
    ReadConcat(START, w.lines, last[|w.lines|..]);
    assert last == w.lines + last[|w.lines|..];
  }

  lemma ReadWritten(version: string, timescale: string, registry: seq<Signal>, changes: seq<Change>)
    requires AllRegistered(registry)
    ensures var w := EmitAll(Open(FRESH, version, timescale, registry).0, changes);
            var ids := Assign(map[], Paths(Tree(registry, |registry|), ["remu"]));
            var history := Initially(registry, |registry|) + Accepted(registry, 0, changes);
            ReadAll(START, w.lines) == Some(Reader([], ids, RecordAll(map[], history), w.time, false))
  {
    HeaderKnown(version, timescale, registry);
    ReadHeader(version, timescale, registry);
    var w := Open(FRESH, version, timescale, registry).0;
    var r := ReadAll(START, w.lines).value;
    assert Reading(registry, r);
    hide *;
    ReadOn(registry, w, r, Initially(registry, |registry|), changes);
  }

  /** Whatever is declared and whatever changes are offered, the reader takes the text apart without
      failing, ends outside all scopes, and finds for each path exactly the scalar values accepted for
      it, in order, each with the time it was given. */
  lemma TraceRoundTrip(version: string, timescale: string, registry: seq<Signal>, changes: seq<Change>)
    requires AllRegistered(registry) && Line(version) && Line(timescale)
    ensures var w := Written(version, timescale, registry, changes);
            var r := ReadAll(START, SplitLines(Join(w.lines)));
            var history := History(registry, changes);
            && r.Some?
            && r.value.scopes == [] && !r.value.definitions && r.value.time == w.time
            && (forall path :: path in r.value.events <==> Select(history, path) != [])
            && (forall path :: path in r.value.events ==> r.value.events[path] == Select(history, path))
  {
    WrittenLines(version, timescale, registry, changes);
    ReadWritten(version, timescale, registry, changes);
    hide *;
    var history := History(registry, changes);
    forall path
      ensures var after := RecordAll(map[], history);
              (path in after <==> Select(history, path) != []) && (path in after ==> after[path] == Select(history, path))
    {
      RecordSelects(map[], history, path);
    }
  }

  lemma HeaderKnown(version: string, timescale: string, registry: seq<Signal>)
    requires AllRegistered(registry)
    ensures var w := Open(FRESH, version, timescale, registry).0;
            Knows(w, registry) && w.lines == Header(version, timescale, registry) && w.time == 0
  {
    hide Header, Identifier;
  }

  // ---------------------------------------------------------------- single changes

  lemma {:induction false} AcceptedSnoc(registry: seq<Signal>, w: Writer, changes: seq<Change>, c: Change)
    requires Knows(w, registry) && c.signal < |registry| && c.at >= EmitAll(w, changes).time
    ensures Accepted(registry, w.time, changes + [c])
            == Accepted(registry, w.time, changes) + ScalarOf(FullPath(registry[c.signal].path), c.at, c.value)
    decreases |changes|
  {
    hide ScalarOf, FullPath, Identifier, ValueLine, TimeLine;
    if changes == [] {
      assert changes + [c] == [c] && [c][1..] == [];
    } else {
      assert (changes + [c])[1..] == changes[1..] + [c];
      AcceptedSnoc(registry, Emit(w, changes[0]).0, changes[1..], c);
    }
  }

  lemma {:induction false} SelectSnoc(history: seq<Scalar>, last: Scalar)
    ensures Select(history + [last], last.0) == Select(history, last.0) + [last.1]
    decreases |history|
  {
    if history == [] {
      assert history + [last] == [last] && [last][1..] == [];
    } else {
      assert (history + [last])[1..] == history[1..] + [last];
      SelectSnoc(history[1..], last);
    }
  }

  /** After any run, one more one-bit change in time order: the last thing the reader finds for its signal
      is its time and its level, `1` exactly when it is one, `0` when zero, `z` when high-impedance and `x`
      when unknown. */
  lemma LastChangeRead(version: string, timescale: string, registry: seq<Signal>, changes: seq<Change>, c: Change)
    requires AllRegistered(registry) && Line(version) && Line(timescale)
    requires c.signal < |registry| && |c.value| == 1 && c.at >= Written(version, timescale, registry, changes).time
    ensures var r := ReadAll(START, SplitLines(Join(Written(version, timescale, registry, changes + [c]).lines)));
            var path := FullPath(registry[c.signal].path);
            && r.Some? && path in r.value.events && r.value.events[path] != []
            && var (at, level) := r.value.events[path][|r.value.events[path]| - 1];
               && at == c.at
               && (level == '1' <==> c.value == [One]) && (level == '0' <==> c.value == [Zero])
               && (level == 'z' <==> c.value == [HighZ]) && (level == 'x' <==> c.value == [Unknown])
  {
    var path := FullPath(registry[c.signal].path);
    TraceRoundTrip(version, timescale, registry, changes + [c]);
    HeaderKnown(version, timescale, registry);
    AcceptedSnoc(registry, Open(FRESH, version, timescale, registry).0, changes, c);
    OneLevel(path, c.at, c.value);
    hide *;
    HistorySnoc(registry, changes, c);
    SelectSnoc(History(registry, changes), ScalarOf(path, c.at, c.value)[0]);
  }

  lemma HistorySnoc(registry: seq<Signal>, changes: seq<Change>, c: Change)
    requires c.signal < |registry|
    requires var scalars := ScalarOf(FullPath(registry[c.signal].path), c.at, c.value);
             Accepted(registry, 0, changes + [c]) == Accepted(registry, 0, changes) + scalars
    ensures History(registry, changes + [c]) == History(registry, changes) + ScalarOf(FullPath(registry[c.signal].path), c.at, c.value)
  {
    hide Accepted, Initially, ScalarOf, FullPath;
    var scalars := ScalarOf(FullPath(registry[c.signal].path), c.at, c.value);
    var (initial, accepted) := (Initially(registry, |registry|), Accepted(registry, 0, changes));
    assert initial + (accepted + scalars) == (initial + accepted) + scalars;
  }

  lemma OneLevel(path: string, at: nat, value: Value)
    requires |value| == 1
    ensures var scalars := ScalarOf(path, at, value);
            && |scalars| == 1 && scalars == [(path, (at, scalars[0].1.1))]
            && var level := scalars[0].1.1;
               && (level == '1' <==> value == [One]) && (level == '0' <==> value == [Zero])
               && (level == 'z' <==> value == [HighZ]) && (level == 'x' <==> value == [Unknown])
  {
    var level := value[0];
    assert value == [level];
    assert level != Zero ==> value != [Zero];
    assert level != One ==> value != [One];
    assert level != HighZ ==> value != [HighZ];
    assert level != Unknown ==> value != [Unknown];
  }

  // ---------------------------------------------------------------- which paths are kept apart

  predicate Dotless(s: string) {
    '.' !in s
  }

  function DotAt(s: string): (k: nat)
    ensures k <= |s|
  {
    if s == "" || s[0] == '.' then 0 else 1 + DotAt(s[1..])
  }

  lemma {:induction false} DotAfter(a: string, rest: string)
    requires Dotless(a) && (rest == "" || rest[0] == '.')
    ensures DotAt(a + rest) == |a|
  {
    if a == "" {
      assert a + rest == rest;
    } else {
      assert (a + rest)[1..] == a[1..] + rest;
      assert (a + rest)[0] == a[0] && a[0] in a;
      DotAfter(a[1..], rest);
    }
  }

  lemma FirstPart(a: string, rest: string, b: string, tail: string)
    requires Dotless(a) && Dotless(b)
    requires rest == "" || rest[0] == '.'
    requires tail == "" || tail[0] == '.'
    requires a + rest == b + tail
    ensures a == b && rest == tail
  {
    DotAfter(a, rest);
    DotAfter(b, tail);
    assert a == (a + rest)[..|a|] && b == (b + tail)[..|a|];
    assert rest == (a + rest)[|a|..] && tail == (b + tail)[|a|..];
  }

  lemma {:induction false} DottedInjective(a: seq<string>, b: seq<string>)
    requires a != [] && b != []
    requires forall i :: 0 <= i < |a| ==> Dotless(a[i])
    requires forall i :: 0 <= i < |b| ==> Dotless(b[i])
    requires Dotted(a) == Dotted(b)
    ensures a == b
  {
    var rest := if |a| == 1 then "" else "." + Dotted(a[1..]);
    var tail := if |b| == 1 then "" else "." + Dotted(b[1..]);
    assert Dotted(a) == a[0] + rest && Dotted(b) == b[0] + tail;
    FirstPart(a[0], rest, b[0], tail);
    assert rest == "" <==> |a| == 1;
    assert tail == "" <==> |b| == 1;
    if |a| > 1 {
      assert rest[1..] == Dotted(a[1..]) && tail[1..] == Dotted(b[1..]);
      DottedInjective(a[1..], b[1..]);
      assert a == [a[0]] + a[1..] && b == [b[0]] + b[1..];
    } else {
      assert a == [a[0]] && b == [b[0]];
    }
  }

  lemma {:induction false} SanitizeAllDotless(names: seq<string>)
    ensures |SanitizeAll(names)| == |names|
    ensures forall i :: 0 <= i < |names| ==> SanitizeAll(names)[i] == Sanitize(names[i])
    ensures forall i :: 0 <= i < |names| ==> Dotless(SanitizeAll(names)[i])
  {
    if names != [] {
      SanitizeAllDotless(names[1..]);
      hide SanitizeAll;
      assert Dotless(Sanitize(names[0]));
    }
  }

  /** Two signals share an event list exactly when their components agree up to the characters that
      are replaced by underscores. */
  lemma PathsMergeIff(p: seq<string>, q: seq<string>)
    ensures FullPath(p) == FullPath(q) <==>
            |p| == |q| && forall i :: 0 <= i < |p| ==> Sanitize(p[i]) == Sanitize(q[i])
  {
    SanitizeAllDotless(p);
    SanitizeAllDotless(q);
    var a, b := ["remu"] + SanitizeAll(p), ["remu"] + SanitizeAll(q);
    assert Dotless("remu");
    hide SanitizeAll, Sanitize;
    if FullPath(p) == FullPath(q) {
      DottedInjective(a, b);
      forall i | 0 <= i < |p| ensures Sanitize(p[i]) == Sanitize(q[i]) {
        assert a[i + 1] == b[i + 1];
      }
    }
    if |p| == |q| && forall i :: 0 <= i < |p| ==> Sanitize(p[i]) == Sanitize(q[i]) {
      assert a == b;
    }
  }

  /** Two signals of different names, one event list. */
  lemma PathsMerge()
    ensures FullPath(["rx.0"]) == FullPath(["rx 0"])
  {
    PathsMergeIff(["rx.0"], ["rx 0"]);
    assert Sanitize("rx.0") == Sanitize("rx 0");
  }
}
