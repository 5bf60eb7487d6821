/** The driver audit: who owns which register word, and the proof, by counting, that an accepted driver
    touches registers only through audited calls, each backed by the register reference. */
module Audit {
  import Lines
  import Numbers
  import Registers
  import opened Options
  import opened Scanner

  datatype Access = ReadOnly | WriteOnly | ReadWrite

  function Granted(access: Access): set<Direction> {
    match access
    case ReadOnly => {Reading}
    case WriteOnly => {Writing}
    case ReadWrite => {Reading, Writing}
  }

  /** What an entry claims about its evidence. */
  datatype Tier = TraceCausal | EmulatorContract | PlatformContract

  /** A manifest entry: a register or a bounded region of them. Its notes are the remaining texts. */
  datatype Entry = Entry(symbol: string, address: nat, span: int, stride: int, access: Access,
                         domain: string, tier: Tier, lifecycle: seq<string>, notes: seq<string>)

  /** What the driver is held against: the header's addresses, the lifecycle's stages, the manifest's
      entries and the register reference. */
  datatype Contract = Contract(definitions: map<string, nat>, stages: set<string>, entries: seq<Entry>,
                               reference: seq<Registers.Register>)

  /** What a file is to the audit: the address header, the primitives' own file, or driver code. */
  datatype Role = Header | Primitives | Driver

  datatype File = File(role: Role, tokens: seq<Token>)

  // ---------------------------------------------------------------- the manifest

  predicate Sound(definitions: map<string, nat>, e: Entry) {
    && e.symbol in definitions && definitions[e.symbol] == e.address
    && e.address % 4 == 0
    && e.span >= 4 && e.span % 4 == 0
    && e.stride >= 4 && e.stride % 4 == 0
    && e.span % e.stride == 0
  }

  /** The text is more than blanks. */
  predicate Filled(text: string) {
    exists i :: 0 <= i < |text| && !Lines.IsSpace(text[i])
  }

  predicate Described(stages: set<string>, e: Entry) {
    && e.lifecycle != [] && (forall stage :: stage in e.lifecycle ==> stage in stages)
    && Filled(e.symbol) && Filled(e.domain)
    && forall i :: 0 <= i < |e.notes| ==> Filled(e.notes[i])
  }

  /** The entry owns the word at `word`. */
  predicate Owns(e: Entry, word: int)
    requires e.stride > 0
  {
    e.address <= word < e.address + e.span && (word - e.address) % e.stride == 0
  }

  /** Distinct symbols, those of the header and no others, each entry sound and described, and no word
      owned twice. */
  ghost predicate ManifestHolds(c: Contract) {
    var entries := c.entries;
    && (forall i, j :: 0 <= i < j < |entries| ==> entries[i].symbol != entries[j].symbol)
    && (forall symbol :: symbol in c.definitions <==> exists i :: 0 <= i < |entries| && entries[i].symbol == symbol)
    && (forall i :: 0 <= i < |entries| ==> Sound(c.definitions, entries[i]) && Described(c.stages, entries[i]))
    && (forall i, j, word :: 0 <= i < j < |entries| ==> !(Owns(entries[i], word) && Owns(entries[j], word)))
  }

  /** The words of one entry, taken one stride at a time; `None` when one is already owned. */
  method Occupy(e: Entry, occupied: map<int, string>) returns (after: Option<map<int, string>>)
    requires e.stride > 0
    ensures after.None? <==> exists word :: Owns(e, word) && word in occupied
    ensures after.Some? ==> forall word :: word in after.value <==> word in occupied || Owns(e, word)
  {
    var table := occupied;
    var offset := 0;
    while offset < e.span
      invariant 0 <= offset && offset % e.stride == 0
      invariant forall word :: word in table <==> word in occupied || (Owns(e, word) && word < e.address + offset)
      invariant forall word :: Owns(e, word) && word < e.address + offset ==> word !in occupied
      decreases e.span - offset
    {
      var word := e.address + offset;
      assert Owns(e, word);
      if word in table {
        return None;
      }
      table := table[word := e.symbol];
      NextWord(e, offset);
      offset := offset + e.stride;
    }
    after := Some(table);
  }

  /** Between one multiple of the stride and the next, an entry owns only the first word. */
  lemma NextWord(e: Entry, offset: int)
    requires e.stride > 0 && 0 <= offset < e.span && offset % e.stride == 0
    ensures (offset + e.stride) % e.stride == 0
    ensures forall word :: Owns(e, word) && e.address + offset <= word < e.address + offset + e.stride ==>
              word == e.address + offset
  {
    StrideStep(offset, e.stride);
    forall word | Owns(e, word) && e.address + offset <= word < e.address + offset + e.stride
      ensures word == e.address + offset
    {
      MultiplesApart(offset, word - e.address, e.stride);
    }
  }

  lemma StrideStep(offset: int, stride: int)
    requires stride > 0 && offset % stride == 0
    ensures (offset + stride) % stride == 0
  {
    var q := offset / stride;
    assert offset + stride == stride * (q + 1);
    MultipleOf(q + 1, stride);
  }

  lemma MultipleOf(q: int, stride: int)
    requires stride > 0
    ensures (stride * q) % stride == 0
  {
    Numbers.ModShift(0, q, stride);
    assert 0 + q * stride == stride * q;
  }

  lemma MultiplesApart(a: int, b: int, stride: int)
    requires stride > 0 && a % stride == 0 && b % stride == 0 && a <= b < a + stride
    ensures a == b
  {
    var p, q := a / stride, b / stride;
    assert a == stride * p && b == stride * q;
    Numbers.ProductGap(q - p, stride);
    assert b - a == (q - p) * stride;
  }

  /** The loop over the manifest. */
  method CheckManifest(c: Contract) returns (ok: bool)
    ensures ok <==> ManifestHolds(c)
  {
    var entries := c.entries;
    var symbols: set<string> := {};
    var k := 0;
    hide Sound, Described, Owns;
    while k < |entries|
      invariant 0 <= k <= |entries|
      invariant forall i, j :: 0 <= i < j < k ==> entries[i].symbol != entries[j].symbol
      invariant forall symbol :: symbol in symbols <==> exists i :: 0 <= i < k && entries[i].symbol == symbol
    {
      if entries[k].symbol in symbols {
        return false;
      }
      symbols := symbols + {entries[k].symbol};
      k := k + 1;
    }
    if symbols != c.definitions.Keys {
      assert !(forall symbol :: symbol in c.definitions <==> symbol in symbols);
      return false;
    }
    ok := CheckWords(c);
  }

  ghost predicate WordsHold(c: Contract, n: nat)
    requires n <= |c.entries|
  {
    && (forall i :: 0 <= i < n ==> Sound(c.definitions, c.entries[i]) && Described(c.stages, c.entries[i]))
    && (forall i, j, word :: 0 <= i < j < n ==> !(Owns(c.entries[i], word) && Owns(c.entries[j], word)))
  }

  /** Python's `strip`, as far as it says whether anything is left. */
  method HasText(text: string) returns (filled: bool)
    ensures filled <==> Filled(text)
  {
    for i := 0 to |text|
      invariant forall j :: 0 <= j < i ==> Lines.IsSpace(text[j])
    {
      var c := text[i];
      if !(c == ' ' || '\t' <= c <= '\r' || 0x1c as char <= c <= 0x1f as char || c == 0x85 as char || c == 0xa0 as char) {
        return true;
      }
    }
    filled := false;
  }

  /** The requirements on one entry, in the order in which they are checked. */
  method CheckEntry(definitions: map<string, nat>, stages: set<string>, e: Entry) returns (ok: bool)
    ensures ok <==> Sound(definitions, e) && Described(stages, e)
  {
    hide Filled;
    if e.symbol !in definitions || definitions[e.symbol] != e.address || e.address % 4 != 0
       || e.span < 4 || e.span % 4 != 0 || e.stride < 4 || e.stride % 4 != 0 || e.span % e.stride != 0
       || e.lifecycle == [] {
      return false;
    }
    for i := 0 to |e.lifecycle|
      invariant forall j :: 0 <= j < i ==> e.lifecycle[j] in stages
    {
      if e.lifecycle[i] !in stages {
        return false;
      }
    }
    var texts := [e.symbol, e.domain] + e.notes;
    for i := 0 to |texts|
      invariant forall j :: 0 <= j < i ==> Filled(texts[j])
    {
      var filled := HasText(texts[i]);
      if !filled {
        assert i < 2 || texts[i] == e.notes[i - 2];
        return false;
      }
    }
    assert Filled(texts[0]) && Filled(texts[1]);
    assert forall j :: 0 <= j < |e.notes| ==> e.notes[j] == texts[j + 2];
    ok := true;
  }

  method CheckWords(c: Contract) returns (ok: bool)
    ensures ok <==> WordsHold(c, |c.entries|)
  {
    var entries := c.entries;
    var occupied: map<int, string> := map[];
    var k := 0;
    hide Owns, Described;
    while k < |entries|
      invariant 0 <= k <= |entries|
      invariant WordsHold(c, k)
      invariant forall word :: word in occupied <==> exists i :: 0 <= i < k && Owns(entries[i], word)
    {
      var sound := CheckEntry(c.definitions, c.stages, entries[k]);
      if !sound {
        return false;
      }
      var after := Occupy(entries[k], occupied);
      if after.None? {
        return false;
      }
      occupied := after.value;
      k := k + 1;
    }
    ok := true;
  }

  // ---------------------------------------------------------------- the register reference

  const RADIO_DOMAINS: set<string> := {"radio-rf", "radio-mac", "radio-control"}

  /** The reference's entry for an address; of several, the last. */
  function ItemAt(reference: seq<Registers.Register>, address: int): (item: Option<Registers.Register>)
    ensures item.None? <==> forall r :: r in reference ==> r.address != address
    ensures item.Some? ==> item.value in reference && item.value.address == address
  {
    if reference == [] then None
    else
      var (front, last) := (reference[..|reference| - 1], reference[|reference| - 1]);
      assert reference == front + [last];
      if last.address == address then Some(last) else ItemAt(front, address)
  }

  /** The reference knows the word well enough for the tier claimed. */
  predicate Backed(tier: Tier, item: Option<Registers.Register>) {
    && item.Some?
    && item.value.implemented
    && item.value.confidence in {"high", "medium"}
    && (tier == TraceCausal ==> item.value.observed)
  }

  /** A radio entry has radio evidence for each of its words; any other rests on the platform. */
  ghost predicate Evident(reference: seq<Registers.Register>, e: Entry)
    requires e.stride > 0
  {
    if e.domain !in RADIO_DOMAINS then e.tier == PlatformContract
    else e.tier != PlatformContract && forall word :: Owns(e, word) ==> Backed(e.tier, ItemAt(reference, word))
  }

  method CheckEvidence(reference: seq<Registers.Register>, e: Entry) returns (ok: bool)
    requires e.stride > 0
    ensures ok <==> Evident(reference, e)
  {
    if e.domain != "radio-rf" && e.domain != "radio-mac" && e.domain != "radio-control" {
      return e.tier == PlatformContract;
    }
    if e.tier == PlatformContract {
      return false;
    }
    hide ItemAt;
    var offset := 0;
    while offset < e.span
      invariant 0 <= offset && offset % e.stride == 0
      invariant forall word :: Owns(e, word) && word < e.address + offset ==> Backed(e.tier, ItemAt(reference, word))
      decreases e.span - offset
    {
      var word := e.address + offset;
      assert Owns(e, word);
      var item := ItemAt(reference, word);
      if item.None? || !item.value.implemented || (item.value.confidence != "high" && item.value.confidence != "medium")
         || (e.tier == TraceCausal && !item.value.observed) {
        assert !Backed(e.tier, item);
        return false;
      }
      assert Backed(e.tier, item);
      NextWord(e, offset);
      offset := offset + e.stride;
    }
    ok := true;
  }

  ghost predicate ReferenceHolds(c: Contract)
    requires ManifestHolds(c)
  {
    forall i :: 0 <= i < |c.entries| ==> Sound(c.definitions, c.entries[i]) && Evident(c.reference, c.entries[i])
  }

  method CheckReference(c: Contract) returns (ok: bool)
    requires ManifestHolds(c)
    ensures ok <==> ReferenceHolds(c)
  {
    hide Owns, Evident, Described;
    for k := 0 to |c.entries|
      invariant forall i :: 0 <= i < k ==> Sound(c.definitions, c.entries[i]) && Evident(c.reference, c.entries[i])
    {
      assert Sound(c.definitions, c.entries[k]);
      var evident := CheckEvidence(c.reference, c.entries[k]);
      if !evident {
        return false;
      }
    }
    ok := true;
  }

  // ---------------------------------------------------------------- one call

  function Symbols(ts: seq<Token>): seq<string> {
    if ts == [] then []
    else Symbols(ts[..|ts| - 1]) + (if ts[|ts| - 1].Register? then [ts[|ts| - 1].symbol] else [])
  }

  /** The fixed offset of an argument that is a symbol, or a symbol plus a literal. */
  function DeclaredOffset(argument: seq<Token>, symbol: string): Option<nat> {
    if argument == [Register(symbol)] then Some(0)
    else if |argument| == 3 && argument[0] == Register(symbol) && argument[1].Plus? && argument[2].Number? then
      Some(argument[2].value)
    else None
  }

  function EntryOf(entries: seq<Entry>, symbol: string): (e: Option<Entry>)
    ensures e.Some? ==> e.value in entries && e.value.symbol == symbol
    ensures e.None? ==> forall i :: 0 <= i < |entries| ==> entries[i].symbol != symbol
  {
    if entries == [] then None
    else if entries[|entries| - 1].symbol == symbol then Some(entries[|entries| - 1])
    else EntryOf(entries[..|entries| - 1], symbol)
  }

  /** The symbol and offset a permitted call targets; `None` when the audit fails. */
  function Judge(entries: seq<Entry>, call: Call): Option<(string, nat)> {
    var roots := Symbols(call.argument);
    if roots == [] || exists i :: 0 <= i < |roots| && roots[i] != roots[0] then None
    else
      var entry := EntryOf(entries, roots[0]);
      if entry.None? || call.direction !in Granted(entry.value.access) then None
      else
        var offset := DeclaredOffset(call.argument, roots[0]);
        if offset.None? || entry.value.stride <= 0 then None
        else if offset.value >= entry.value.span || offset.value % entry.value.stride != 0 then None
        else Some((roots[0], offset.value))
  }

  /** The argument is the symbol alone, or the symbol plus a literal. */
  predicate Fixed(argument: seq<Token>, symbol: string, offset: nat) {
    || (argument == [Register(symbol)] && offset == 0)
    || (|argument| == 3 && argument[0] == Register(symbol) && argument[1].Plus? && argument[2].Number?
        && argument[2].value == offset)
  }

  lemma FixedSymbols(argument: seq<Token>, symbol: string, offset: nat)
    requires Fixed(argument, symbol, offset)
    ensures Symbols(argument) == [symbol]
  {
    if argument == [Register(symbol)] {
      assert argument[..0] == [];
    } else {
      var (two, one) := (argument[..2], argument[..1]);
      assert two[..1] == one && one[..0] == [];
      assert Symbols(one) == [symbol] && Symbols(two) == [symbol];
    }
  }

  /** A call is permitted exactly when its argument is the symbol of an entry, alone or with a literal offset,
      the entry owns the word at that offset, and the entry does not exclude the call's direction. */
  lemma JudgeIff(entries: seq<Entry>, call: Call, symbol: string, offset: nat)
    ensures Judge(entries, call) == Some((symbol, offset)) <==>
            && Fixed(call.argument, symbol, offset)
            && var entry := EntryOf(entries, symbol);
               && entry.Some? && entry.value.stride > 0
               && Owns(entry.value, entry.value.address + offset)
               && (entry.value.access.ReadOnly? ==> call.direction.Reading?)
               && (entry.value.access.WriteOnly? ==> call.direction.Writing?)
  {
    if Fixed(call.argument, symbol, offset) {
      FixedSymbols(call.argument, symbol, offset);
    }
    hide Symbols, EntryOf;
  }

  /** A permitted call targets a word that its entry owns, in a direction its entry grants, and its
      argument starts with the symbol and names no other. */
  lemma JudgeSound(entries: seq<Entry>, call: Call)
    requires Judge(entries, call).Some?
    ensures var (symbol, offset) := Judge(entries, call).value;
            var entry := EntryOf(entries, symbol);
            && entry.Some? && entry.value.symbol == symbol && entry.value.stride > 0
            && call.direction in Granted(entry.value.access)
            && Owns(entry.value, entry.value.address + offset)
            && call.argument != [] && call.argument[0] == Register(symbol)
            && forall k :: 0 < k < |call.argument| ==> !call.argument[k].Register?
  {
  }

  // ---------------------------------------------------------------- all files

  /** The calls of the driver files, in order; `None` when the scanner gives up. */
  function AllCalls(files: seq<File>): Option<seq<Call>> {
    if files == [] then Some([])
    else
      var last := files[|files| - 1];
      var before := AllCalls(files[..|files| - 1]);
      if last.role != Driver then before
      else Behind(if before.Some? then before.value else [], if before.None? then None else CallsFrom(last.tokens, 0))
  }

  /** Every register symbol outside the header. */
  function AllSymbols(files: seq<File>): seq<string> {
    if files == [] then []
    else
      var last := files[|files| - 1];
      AllSymbols(files[..|files| - 1]) + (if last.role == Header then [] else Symbols(last.tokens))
  }

  predicate Permitted(entries: seq<Entry>, calls: seq<Call>) {
    forall i :: 0 <= i < |calls| ==> Judge(entries, calls[i]).Some?
  }

  function Targets(entries: seq<Entry>, calls: seq<Call>): seq<string>
    requires Permitted(entries, calls)
  {
    if calls == [] then []
    else Targets(entries, calls[..|calls| - 1]) + [Judge(entries, calls[|calls| - 1]).value.0]
  }

  function Used(entries: seq<Entry>, calls: seq<Call>): set<(string, Direction)>
    requires Permitted(entries, calls)
  {
    set i | 0 <= i < |calls| :: (Judge(entries, calls[i]).value.0, calls[i].direction)
  }

  function Declared(entries: seq<Entry>): set<(string, Direction)> {
    set i, d | 0 <= i < |entries| && d in Granted(entries[i].access) :: (entries[i].symbol, d)
  }

  predicate Peripheral(value: nat) {
    0x6000_0000 <= value <= 0x600f_ffff || 0x2000_0000 <= value <= 0x200f_ffff
  }

  predicate NoRawAddress(file: File) {
    file.role != Header ==>
      forall i :: 0 <= i < |file.tokens| ==>
        !(file.tokens[i].Number? && file.tokens[i].hexadecimal && Peripheral(file.tokens[i].value))
  }

  /** The raw literals of one file. */
  method CheckLiterals(file: File) returns (clean: bool)
    ensures clean <==> NoRawAddress(file)
  {
    if file.role == Header {
      return true;
    }
    for i := 0 to |file.tokens|
      invariant forall j :: 0 <= j < i ==>
                  !(file.tokens[j].Number? && file.tokens[j].hexadecimal && Peripheral(file.tokens[j].value))
    {
      var token := file.tokens[i];
      if token.Number? && token.hexadecimal
         && (0x6000_0000 <= token.value <= 0x600f_ffff || 0x2000_0000 <= token.value <= 0x200f_ffff) {
        return false;
      }
    }
    clean := true;
  }

  /** What the audit accepts. */
  ghost predicate Accepts(c: Contract, files: seq<File>) {
    && ManifestHolds(c)
    && ReferenceHolds(c)
    && (forall i :: 0 <= i < |files| ==> NoRawAddress(files[i]))
    && AllCalls(files).Some?
    && var calls := AllCalls(files).value;
       && Permitted(c.entries, calls)
       && Used(c.entries, calls) == Declared(c.entries)
       && multiset(AllSymbols(files)) == multiset(Targets(c.entries, calls))
  }

  // ---------------------------------------------------------------- counting

  /** The register symbol at `q` is the start of a call's argument. */
  predicate Audited(ts: seq<Token>, q: nat) {
    q >= 2 && q < |ts| && IsCall(ts, q - 2)
  }

  /** How often `symbol` occurs among the first `n` tokens: as the target of a call, and elsewhere. */
  function Strays(ts: seq<Token>, symbol: string, n: nat): nat
    requires n <= |ts|
  {
    if n == 0 then 0
    else Strays(ts, symbol, n - 1) + if ts[n - 1] == Register(symbol) && !Audited(ts, n - 1) then 1 else 0
  }

  function Hits(ts: seq<Token>, symbol: string, n: nat): nat
    requires n <= |ts|
  {
    if n == 0 then 0
    else Hits(ts, symbol, n - 1) + if ts[n - 1] == Register(symbol) && Audited(ts, n - 1) then 1 else 0
  }

  lemma {:induction false} SymbolCount(ts: seq<Token>, symbol: string, n: nat)
    requires n <= |ts|
    ensures multiset(Symbols(ts[..n]))[symbol] == Hits(ts, symbol, n) + Strays(ts, symbol, n)
  {
    if n != 0 {
      SymbolCount(ts, symbol, n - 1);
      assert ts[..n][..n - 1] == ts[..n - 1];
    }
  }

  lemma {:induction false} TargetsConcat(entries: seq<Entry>, a: seq<Call>, b: seq<Call>)
    requires Permitted(entries, a + b)
    ensures Permitted(entries, a) && Permitted(entries, b)
    ensures Targets(entries, a + b) == Targets(entries, a) + Targets(entries, b)
  {
    hide Judge;
    assert forall i :: 0 <= i < |a| ==> (a + b)[i] == a[i];
    assert forall i :: 0 <= i < |b| ==> (a + b)[|a| + i] == b[i];
    if b == [] {
      assert a + b == a;
    } else {
      var n := |b| - 1;
      assert (a + b)[..|a + b| - 1] == a + b[..n];
      TargetsConcat(entries, a, b[..n]);
    }
  }

  function HitsBefore(ts: seq<Token>, symbol: string, p: nat): nat {
    Hits(ts, symbol, if p + 2 < |ts| then p + 2 else |ts|)
  }

  lemma HitsStep(ts: seq<Token>, symbol: string, p: nat)
    requires p < |ts|
    ensures HitsBefore(ts, symbol, p + 1)
            == HitsBefore(ts, symbol, p) + if p + 2 < |ts| && IsCall(ts, p) && ts[p + 2] == Register(symbol) then 1 else 0
  {
  }

  /** The first call of a list, and its symbol right after the parenthesis. */
  lemma TargetHead(entries: seq<Entry>, ts: seq<Token>, symbol: string, p: nat)
    requires p <= |ts| && IsCall(ts, p) && CallsFrom(ts, p).Some? && Permitted(entries, CallsFrom(ts, p).value)
    ensures p + 2 < |ts| && CallsFrom(ts, p + 2).Some? && Permitted(entries, CallsFrom(ts, p + 2).value)
    ensures multiset(Targets(entries, CallsFrom(ts, p).value))[symbol]
            == (if ts[p + 2] == Register(symbol) then 1 else 0)
               + multiset(Targets(entries, CallsFrom(ts, p + 2).value))[symbol]
  {
    var k := CutFrom(ts, p + 2, 1).value;
    var call := Call(ts[p].direction, ts[p + 2..k]);
    var rest := CallsFrom(ts, p + 2).value;
    assert CallsFrom(ts, p).value == [call] + rest;
    TargetsConcat(entries, [call], rest);
    assert ([call] + rest)[0] == call;
    JudgeSound(entries, call);
    hide Judge;
    var target := Judge(entries, call).value.0;
    assert ts[p + 2] == Register(target);
    assert [call][..0] == [];
    assert Targets(entries, [call]) == [target];
    assert multiset([target])[symbol] == if target == symbol then 1 else 0;
  }

  /** The target symbols of the calls from position `p` on, each at its place right after the call. */
  lemma {:induction false} TargetCount(entries: seq<Entry>, ts: seq<Token>, symbol: string, p: nat)
    requires p <= |ts| && CallsFrom(ts, p).Some? && Permitted(entries, CallsFrom(ts, p).value)
    ensures multiset(Targets(entries, CallsFrom(ts, p).value))[symbol] + HitsBefore(ts, symbol, p)
            == Hits(ts, symbol, |ts|)
    decreases |ts| - p
  {
    hide Judge, Targets, HitsBefore;
    if p == |ts| {
      NoTargets(entries);
      HitsAll(ts, symbol, p);
    } else if IsCall(ts, p) {
      TargetHead(entries, ts, symbol, p);
      HitsStep(ts, symbol, p);
      HitsStep(ts, symbol, p + 1);
      TargetCount(entries, ts, symbol, p + 2);
    } else {
      HitsStep(ts, symbol, p);
      TargetCount(entries, ts, symbol, p + 1);
    }
  }

  lemma NoTargets(entries: seq<Entry>)
    ensures Targets(entries, []) == []
  {
  }

  lemma HitsAll(ts: seq<Token>, symbol: string, p: nat)
    requires p >= |ts|
    ensures HitsBefore(ts, symbol, p) == Hits(ts, symbol, |ts|)
  {
  }

  lemma HitsNone(ts: seq<Token>, symbol: string)
    ensures HitsBefore(ts, symbol, 0) == 0
  {
    if |ts| >= 2 {
      assert Hits(ts, symbol, 1) == 0;
    } else if |ts| == 1 {
      assert Hits(ts, symbol, 1) == 0;
    }
  }

  /** The occurrences of a symbol in one file that are no call's target. */
  function Excess(file: File, symbol: string): nat {
    var n := |file.tokens|;
    match file.role
    case Header => 0
    case Primitives => Hits(file.tokens, symbol, n) + Strays(file.tokens, symbol, n)
    case Driver => Strays(file.tokens, symbol, n)
  }

  function TotalExcess(files: seq<File>, symbol: string): nat {
    if files == [] then 0 else TotalExcess(files[..|files| - 1], symbol) + Excess(files[|files| - 1], symbol)
  }

  lemma DriverCount(entries: seq<Entry>, file: File, symbol: string)
    requires file.role == Driver && CallsFrom(file.tokens, 0).Some?
    requires Permitted(entries, CallsFrom(file.tokens, 0).value)
    ensures multiset(Symbols(file.tokens))[symbol]
            == multiset(Targets(entries, CallsFrom(file.tokens, 0).value))[symbol] + Excess(file, symbol)
  {
    var ts := file.tokens;
    hide Judge, Targets, Hits, Strays, Symbols;
    TargetCount(entries, ts, symbol, 0);
    HitsNone(ts, symbol);
    SymbolCount(ts, symbol, |ts|);
    assert ts[..|ts|] == ts;
  }

  lemma OtherCount(file: File, symbol: string)
    requires file.role == Primitives
    ensures multiset(Symbols(file.tokens))[symbol] == Excess(file, symbol)
  {
    SymbolCount(file.tokens, symbol, |file.tokens|);
    assert file.tokens[..|file.tokens|] == file.tokens;
  }

  /** Occurrences are call targets and excess, file by file. */
  lemma {:induction false} FilesCount(entries: seq<Entry>, files: seq<File>, symbol: string)
    requires AllCalls(files).Some? && Permitted(entries, AllCalls(files).value)
    ensures multiset(AllSymbols(files))[symbol]
            == multiset(Targets(entries, AllCalls(files).value))[symbol] + TotalExcess(files, symbol)
  {
    hide Judge, Targets, Symbols, Excess;
    if files == [] {
      NoTargets(entries);
    } else {
      var last, front := files[|files| - 1], files[..|files| - 1];
      match last.role
      case Header =>
        FilesCount(entries, front, symbol);
        ExcessHeader(last, symbol);
      case Primitives =>
        FilesCount(entries, front, symbol);
        OtherCount(last, symbol);
      case Driver =>
        var before, own := AllCalls(front).value, CallsFrom(last.tokens, 0).value;
        TargetsConcat(entries, before, own);
        FilesCount(entries, front, symbol);
        DriverCount(entries, last, symbol);
    }
  }

  lemma ExcessHeader(file: File, symbol: string)
    requires file.role == Header
    ensures Excess(file, symbol) == 0
  {
  }

  lemma {:induction false} NoExcess(files: seq<File>, symbol: string, i: nat)
    requires i < |files| && TotalExcess(files, symbol) == 0
    ensures Excess(files[i], symbol) == 0
  {
    if i < |files| - 1 {
      NoExcess(files[..|files| - 1], symbol, i);
    }
  }

  lemma {:induction false} NoStray(ts: seq<Token>, symbol: string, n: nat, q: nat)
    requires q < n <= |ts| && Strays(ts, symbol, n) == 0 && ts[q] == Register(symbol)
    ensures Audited(ts, q)
  {
    if q < n - 1 {
      NoStray(ts, symbol, n - 1, q);
    }
  }

  lemma {:induction false} NoHit(ts: seq<Token>, symbol: string, n: nat, q: nat)
    requires q < n <= |ts| && Hits(ts, symbol, n) == 0 && ts[q] == Register(symbol)
    ensures !Audited(ts, q)
  {
    if q < n - 1 {
      NoHit(ts, symbol, n - 1, q);
    }
  }

  /** If the audit accepts, a register symbol occurs outside the header only in driver files, and there
      only as the start of the first argument of a call: the one call just before it. */
  lemma SymbolsAudited(c: Contract, files: seq<File>, i: nat, q: nat)
    requires Accepts(c, files)
    requires i < |files| && files[i].role != Header && q < |files[i].tokens| && files[i].tokens[q].Register?
    ensures files[i].role == Driver && Audited(files[i].tokens, q)
  {
    var ts := files[i].tokens;
    var symbol := ts[q].symbol;
    FilesCount(c.entries, files, symbol);
    NoExcess(files, symbol, i);
    hide Judge, Permitted, ManifestHolds, ReferenceHolds, IsCall, AllCalls, AllSymbols;
    NoStray(ts, symbol, |ts|, q);
    if files[i].role == Primitives {
      NoHit(ts, symbol, |ts|, q);
      assert false;
    }
  }

  // ---------------------------------------------------------------- what acceptance means

  /** If the audit accepts, every call targets a word owned by exactly one entry, which grants the
      call's direction. */
  lemma CallsOwned(c: Contract, files: seq<File>, i: nat) returns (k: nat, word: int)
    requires Accepts(c, files) && i < |AllCalls(files).value|
    ensures k < |c.entries| && c.entries[k].stride > 0 && Owns(c.entries[k], word)
    ensures forall j :: 0 <= j < |c.entries| && j != k ==> Sound(c.definitions, c.entries[j]) && !Owns(c.entries[j], word)
    ensures var call := AllCalls(files).value[i];
            && Judge(c.entries, call) == Some((c.entries[k].symbol, (word - c.entries[k].address) as nat))
            && call.direction in Granted(c.entries[k].access)
  {
    hide Judge, AllCalls, AllSymbols, Targets, Used, Declared, NoRawAddress, ManifestHolds, ReferenceHolds, Sound, Owns, EntryOf;
    var entries := c.entries;
    var call := AllCalls(files).value[i];
    assert Judge(entries, call).Some?;
    JudgeSound(entries, call);
    var (symbol, offset) := Judge(entries, call).value;
    var entry := EntryOf(entries, symbol).value;
    k :| 0 <= k < |entries| && entries[k] == entry;
    word := entry.address + offset;
    OwnedOnce(c, k, word);
  }

  lemma OwnedOnce(c: Contract, k: nat, word: int)
    requires ManifestHolds(c) && k < |c.entries| && c.entries[k].stride > 0 && Owns(c.entries[k], word)
    ensures forall j :: 0 <= j < |c.entries| && j != k ==> Sound(c.definitions, c.entries[j]) && !Owns(c.entries[j], word)
  {
    hide Described, Owns;
    var entries := c.entries;
    forall j | 0 <= j < |entries| && j != k ensures Sound(c.definitions, entries[j]) && !Owns(entries[j], word) {
      assert Sound(c.definitions, entries[j]);
    }
  }

  lemma EvidentOf(c: Contract, files: seq<File>, k: nat)
    requires Accepts(c, files) && k < |c.entries| && c.entries[k].stride > 0
    ensures Evident(c.reference, c.entries[k])
  {
    hide ManifestHolds, AllCalls, AllSymbols, Targets, Used, Declared, NoRawAddress, Evident, Permitted, Sound;
    assert Sound(c.definitions, c.entries[k]);
  }

  /** If the audit accepts against the reference generated from a trace, every call of a radio entry
      targets a modelled register, and one that the trace accessed when the entry claims causal evidence. */
  lemma CallsBacked(c: Contract, files: seq<File>, i: nat, tables: Registers.Tables, trace: seq<Registers.Record>)
    returns (k: nat, word: int)
    requires Accepts(c, files) && i < |AllCalls(files).value|
    requires Registers.Generate(tables, trace).Some? && c.reference == Registers.Generate(tables, trace).value.registers
    ensures k < |c.entries| && c.entries[k].stride > 0 && Owns(c.entries[k], word)
    ensures Judge(c.entries, AllCalls(files).value[i]) == Some((c.entries[k].symbol, (word - c.entries[k].address) as nat))
    ensures c.entries[k].domain in RADIO_DOMAINS ==>
              && (exists m :: 0 <= m < |tables.known| && Registers.Hex32(tables.known[m].0) == word)
              && (c.entries[k].tier == TraceCausal ==>
                    exists r :: r in trace && Registers.Kept(r) && Registers.Hex32(r.address) == word)
  {
    k, word := CallsOwned(c, files, i);
    EvidentOf(c, files, k);
    hide *;
    if c.entries[k].domain in RADIO_DOMAINS {
      BackedWord(c.reference, c.entries[k], word);
      Registers.ListedOrigin(tables, trace, ItemAt(c.reference, word).value);
    }
  }

  lemma BackedWord(reference: seq<Registers.Register>, e: Entry, word: int)
    requires e.stride > 0 && Evident(reference, e) && Owns(e, word) && e.domain in RADIO_DOMAINS
    ensures var item := ItemAt(reference, word);
            && item.Some? && item.value in reference && item.value.address == word && item.value.implemented
            && (e.tier == TraceCausal ==> item.value.observed)
  {
    hide Owns, ItemAt;
    assert Backed(e.tier, ItemAt(reference, word));
  }

  /** If the audit accepts, a call's argument names one entry, and the call reads only what is not
      write-only and writes only what is not read-only. */
  lemma AccessKept(c: Contract, files: seq<File>, i: nat, k: nat)
    requires Accepts(c, files) && i < |AllCalls(files).value| && k < |c.entries|
    requires var argument := AllCalls(files).value[i].argument;
             argument != [] && argument[0] == Register(c.entries[k].symbol)
    ensures AllCalls(files).value[i].direction.Reading? ==> !c.entries[k].access.WriteOnly?
    ensures AllCalls(files).value[i].direction.Writing? ==> !c.entries[k].access.ReadOnly?
  {
    JudgeSound(c.entries, AllCalls(files).value[i]);
    var j, word := CallsOwned(c, files, i);
    OneEntry(c, j, k);
    hide Accepts, AllCalls, Judge;
  }

  lemma OneEntry(c: Contract, j: nat, k: nat)
    requires ManifestHolds(c) && j < |c.entries| && k < |c.entries| && c.entries[j].symbol == c.entries[k].symbol
    ensures j == k
  {
    hide Sound, Described, Owns;
  }

  /** If the audit accepts, every entry that may be read is read, and every one that may be written is
      written, by some call whose argument starts with its symbol. */
  lemma AccessUsed(c: Contract, files: seq<File>, k: nat)
    requires Accepts(c, files) && k < |c.entries|
    ensures var calls := AllCalls(files).value;
            && (!c.entries[k].access.WriteOnly? ==>
                  exists i :: 0 <= i < |calls| && calls[i].direction.Reading? && Names(calls[i], c.entries[k].symbol))
            && (!c.entries[k].access.ReadOnly? ==>
                  exists i :: 0 <= i < |calls| && calls[i].direction.Writing? && Names(calls[i], c.entries[k].symbol))
  {
    if !c.entries[k].access.WriteOnly? {
      var i := DirectionsUsed(c, files, k, Reading);
      JudgeSound(c.entries, AllCalls(files).value[i]);
    }
    if !c.entries[k].access.ReadOnly? {
      var i := DirectionsUsed(c, files, k, Writing);
      JudgeSound(c.entries, AllCalls(files).value[i]);
    }
    hide Accepts, AllCalls, Judge;
  }

  /** The call's argument starts with the symbol. */
  predicate Names(call: Call, symbol: string) {
    call.argument != [] && call.argument[0] == Register(symbol)
  }

  /** If the audit accepts, every direction an entry declares is used by some call. */
  lemma DirectionsUsed(c: Contract, files: seq<File>, k: nat, d: Direction)
    returns (i: nat)
    requires Accepts(c, files) && k < |c.entries| && d in Granted(c.entries[k].access)
    ensures i < |AllCalls(files).value|
    ensures var call := AllCalls(files).value[i];
            call.direction == d && Judge(c.entries, call).Some? && Judge(c.entries, call).value.0 == c.entries[k].symbol
  {
    var entries := c.entries;
    var calls := AllCalls(files).value;
    hide Judge, AllCalls, AllSymbols, Targets, NoRawAddress, ManifestHolds, ReferenceHolds;
    assert (entries[k].symbol, d) in Declared(entries);
    i :| 0 <= i < |calls| && (Judge(entries, calls[i]).value.0, calls[i].direction) == (entries[k].symbol, d);
  }

  // ---------------------------------------------------------------- the audit's own loops

  /** The calls of one file: what they use is added to the running totals. */
  method CheckCalls(entries: seq<Entry>, calls: seq<Call>)
    returns (ok: bool, used: set<(string, Direction)>, uses: multiset<string>)
    ensures ok <==> Permitted(entries, calls)
    ensures ok ==> used == Used(entries, calls) && uses == multiset(Targets(entries, calls))
  {
    used, uses := {}, multiset{};
    hide Judge;
    for i := 0 to |calls|
      invariant Permitted(entries, calls[..i])
      invariant used == Used(entries, calls[..i])
      invariant uses == multiset(Targets(entries, calls[..i]))
    {
      var judged := Judge(entries, calls[i]);
      if judged.None? {
        assert !Permitted(entries, calls);
        return false, used, uses;
      }
      var front := calls[..i];
      assert calls[..i + 1] == front + [calls[i]];
      UsedSnoc(entries, front, calls[i]);
      TargetsSnoc(entries, front, calls[i]);
      used := used + {(judged.value.0, calls[i].direction)};
      uses := uses + multiset{judged.value.0};
    }
    assert calls[..|calls|] == calls;
    ok := true;
  }

  lemma UsedSnoc(entries: seq<Entry>, front: seq<Call>, call: Call)
    requires Permitted(entries, front) && Judge(entries, call).Some?
    ensures Permitted(entries, front + [call])
    ensures Used(entries, front + [call]) == Used(entries, front) + {(Judge(entries, call).value.0, call.direction)}
  {
    hide Judge;
    var all := front + [call];
    assert forall i :: 0 <= i < |front| ==> all[i] == front[i];
    assert all[|front|] == call;
    forall u | u in Used(entries, front) + {(Judge(entries, call).value.0, call.direction)} ensures u in Used(entries, all) {
      if u in Used(entries, front) {
        var i :| 0 <= i < |front| && u == (Judge(entries, front[i]).value.0, front[i].direction);
        assert u == (Judge(entries, all[i]).value.0, all[i].direction);
      } else {
        assert u == (Judge(entries, all[|front|]).value.0, all[|front|].direction);
      }
    }
    forall u | u in Used(entries, all) ensures u in Used(entries, front) + {(Judge(entries, call).value.0, call.direction)} {
      var i :| 0 <= i < |all| && u == (Judge(entries, all[i]).value.0, all[i].direction);
      if i < |front| {
        assert u == (Judge(entries, front[i]).value.0, front[i].direction);
      }
    }
  }

  lemma TargetsSnoc(entries: seq<Entry>, front: seq<Call>, call: Call)
    requires Permitted(entries, front) && Judge(entries, call).Some?
    ensures Permitted(entries, front + [call])
    ensures Targets(entries, front + [call]) == Targets(entries, front) + [Judge(entries, call).value.0]
  {
    hide Judge;
    assert (front + [call])[..|front|] == front;
  }

  /** The loop over the files: raw addresses, symbols and calls. */
  method CollectFiles(files: seq<File>) returns (calls: Option<seq<Call>>, symbols: multiset<string>, clean: bool)
    ensures calls == AllCalls(files)
    ensures symbols == multiset(AllSymbols(files))
    ensures clean <==> forall i :: 0 <= i < |files| ==> NoRawAddress(files[i])
  {
    calls, symbols, clean := Some([]), multiset{}, true;
    hide CallsFrom, Symbols, NoRawAddress;
    for k := 0 to |files|
      invariant calls == AllCalls(files[..k])
      invariant symbols == multiset(AllSymbols(files[..k]))
      invariant clean <==> forall i :: 0 <= i < k ==> NoRawAddress(files[i])
    {
      var file := files[k];
      assert files[..k + 1][..k] == files[..k];
      if file.role != Header {
        symbols := symbols + multiset(Symbols(file.tokens));
      }
      var own := CheckLiterals(file);
      clean := clean && own;
      if file.role == Driver {
        var found := MmioCalls(file.tokens);
        calls := Behind(if calls.Some? then calls.value else [], if calls.None? then None else found);
      }
    }
    assert files[..|files|] == files;
  }

  /** The whole audit: it passes exactly when the driver and its manifest are as `Accepts` says. */
  method AuditDriver(c: Contract, files: seq<File>) returns (ok: bool)
    ensures ok <==> Accepts(c, files)
  {
    hide ManifestHolds, ReferenceHolds, AllCalls, AllSymbols, Targets, Used, Declared, Permitted;
    ok := CheckManifest(c);
    if !ok {
      return;
    }
    ok := CheckReference(c);
    if !ok {
      return;
    }
    var calls, symbols, clean := CollectFiles(files);
    if !clean || calls.None? {
      return false;
    }
    var permitted, used, uses := CheckCalls(c.entries, calls.value);
    ok := permitted && used == Declared(c.entries) && symbols == uses;
  }
}
