/** The register reference: generated from a bus trace and the table of modelled registers, and the
    checks it must pass. */
module Registers {
  import opened Numbers
  import opened Options

  datatype Info = Info(name: string, meaning: string, confidence: string, mask: Option<nat>, reset: Option<nat>)

  datatype Kind = Read | Write | Neither

  /** A bus access; the program counter and the values around a write are there only when known. */
  datatype Record = Record(region: string, address: nat, kind: Kind, value: nat, at: nat,
                           pc: Option<nat>, pre: Option<nat>, post: Option<nat>)

  type Key = (string, nat)

  /** The generator's tables: region bases, the source behind each region, and what is known of each
      address. */
  datatype Tables = Tables(bases: seq<(string, nat)>, sources: map<string, string>, known: seq<(nat, Info)>)

  const UNKNOWN := "unknown; factual observed values only"
  const UART := "esp32c6.uart0"

  // ---------------------------------------------------------------- building the table

  function Find(known: seq<(nat, Info)>, address: nat): (info: Option<Info>)
    ensures info.Some? <==> exists i :: 0 <= i < |known| && known[i].0 == address
  {
    if known == [] then None
    else if known[0].0 == address then Some(known[0].1)
    else Find(known[1..], address)
  }

  function Either(a: Option<nat>, b: Option<nat>): Option<nat> {
    if a.Some? then a else b
  }

  function Merge(first: Info, later: Info): Info {
    first.(mask := Either(first.mask, later.mask), reset := Either(first.reset, later.reset))
  }

  /** Adds one modelled register: an address already known keeps its name and meaning, and takes only
      what it did not yet have. */
  function Modeled(known: map<nat, Info>, address: nat, info: Info): map<nat, Info> {
    known[address := if address in known then Merge(known[address], info) else info]
  }

  function ModelAll(known: map<nat, Info>, items: seq<(nat, Info)>): map<nat, Info>
    decreases |items|
  {
    if items == [] then known else ModelAll(Modeled(known, items[0].0, items[0].1), items[1..])
  }

  /** The entries for one address, in order. */
  function About(items: seq<(nat, Info)>, address: nat): seq<Info>
    decreases |items|
  {
    if items == [] then []
    else if items[0].0 == address then [items[0].1] + About(items[1..], address)
    else About(items[1..], address)
  }

  function FirstSome(values: seq<Option<nat>>): Option<nat> {
    if values == [] then None else Either(values[0], FirstSome(values[1..]))
  }

  function Masks(infos: seq<Info>): seq<Option<nat>> {
    if infos == [] then [] else [infos[0].mask] + Masks(infos[1..])
  }

  function Resets(infos: seq<Info>): seq<Option<nat>> {
    if infos == [] then [] else [infos[0].reset] + Resets(infos[1..])
  }

  /** Whatever is modelled, and how often: the first entry names the register, and mask and reset value
      are the first ones given. */
  lemma {:induction false} ModeledFirst(known: map<nat, Info>, items: seq<(nat, Info)>, address: nat)
    ensures var infos := (if address in known then [known[address]] else []) + About(items, address);
            var after := ModelAll(known, items);
            && (address in after <==> infos != [])
            && (address in after ==>
                  after[address] == infos[0].(mask := FirstSome(Masks(infos)), reset := FirstSome(Resets(infos))))
    decreases |items|
  {
    var before := if address in known then [known[address]] else [];
    if items == [] {
      if address in known {
        FirstOfOne(known[address]);
      }
      assert before + [] == before;
    } else {
      var (a, info) := items[0];
      ModeledFirst(Modeled(known, a, info), items[1..], address);
      var rest := About(items[1..], address);
      if a == address {
        if address in known {
          FirstOfMerge(known[address], info, rest);
          assert before + ([info] + rest) == [known[address], info] + rest;
        } else {
          assert before + ([info] + rest) == [info] + rest;
        }
      }
    }
  }

  lemma FirstOfOne(info: Info)
    ensures FirstSome(Masks([info])) == info.mask && FirstSome(Resets([info])) == info.reset
  {
    assert [info][1..] == [];
    assert [info.mask][1..] == [] && [info.reset][1..] == [];
  }

  lemma FirstOfMerge(a: Info, b: Info, rest: seq<Info>)
    ensures FirstSome(Masks([Merge(a, b)] + rest)) == FirstSome(Masks([a, b] + rest))
    ensures FirstSome(Resets([Merge(a, b)] + rest)) == FirstSome(Resets([a, b] + rest))
  {
    var merged, both := [Merge(a, b)] + rest, [a, b] + rest;
    assert merged[1..] == rest && both[1..] == [b] + rest && ([b] + rest)[1..] == rest;
    assert Masks(merged)[1..] == Masks(rest) && Masks(both)[1..] == Masks([b] + rest);
    assert Masks([b] + rest)[1..] == Masks(rest);
    assert Resets(merged)[1..] == Resets(rest) && Resets(both)[1..] == Resets([b] + rest);
    assert Resets([b] + rest)[1..] == Resets(rest);
  }

  // ---------------------------------------------------------------- regions

  /** The region whose base is the greatest not above the address. */
  function Best(bases: seq<(string, nat)>, address: nat): (r: Option<(string, nat)>)
    ensures r.None? <==> forall i :: 0 <= i < |bases| ==> bases[i].1 > address
    ensures r.Some? ==> r.value in bases && r.value.1 <= address
    ensures r.Some? ==> forall i :: 0 <= i < |bases| && bases[i].1 <= address ==> bases[i].1 <= r.value.1
  {
    if bases == [] then None
    else
      var last := bases[|bases| - 1];
      var best := Best(bases[..|bases| - 1], address);
      if last.1 <= address && (best.None? || best.value.1 < last.1) then Some(last) else best
  }

  function RegionFor(bases: seq<(string, nat)>, address: nat): Option<string> {
    var best := Best(bases, address);
    if best.None? then None else Some(best.value.0)
  }

  /** With distinct bases, an address belongs to a region exactly when it lies from that region's base up
      to the next base. */
  lemma RegionForIff(bases: seq<(string, nat)>, address: nat, k: nat)
    requires forall i, j :: 0 <= i < j < |bases| ==> bases[i].1 != bases[j].1 && bases[i].0 != bases[j].0
    requires k < |bases|
    ensures RegionFor(bases, address) == Some(bases[k].0) <==>
            bases[k].1 <= address && forall i :: 0 <= i < |bases| && bases[i].1 > bases[k].1 ==> address < bases[i].1
  {
    var best := Best(bases, address);
    if best.Some? {
      var i :| 0 <= i < |bases| && bases[i] == best.value;
    }
  }

  /** The base of a region, by name. */
  function BaseOf(bases: seq<(string, nat)>, region: string): (base: Option<nat>)
    ensures base.Some? <==> exists i :: 0 <= i < |bases| && bases[i].0 == region
  {
    if bases == [] then None
    else if bases[0].0 == region then Some(bases[0].1)
    else BaseOf(bases[1..], region)
  }

  // ---------------------------------------------------------------- the register list

  predicate Kept(record: Record) {
    record.region != UART
  }

  function KeyOf(record: Record): Key {
    (record.region, record.address)
  }

  /** The accesses grouped under a key. */
  function Accesses(trace: seq<Record>, key: Key): (rs: seq<Record>)
    ensures forall i :: 0 <= i < |rs| ==> Kept(rs[i]) && KeyOf(rs[i]) == key
  {
    if trace == [] then []
    else
      var last := trace[|trace| - 1];
      Accesses(trace[..|trace| - 1], key) + if Kept(last) && KeyOf(last) == key then [last] else []
  }

  lemma {:induction false} AccessesHold(trace: seq<Record>, key: Key)
    ensures forall r :: r in Accesses(trace, key) <==> r in trace && Kept(r) && KeyOf(r) == key
  {
    if trace != [] {
      AccessesHold(trace[..|trace| - 1], key);
      assert trace == trace[..|trace| - 1] + [trace[|trace| - 1]];
    }
  }

  /** Inserts by address, unless the key is there. */
  function InsertKey(keys: seq<Key>, key: Key): seq<Key> {
    if keys == [] then [key]
    else if keys[0] == key then keys
    else if key.1 < keys[0].1 then [key] + keys
    else [keys[0]] + InsertKey(keys[1..], key)
  }

  function TraceKeys(trace: seq<Record>): seq<Key> {
    if trace == [] then []
    else
      var last := trace[|trace| - 1];
      var before := TraceKeys(trace[..|trace| - 1]);
      if Kept(last) then InsertKey(before, KeyOf(last)) else before
  }

  /** Every known address lies in some region. */
  predicate Located(tables: Tables) {
    forall i :: 0 <= i < |tables.known| ==> RegionFor(tables.bases, tables.known[i].0).Some?
  }

  function KnownKey(tables: Tables, i: nat): Key
    requires i < |tables.known| && RegionFor(tables.bases, tables.known[i].0).Some?
  {
    (RegionFor(tables.bases, tables.known[i].0).value, tables.known[i].0)
  }

  function AllKeys(tables: Tables, trace: seq<Record>, n: nat): seq<Key>
    requires Located(tables) && n <= |tables.known|
  {
    if n == 0 then TraceKeys(trace) else InsertKey(AllKeys(tables, trace, n - 1), KnownKey(tables, n - 1))
  }

  ghost predicate Ordered(keys: seq<Key>) {
    && (forall i, j :: 0 <= i < j < |keys| ==> keys[i].1 <= keys[j].1)
    && (forall i, j :: 0 <= i < j < |keys| ==> keys[i] != keys[j])
  }

  lemma OrderedCons(key: Key, keys: seq<Key>)
    requires Ordered(keys) && forall k :: k in keys ==> key.1 <= k.1 && key != k
    ensures Ordered([key] + keys)
  {
    assert forall j :: 0 <= j < |keys| ==> keys[j] in keys;
  }

  lemma OrderedHead(keys: seq<Key>)
    requires Ordered(keys) && keys != []
    ensures Ordered(keys[1..]) && forall k :: k in keys[1..] ==> keys[0].1 <= k.1 && keys[0] != k
  {
  }

  lemma {:induction false} InsertKeyOrdered(keys: seq<Key>, key: Key)
    requires Ordered(keys)
    ensures Ordered(InsertKey(keys, key))
    ensures forall k :: k in InsertKey(keys, key) <==> k in keys || k == key
  {
    if keys == [] {
      assert Ordered([key]);
    } else if keys[0] != key {
      OrderedHead(keys);
      hide Ordered;
      assert keys == [keys[0]] + keys[1..];
      if key.1 < keys[0].1 {
        OrderedCons(key, keys);
      } else {
        InsertKeyOrdered(keys[1..], key);
        OrderedCons(keys[0], InsertKey(keys[1..], key));
      }
    }
  }

  lemma {:induction false} TraceKeysOrdered(trace: seq<Record>)
    ensures Ordered(TraceKeys(trace))
    ensures forall key :: key in TraceKeys(trace) <==> Accesses(trace, key) != []
  {
    if trace != [] {
      var last := trace[|trace| - 1];
      var front := trace[..|trace| - 1];
      TraceKeysOrdered(front);
      if Kept(last) {
        InsertKeyOrdered(TraceKeys(front), KeyOf(last));
      }
      hide Ordered;
      forall key ensures key in TraceKeys(trace) <==> Accesses(trace, key) != [] {
        assert key in TraceKeys(front) <==> Accesses(front, key) != [];
      }
    }
  }

  /** Why a key is listed: the trace accessed it, or the register is known. */
  ghost predicate Reason(tables: Tables, trace: seq<Record>, n: nat, key: Key)
    requires Located(tables) && n <= |tables.known|
  {
    Accesses(trace, key) != [] || exists i :: 0 <= i < n && key == KnownKey(tables, i)
  }

  /** The list is in address order, has no key twice, and holds exactly what was observed or is known. */
  lemma {:induction false} AllKeysOrdered(tables: Tables, trace: seq<Record>, n: nat)
    requires Located(tables) && n <= |tables.known|
    ensures Ordered(AllKeys(tables, trace, n))
    ensures forall key :: key in AllKeys(tables, trace, n) <==> Reason(tables, trace, n, key)
  {
    hide RegionFor, Accesses;
    if n == 0 {
      TraceKeysOrdered(trace);
    } else {
      AllKeysOrdered(tables, trace, n - 1);
      InsertKeyOrdered(AllKeys(tables, trace, n - 1), KnownKey(tables, n - 1));
      hide Ordered, AllKeys, KnownKey;
      ReasonNext(tables, trace, n);
      KeysNext(tables, trace, n);
    }
  }

  lemma KeysNext(tables: Tables, trace: seq<Record>, n: nat)
    requires Located(tables) && 0 < n <= |tables.known|
    ensures AllKeys(tables, trace, n) == InsertKey(AllKeys(tables, trace, n - 1), KnownKey(tables, n - 1))
  {
  }

  lemma ReasonNext(tables: Tables, trace: seq<Record>, n: nat)
    requires Located(tables) && 0 < n <= |tables.known|
    ensures forall key :: Reason(tables, trace, n, key) <==>
              Reason(tables, trace, n - 1, key) || key == KnownKey(tables, n - 1)
  {
    hide Accesses, RegionFor;
  }

  // ---------------------------------------------------------------- rows

  datatype Access = ReadWrite | ReadOnly | WriteOnly | NotObserved

  datatype Register = Register(
    address: nat,
    offset: nat,
    region: string,
    name: Option<string>,
    meaning: string,
    confidence: string,
    implemented: bool,
    observed: bool,
    source: Option<string>,
    evidence: seq<string>,
    mask: Option<nat>,
    reset: Option<nat>,
    access: Access,
    readCount: nat,
    writeCount: nat,
    readValues: seq<nat>,
    writeValues: seq<nat>,
    changedValues: seq<nat>,
    firstAt: Option<nat>,
    lastAt: Option<nat>,
    counters: seq<nat>)

  function OfKind(accesses: seq<Record>, kind: Kind): (rs: seq<Record>)
    ensures |rs| <= |accesses|
  {
    if accesses == [] then []
    else
      var last := accesses[|accesses| - 1];
      OfKind(accesses[..|accesses| - 1], kind) + if last.kind == kind then [last] else []
  }

  function InsertValue(values: seq<nat>, v: nat): seq<nat> {
    if values == [] then [v]
    else if values[0] == v then values
    else if v < values[0] then [v] + values
    else [values[0]] + InsertValue(values[1..], v)
  }

  /** The distinct values, in ascending order. */
  function Values(accesses: seq<Record>): seq<nat> {
    if accesses == [] then []
    else InsertValue(Values(accesses[..|accesses| - 1]), accesses[|accesses| - 1].value)
  }

  ghost predicate Ascending(values: seq<nat>) {
    forall i, j :: 0 <= i < j < |values| ==> values[i] < values[j]
  }

  lemma AscendingCons(v: nat, values: seq<nat>)
    requires Ascending(values) && forall w :: w in values ==> v < w
    ensures Ascending([v] + values)
  {
    assert forall j :: 0 <= j < |values| ==> values[j] in values;
  }

  lemma AscendingHead(values: seq<nat>)
    requires Ascending(values) && values != []
    ensures Ascending(values[1..]) && forall w :: w in values[1..] ==> values[0] < w
  {
  }

  lemma {:induction false} InsertValueAscending(values: seq<nat>, v: nat)
    requires Ascending(values)
    ensures Ascending(InsertValue(values, v))
    ensures forall w :: w in InsertValue(values, v) <==> w in values || w == v
  {
    if values == [] {
      assert Ascending([v]);
    } else if values[0] != v {
      AscendingHead(values);
      hide Ascending;
      assert values == [values[0]] + values[1..];
      if v < values[0] {
        AscendingCons(v, values);
      } else {
        InsertValueAscending(values[1..], v);
        AscendingCons(values[0], InsertValue(values[1..], v));
      }
    }
  }

  /** The value list: ascending, without repetition, exactly the values seen. */
  lemma {:induction false} ValuesExact(accesses: seq<Record>)
    ensures Ascending(Values(accesses))
    ensures forall v :: v in Values(accesses) <==> exists i :: 0 <= i < |accesses| && accesses[i].value == v
  {
    if accesses != [] {
      var n := |accesses| - 1;
      ValuesExact(accesses[..n]);
      InsertValueAscending(Values(accesses[..n]), accesses[n].value);
      hide Ascending, InsertValue;
      forall v ensures v in Values(accesses) <==> exists i :: 0 <= i < |accesses| && accesses[i].value == v {
        if i :| 0 <= i < |accesses| && accesses[i].value == v {
          assert i < n ==> accesses[..n][i].value == v;
        }
        if v in Values(accesses[..n]) {
          var i :| 0 <= i < n && accesses[..n][i].value == v;
          assert accesses[i].value == v;
        }
      }
    }
  }

  function Source(tables: Tables, region: string): Option<string> {
    if region in tables.sources then Some(tables.sources[region]) else None
  }

  function FirstAt(accesses: seq<Record>): Option<nat> {
    if accesses == [] then None
    else
      var (before, at) := (FirstAt(accesses[..|accesses| - 1]), accesses[|accesses| - 1].at);
      if before.Some? && before.value <= at then before else Some(at)
  }

  function LastAt(accesses: seq<Record>): Option<nat> {
    if accesses == [] then None
    else
      var (before, at) := (LastAt(accesses[..|accesses| - 1]), accesses[|accesses| - 1].at);
      if before.Some? && before.value >= at then before else Some(at)
  }

  /** The earliest and the latest access of a register, in whatever order the trace lists them. */
  lemma {:induction false} TimesExact(accesses: seq<Record>)
    ensures var (first, last) := (FirstAt(accesses), LastAt(accesses));
            && (first.None? <==> accesses == []) && (last.None? <==> accesses == [])
            && (first.Some? ==> (exists r :: r in accesses && r.at == first.value)
                                && forall r :: r in accesses ==> first.value <= r.at)
            && (last.Some? ==> (exists r :: r in accesses && r.at == last.value)
                               && forall r :: r in accesses ==> r.at <= last.value)
  {
    if accesses != [] {
      var n := |accesses| - 1;
      TimesExact(accesses[..n]);
      assert accesses == accesses[..n] + [accesses[n]];
      assert accesses[n] in accesses;
    }
  }

  const TRACED := "pinned-oracle-bus-trace"
  const MODELED := "renvo-functional-model"

  /** How the reference writes a number: its low 32 bits. */
  function Hex32(n: int): (h: nat)
    ensures h < MODULUS && (0 <= n < MODULUS ==> h == n)
  {
    n % MODULUS
  }

  function Hex32All(values: seq<nat>): (h: seq<nat>)
    ensures |h| == |values| && forall i :: 0 <= i < |values| ==> h[i] == Hex32(values[i])
  {
    seq(|values|, i requires 0 <= i < |values| => Hex32(values[i]))
  }

  function Hex32Maybe(value: Option<nat>): Option<nat> {
    if value.Some? then Some(Hex32(value.value)) else None
  }

  /** The write changed what it was seen to write over. */
  predicate Changes(r: Record) {
    r.kind == Write && r.pre != r.post
  }

  /** The values after the changing writes, distinct and ascending. */
  function ChangedValues(accesses: seq<Record>): seq<nat> {
    if accesses == [] then []
    else
      var (before, last) := (ChangedValues(accesses[..|accesses| - 1]), accesses[|accesses| - 1]);
      if Changes(last) && last.post.Some? then InsertValue(before, last.post.value) else before
  }

  /** The program counters as they are written, distinct and ascending. */
  function Counters(accesses: seq<Record>): seq<nat> {
    if accesses == [] then []
    else
      var (before, last) := (Counters(accesses[..|accesses| - 1]), accesses[|accesses| - 1]);
      if last.pc.Some? then InsertValue(before, Hex32(last.pc.value)) else before
  }

  /** What the generator looks up and may not find: the region's base, each access's program counter, and
      the value after each changing write. */
  predicate Complete(tables: Tables, accesses: seq<Record>, key: Key) {
    && BaseOf(tables.bases, key.0).Some?
    && forall i :: 0 <= i < |accesses| ==> accesses[i].pc.Some? && (Changes(accesses[i]) ==> accesses[i].post.Some?)
  }

  /** One entry of the reference, from the accesses grouped under its key. */
  function RowFrom(tables: Tables, accesses: seq<Record>, key: Key): Register {
    var loads, stores := OfKind(accesses, Read), OfKind(accesses, Write);
    var (info, base) := (Find(tables.known, key.1), BaseOf(tables.bases, key.0));
    Register(
      Hex32(key.1), Hex32(key.1 - if base.Some? then base.value else 0), key.0,
      if info.Some? then Some(info.value.name) else None,
      if info.Some? then info.value.meaning else UNKNOWN,
      if info.Some? then info.value.confidence else "observed-only",
      info.Some?,
      accesses != [],
      if info.Some? then Source(tables, key.0) else None,
      (if accesses != [] then [TRACED] else []) + (if info.Some? then [MODELED] else []),
      if info.Some? then Hex32Maybe(info.value.mask) else None,
      if info.Some? then Hex32Maybe(info.value.reset) else None,
      if loads != [] && stores != [] then ReadWrite
      else if loads != [] then ReadOnly
      else if stores != [] then WriteOnly
      else NotObserved,
      |loads|, |stores|, Hex32All(Values(loads)), Hex32All(Values(stores)), Hex32All(ChangedValues(accesses)),
      FirstAt(accesses), LastAt(accesses), Counters(accesses))
  }

  function Row(tables: Tables, trace: seq<Record>, key: Key): Register {
    RowFrom(tables, Accesses(trace, key), key)
  }

  function Rows(tables: Tables, trace: seq<Record>, keys: seq<Key>): (rows: seq<Register>)
    ensures |rows| == |keys|
  {
    if keys == [] then [] else Rows(tables, trace, keys[..|keys| - 1]) + [Row(tables, trace, keys[|keys| - 1])]
  }

  lemma {:induction false} RowsAt(tables: Tables, trace: seq<Record>, keys: seq<Key>)
    ensures forall i :: 0 <= i < |keys| ==> Rows(tables, trace, keys)[i] == Row(tables, trace, keys[i])
  {
    hide Row;
    if keys != [] {
      var n := |keys| - 1;
      RowsAt(tables, trace, keys[..n]);
      assert Rows(tables, trace, keys)[..n] == Rows(tables, trace, keys[..n]);
    }
  }

  datatype Statistics = Statistics(records: nat, registers: nat, observed: nat, implemented: nat, implementedOnly: nat,
                                   regions: nat, values: nat, unknown: nat)

  datatype Reference = Reference(registers: seq<Register>, statistics: Statistics)

  /** What the statistics count. */
  datatype Feature = Observed | Implemented | ImplementedOnly | Unnamed

  predicate Shows(r: Register, feature: Feature) {
    match feature
    case Observed => r.observed
    case Implemented => r.implemented
    case ImplementedOnly => r.implemented && !r.observed
    case Unnamed => r.name.None?
  }

  function CountWhere(rows: seq<Register>, feature: Feature): nat {
    if rows == [] then 0
    else CountWhere(rows[..|rows| - 1], feature) + if Shows(rows[|rows| - 1], feature) then 1 else 0
  }

  function KeptCount(trace: seq<Record>): nat {
    if trace == [] then 0
    else KeptCount(trace[..|trace| - 1]) + if Kept(trace[|trace| - 1]) then 1 else 0
  }


  /** How many accesses were grouped under the keys. */
  function Grouped(trace: seq<Record>, keys: seq<Key>): nat {
    if keys == [] then 0
    else Grouped(trace, keys[..|keys| - 1]) + |Accesses(trace, keys[|keys| - 1])|
  }

  function RegionsOf(rows: seq<Register>): set<string> {
    set i | 0 <= i < |rows| :: rows[i].region
  }

  function CountValues(rows: seq<Register>): nat {
    if rows == [] then 0
    else CountValues(rows[..|rows| - 1]) + |rows[|rows| - 1].readValues| + |rows[|rows| - 1].writeValues|
  }

  function Summary(rows: seq<Register>, records: nat): Reference {
    Reference(rows, Statistics(records, |rows|, CountWhere(rows, Observed), CountWhere(rows, Implemented),
                               CountWhere(rows, ImplementedOnly), |RegionsOf(rows)|, CountValues(rows), CountWhere(rows, Unnamed)))
  }

  /** The reference, when every lookup succeeds. */
  function Compose(tables: Tables, trace: seq<Record>): Reference
    requires Located(tables)
  {
    var keys := AllKeys(tables, trace, |tables.known|);
    Summary(Rows(tables, trace, keys), Grouped(trace, keys))
  }

  predicate AllComplete(tables: Tables, trace: seq<Record>, keys: seq<Key>) {
    forall i :: 0 <= i < |keys| ==> Complete(tables, Accesses(trace, keys[i]), keys[i])
  }

  /** The generator; `None` when a lookup fails. */
  function Generate(tables: Tables, trace: seq<Record>): Option<Reference> {
    if Located(tables) && AllComplete(tables, trace, AllKeys(tables, trace, |tables.known|)) then Some(Compose(tables, trace))
    else None
  }

  // ---------------------------------------------------------------- nothing lost

  lemma {:induction false} GroupedSnoc(trace: seq<Record>, last: Record, keys: seq<Key>)
    requires forall i, j :: 0 <= i < j < |keys| ==> keys[i] != keys[j]
    ensures Grouped(trace + [last], keys)
            == Grouped(trace, keys) + if Kept(last) && KeyOf(last) in keys then 1 else 0
  {
    assert (trace + [last])[..|trace|] == trace;
    if keys != [] {
      var n := |keys| - 1;
      GroupedSnoc(trace, last, keys[..n]);
      assert keys == keys[..n] + [keys[n]];
    }
  }

  /** Every kept record is counted under exactly one key. */
  lemma {:induction false} GroupedAll(trace: seq<Record>, keys: seq<Key>)
    requires forall i, j :: 0 <= i < j < |keys| ==> keys[i] != keys[j]
    requires forall key :: Accesses(trace, key) != [] ==> key in keys
    ensures Grouped(trace, keys) == KeptCount(trace)
  {
    if trace == [] {
      GroupedNothing(keys);
    } else {
      var front, last := trace[..|trace| - 1], trace[|trace| - 1];
      assert trace == front + [last];
      forall key | Accesses(front, key) != [] ensures key in keys {
        assert Accesses(trace, key) != [];
      }
      GroupedAll(front, keys);
      if Kept(last) {
        assert Accesses(trace, KeyOf(last)) != [];
      }
      GroupedSnoc(front, last, keys);
    }
  }

  lemma {:induction false} GroupedNothing(keys: seq<Key>)
    ensures Grouped([], keys) == 0
  {
    if keys != [] {
      GroupedNothing(keys[..|keys| - 1]);
    }
  }

  lemma ComposedRecords(tables: Tables, trace: seq<Record>)
    requires Located(tables)
    ensures Compose(tables, trace).statistics.records == KeptCount(trace)
  {
    var keys := AllKeys(tables, trace, |tables.known|);
    AllKeysOrdered(tables, trace, |tables.known|);
    hide AllKeys, Grouped, Accesses, Located;
    forall key | Accesses(trace, key) != [] ensures key in keys {
      assert Reason(tables, trace, |tables.known|, key);
    }
    GroupedAll(trace, keys);
  }

  function TotalCounts(rows: seq<Register>): nat {
    if rows == [] then 0
    else TotalCounts(rows[..|rows| - 1]) + rows[|rows| - 1].readCount + rows[|rows| - 1].writeCount
  }

  /** Every record kept is a read or a write. */
  ghost predicate AllAccesses(trace: seq<Record>) {
    forall r :: r in trace && Kept(r) ==> r.kind != Neither
  }

  lemma {:induction false} KindsAdd(accesses: seq<Record>)
    requires forall i :: 0 <= i < |accesses| ==> accesses[i].kind != Neither
    ensures |OfKind(accesses, Read)| + |OfKind(accesses, Write)| == |accesses|
  {
    if accesses != [] {
      KindsAdd(accesses[..|accesses| - 1]);
    }
  }

  lemma {:induction false} CountsGrouped(tables: Tables, trace: seq<Record>, keys: seq<Key>)
    requires AllAccesses(trace)
    ensures TotalCounts(Rows(tables, trace, keys)) == Grouped(trace, keys)
  {
    hide Accesses, OfKind, Values, Find, RegionFor;
    if keys != [] {
      var n := |keys| - 1;
      CountsGrouped(tables, trace, keys[..n]);
      AccessesHold(trace, keys[n]);
      forall i | 0 <= i < |Accesses(trace, keys[n])| ensures Accesses(trace, keys[n])[i].kind != Neither {
        assert Accesses(trace, keys[n])[i] in Accesses(trace, keys[n]);
      }
      KindsAdd(Accesses(trace, keys[n]));
      RowCounts(tables, trace, keys[n]);
      hide Row;
      assert Rows(tables, trace, keys)[..n] == Rows(tables, trace, keys[..n]);
    }
  }

  lemma RowCounts(tables: Tables, trace: seq<Record>, key: Key)
    ensures var row := Row(tables, trace, key);
            && row.readCount == |OfKind(Accesses(trace, key), Read)|
            && row.writeCount == |OfKind(Accesses(trace, key), Write)|
  {
    hide Accesses, OfKind, Values, Find;
  }

  lemma ComposedCounts(tables: Tables, trace: seq<Record>)
    requires Located(tables) && AllAccesses(trace)
    ensures TotalCounts(Compose(tables, trace).registers) == KeptCount(trace)
  {
    var keys := AllKeys(tables, trace, |tables.known|);
    ComposedRecords(tables, trace);
    hide AllAccesses, Located, KeptCount, TotalCounts, Grouped, Rows, AllKeys, CountWhere;
    CountsGrouped(tables, trace, keys);
  }

  // ---------------------------------------------------------------- the checks

  ghost predicate EntryChecks(r: Register) {
    && (r.observed || r.implemented)
    && (r.implemented ==> r.name.Some? && r.name.value != "" && r.meaning != UNKNOWN)
    && (r.implemented ==> r.source.Some? && r.source.value != "")
    && (!r.implemented ==> r.source.None?)
    && (!r.implemented ==> r.observed)
    && (r.observed ==> r.readCount + r.writeCount > 0)
    && (!r.observed ==> r.access == NotObserved)
  }

  /** The structural and statistical requirements on a reference. */
  ghost predicate Checks(reference: Reference) {
    var rows, stats := reference.registers, reference.statistics;
    && Ascends(rows) && NoDuplicates(rows)
    && (forall i :: 0 <= i < |rows| ==> EntryChecks(rows[i]))
    && stats.registers == |rows|
    && stats.observed == CountWhere(rows, Observed)
    && stats.implemented == CountWhere(rows, Implemented)
    && stats.implementedOnly == CountWhere(rows, ImplementedOnly)
    && stats.unknown == CountWhere(rows, Unnamed)
  }

  /** Known registers are named and explained, and lie in regions with an implementation source. */
  ghost predicate Documented(tables: Tables) {
    && Located(tables)
    && forall i :: 0 <= i < |tables.known| ==>
         var (address, info) := tables.known[i];
         var source := Source(tables, KnownKey(tables, i).0);
         info.name != "" && info.meaning != UNKNOWN && source.Some? && source.value != ""
  }

  /** Kept records of one address name one region, and at a known address it is the region that the
      table of bases gives. */
  ghost predicate RegionsAgree(tables: Tables, trace: seq<Record>) {
    && (forall r, q :: r in trace && q in trace && Kept(r) && Kept(q) && r.address == q.address ==> r.region == q.region)
    && (forall r, i :: r in trace && Kept(r) && 0 <= i < |tables.known| && tables.known[i].0 == r.address ==>
          RegionFor(tables.bases, r.address) == Some(r.region))
  }

  /** No two listed keys share an address. */
  ghost predicate Consistent(tables: Tables, trace: seq<Record>)
    requires Located(tables)
  {
    forall k, l :: Reason(tables, trace, |tables.known|, k) && Reason(tables, trace, |tables.known|, l) && k.1 == l.1 ==> k == l
  }

  ghost predicate AddressesDecide(keys: seq<Key>) {
    forall k, l :: k in keys && l in keys && k.1 == l.1 ==> k == l
  }

  lemma ConsistentKeys(tables: Tables, trace: seq<Record>)
    requires Located(tables)
    ensures Consistent(tables, trace) <==> AddressesDecide(AllKeys(tables, trace, |tables.known|))
  {
    AllKeysOrdered(tables, trace, |tables.known|);
    hide AllKeys, Reason, Located, Ordered;
  }

  /** The reference lists the address: the trace accessed it, or it is known. */
  ghost predicate Listed(tables: Tables, trace: seq<Record>, address: nat) {
    || (exists r :: r in trace && Kept(r) && r.address == address)
    || exists i :: 0 <= i < |tables.known| && tables.known[i].0 == address
  }

  /** Listed addresses stay apart when they are written in 32 bits. */
  ghost predicate Apart(tables: Tables, trace: seq<Record>) {
    forall a: nat, b: nat :: Listed(tables, trace, a) && Listed(tables, trace, b) && a != b ==> Hex32(a) != Hex32(b)
  }

  /** Listed addresses stay in order when they are written in 32 bits. */
  ghost predicate InOrder(tables: Tables, trace: seq<Record>) {
    forall a: nat, b: nat :: Listed(tables, trace, a) && Listed(tables, trace, b) && a < b ==> Hex32(a) < Hex32(b)
  }

  ghost predicate NoDuplicates(rows: seq<Register>) {
    forall i, j :: 0 <= i < j < |rows| ==> rows[i].address != rows[j].address
  }

  ghost predicate Ascends(rows: seq<Register>) {
    forall i, j :: 0 <= i < j < |rows| ==> rows[i].address <= rows[j].address
  }

  /** The addresses of the keys are the listed ones. */
  lemma ListedKeys(tables: Tables, trace: seq<Record>)
    requires Located(tables)
    ensures forall a: nat :: Listed(tables, trace, a) <==> exists k :: k in AllKeys(tables, trace, |tables.known|) && k.1 == a
  {
    AllKeysOrdered(tables, trace, |tables.known|);
    hide AllKeys, Located, Reason, Ordered, RegionFor;
    var keys := AllKeys(tables, trace, |tables.known|);
    forall a: nat ensures Listed(tables, trace, a) <==> exists k :: k in keys && k.1 == a {
      if r :| r in trace && Kept(r) && r.address == a {
        ReasonIff(tables, trace, KeyOf(r));
        assert KeyOf(r) in keys;
      }
      if i :| 0 <= i < |tables.known| && tables.known[i].0 == a {
        ReasonIff(tables, trace, KnownKey(tables, i));
        assert KnownKey(tables, i) in keys;
      }
      if k :| k in keys && k.1 == a {
        ReasonIff(tables, trace, k);
      }
    }
  }

  lemma ReasonIff(tables: Tables, trace: seq<Record>, key: Key)
    requires Located(tables)
    ensures Reason(tables, trace, |tables.known|, key) <==>
            || (exists r :: r in trace && Kept(r) && KeyOf(r) == key)
            || exists i :: 0 <= i < |tables.known| && key == KnownKey(tables, i)
  {
    AccessesHold(trace, key);
    hide RegionFor;
    if Accesses(trace, key) != [] {
      assert Accesses(trace, key)[0] in Accesses(trace, key);
    }
  }

  lemma AgreementOfRecords(tables: Tables, trace: seq<Record>)
    requires Located(tables) && Consistent(tables, trace)
    ensures RegionsAgree(tables, trace)
  {
    forall r | r in trace && Kept(r) ensures Reason(tables, trace, |tables.known|, KeyOf(r)) {
      ReasonIff(tables, trace, KeyOf(r));
    }
    forall i | 0 <= i < |tables.known| ensures Reason(tables, trace, |tables.known|, KnownKey(tables, i)) {
      ReasonIff(tables, trace, KnownKey(tables, i));
    }
    hide Reason, RegionFor;
    forall r, q | r in trace && q in trace && Kept(r) && Kept(q) && r.address == q.address ensures r.region == q.region {
      assert KeyOf(r) == KeyOf(q);
    }
    forall r, i | r in trace && Kept(r) && 0 <= i < |tables.known| && tables.known[i].0 == r.address
      ensures RegionFor(tables.bases, r.address) == Some(r.region)
    {
      assert KeyOf(r) == KnownKey(tables, i);
    }
  }

  lemma ConsistencyOfKeys(tables: Tables, trace: seq<Record>)
    requires Located(tables) && RegionsAgree(tables, trace)
    ensures Consistent(tables, trace)
  {
    forall k, l | Reason(tables, trace, |tables.known|, k) && Reason(tables, trace, |tables.known|, l) && k.1 == l.1
      ensures k == l
    {
      ReasonIff(tables, trace, k);
      ReasonIff(tables, trace, l);
      hide Reason, RegionFor;
    }
  }

  lemma ConsistentIff(tables: Tables, trace: seq<Record>)
    requires Located(tables)
    ensures AddressesDecide(AllKeys(tables, trace, |tables.known|)) <==> RegionsAgree(tables, trace)
  {
    hide *;
    ConsistentKeys(tables, trace);
    if Consistent(tables, trace) {
      AgreementOfRecords(tables, trace);
    }
    if RegionsAgree(tables, trace) {
      ConsistencyOfKeys(tables, trace);
    }
  }

  lemma RowAddresses(tables: Tables, trace: seq<Record>)
    requires Located(tables)
    ensures var keys, rows := AllKeys(tables, trace, |tables.known|), Compose(tables, trace).registers;
            |rows| == |keys| && forall i :: 0 <= i < |keys| ==> rows[i].address == Hex32(keys[i].1)
  {
    hide Row, AllKeys, CountWhere, Grouped, Rows, Hex32;
    var keys := AllKeys(tables, trace, |tables.known|);
    RowsAt(tables, trace, keys);
    forall i | 0 <= i < |keys| ensures Row(tables, trace, keys[i]).address == Hex32(keys[i].1) {
      RowAddress(tables, trace, keys[i]);
    }
  }

  lemma RowAddress(tables: Tables, trace: seq<Record>, key: Key)
    ensures Row(tables, trace, key).address == Hex32(key.1)
  {
  }

  ghost predicate KeysApart(keys: seq<Key>) {
    forall k, l :: k in keys && l in keys && k.1 != l.1 ==> Hex32(k.1) != Hex32(l.1)
  }

  ghost predicate KeysInOrder(keys: seq<Key>) {
    forall k, l :: k in keys && l in keys && k.1 < l.1 ==> Hex32(k.1) < Hex32(l.1)
  }

  ghost predicate Written(keys: seq<Key>, rows: seq<Register>) {
    |rows| == |keys| && forall i :: 0 <= i < |keys| ==> rows[i].address == Hex32(keys[i].1)
  }

  lemma ApartIff(keys: seq<Key>, rows: seq<Register>)
    requires Ordered(keys) && Written(keys, rows)
    ensures NoDuplicates(rows) <==> AddressesDecide(keys) && KeysApart(keys)
  {
    hide Hex32;
    if NoDuplicates(rows) {
      forall k, l | k in keys && l in keys && k != l ensures Hex32(k.1) != Hex32(l.1) {
        var i :| 0 <= i < |keys| && keys[i] == k;
        var j :| 0 <= j < |keys| && keys[j] == l;
        assert rows[i].address == Hex32(k.1) && rows[j].address == Hex32(l.1);
      }
    }
    if AddressesDecide(keys) && KeysApart(keys) {
      forall i, j | 0 <= i < j < |rows| ensures rows[i].address != rows[j].address {
        assert keys[i] in keys && keys[j] in keys && keys[i] != keys[j];
      }
    }
  }

  lemma InOrderIff(keys: seq<Key>, rows: seq<Register>)
    requires Ordered(keys) && Written(keys, rows)
    ensures NoDuplicates(rows) && Ascends(rows) <==> AddressesDecide(keys) && KeysInOrder(keys)
  {
    ApartIff(keys, rows);
    hide Hex32;
    if NoDuplicates(rows) && Ascends(rows) {
      forall k, l | k in keys && l in keys && k.1 < l.1 ensures Hex32(k.1) < Hex32(l.1) {
        var i :| 0 <= i < |keys| && keys[i] == k;
        var j :| 0 <= j < |keys| && keys[j] == l;
        assert i < j;
        assert rows[i].address <= rows[j].address && rows[i].address != rows[j].address;
      }
    }
    if AddressesDecide(keys) && KeysInOrder(keys) {
      forall i, j | 0 <= i < j < |rows| ensures rows[i].address < rows[j].address {
        assert keys[i] in keys && keys[j] in keys && keys[i] != keys[j];
        assert keys[i].1 < keys[j].1;
      }
    }
  }

  /** Over the keys and over the listed addresses, the same two conditions. */
  lemma KeysListed(tables: Tables, trace: seq<Record>)
    requires Located(tables)
    ensures var keys := AllKeys(tables, trace, |tables.known|);
            && (KeysApart(keys) <==> Apart(tables, trace))
            && (KeysInOrder(keys) <==> InOrder(tables, trace))
  {
    hide AllKeys, Located, Listed, Hex32;
    var keys := AllKeys(tables, trace, |tables.known|);
    ListedKeys(tables, trace);
    if Apart(tables, trace) {
      forall k, l | k in keys && l in keys && k.1 != l.1 ensures Hex32(k.1) != Hex32(l.1) {
        assert Listed(tables, trace, k.1) && Listed(tables, trace, l.1);
      }
    }
    if InOrder(tables, trace) {
      forall k, l | k in keys && l in keys && k.1 < l.1 ensures Hex32(k.1) < Hex32(l.1) {
        assert Listed(tables, trace, k.1) && Listed(tables, trace, l.1);
      }
    }
  }

  lemma KeysOrdered(tables: Tables, trace: seq<Record>)
    requires Located(tables)
    ensures Ordered(AllKeys(tables, trace, |tables.known|))
    ensures Written(AllKeys(tables, trace, |tables.known|), Compose(tables, trace).registers)
  {
    hide AllKeys, Located, Reason, Compose;
    AllKeysOrdered(tables, trace, |tables.known|);
    RowAddresses(tables, trace);
  }

  /** The composed list is free of duplicates exactly when the regions agree and no two listed addresses
      coincide in their low 32 bits; it is then also in order exactly when these keep the order. */
  lemma DuplicatesIff(tables: Tables, trace: seq<Record>)
    requires Located(tables)
    ensures NoDuplicates(Compose(tables, trace).registers) <==> RegionsAgree(tables, trace) && Apart(tables, trace)
    ensures NoDuplicates(Compose(tables, trace).registers) && Ascends(Compose(tables, trace).registers)
            <==> RegionsAgree(tables, trace) && InOrder(tables, trace)
  {
    hide *;
    var keys := AllKeys(tables, trace, |tables.known|);
    KeysOrdered(tables, trace);
    KeysListed(tables, trace);
    ConsistentIff(tables, trace);
    ApartIff(keys, Compose(tables, trace).registers);
    InOrderIff(keys, Compose(tables, trace).registers);
  }

  // ---------------------------------------------------------------- when there is a reference at all

  /** The generator fails exactly when a known address lies below every region, or a kept record names a
      region without a base, has no program counter, or changed a value that was not seen afterwards. */
  lemma GeneratesIff(tables: Tables, trace: seq<Record>)
    ensures Generate(tables, trace).Some? <==>
            && Located(tables)
            && forall r :: r in trace && Kept(r) ==>
                 BaseOf(tables.bases, r.region).Some? && r.pc.Some? && (Changes(r) ==> r.post.Some?)
    ensures Generate(tables, trace).Some? ==> Located(tables) && Generate(tables, trace).value == Compose(tables, trace)
  {
    hide AllKeys, Compose, Located, BaseOf, Complete;
    if Located(tables) {
      CompleteIff(tables, trace);
    }
  }

  ghost predicate Traceable(tables: Tables, r: Record) {
    BaseOf(tables.bases, r.region).Some? && r.pc.Some? && (Changes(r) ==> r.post.Some?)
  }

  lemma CompleteIff(tables: Tables, trace: seq<Record>)
    requires Located(tables)
    ensures AllComplete(tables, trace, AllKeys(tables, trace, |tables.known|)) <==>
            forall r :: r in trace && Kept(r) ==>
              BaseOf(tables.bases, r.region).Some? && r.pc.Some? && (Changes(r) ==> r.post.Some?)
  {
    AllKeysOrdered(tables, trace, |tables.known|);
    hide AllKeys, Located, Reason, Ordered, BaseOf, Changes, RegionFor;
    var keys := AllKeys(tables, trace, |tables.known|);
    if AllComplete(tables, trace, keys) {
      forall r | r in trace && Kept(r) ensures Traceable(tables, r) {
        var key := KeyOf(r);
        ReasonIff(tables, trace, key);
        assert key in keys;
        var i :| 0 <= i < |keys| && keys[i] == key;
        AccessesHold(trace, key);
        hide Accesses;
        assert Complete(tables, Accesses(trace, key), key);
        var k :| 0 <= k < |Accesses(trace, key)| && Accesses(trace, key)[k] == r;
      }
    }
    if forall r :: r in trace && Kept(r) ==> Traceable(tables, r) {
      forall i | 0 <= i < |keys| ensures Complete(tables, Accesses(trace, keys[i]), keys[i]) {
        assert keys[i] in keys;
        ReasonIff(tables, trace, keys[i]);
        KeyComplete(tables, trace, keys[i]);
      }
    }
  }

  lemma KeyComplete(tables: Tables, trace: seq<Record>, key: Key)
    requires Located(tables) && Reason(tables, trace, |tables.known|, key)
    requires forall r :: r in trace && Kept(r) ==> Traceable(tables, r)
    ensures Complete(tables, Accesses(trace, key), key)
  {
    ReasonIff(tables, trace, key);
    AccessesHold(trace, key);
    hide Accesses, Changes, Reason, BaseOf, Located;
    if r :| r in trace && Kept(r) && KeyOf(r) == key {
      assert Traceable(tables, r);
    } else {
      var i :| 0 <= i < |tables.known| && key == KnownKey(tables, i);
      LocatedBase(tables, i);
    }
    forall i | 0 <= i < |Accesses(trace, key)|
      ensures Accesses(trace, key)[i].pc.Some? && (Changes(Accesses(trace, key)[i]) ==> Accesses(trace, key)[i].post.Some?)
    {
      assert Accesses(trace, key)[i] in Accesses(trace, key);
      assert Traceable(tables, Accesses(trace, key)[i]);
    }
  }

  lemma LocatedBase(tables: Tables, i: nat)
    requires Located(tables) && i < |tables.known|
    ensures BaseOf(tables.bases, KnownKey(tables, i).0).Some?
  {
    var best := Best(tables.bases, tables.known[i].0).value;
    var j :| 0 <= j < |tables.bases| && tables.bases[j] == best;
  }

  /** What the generator writes lists no address twice exactly when kept records of one address name one
      region (at a known address, the one that the table of bases gives) and no two listed addresses
      coincide in their low 32 bits. */
  lemma DistinctIff(tables: Tables, trace: seq<Record>)
    requires Generate(tables, trace).Some?
    ensures NoDuplicates(Generate(tables, trace).value.registers) <==> RegionsAgree(tables, trace) && Apart(tables, trace)
  {
    hide *;
    GeneratesIff(tables, trace);
    DuplicatesIff(tables, trace);
  }

  /** Every register that the trace mentions was read or written at least once. */
  ghost predicate Touched(trace: seq<Record>) {
    forall r :: r in trace && Kept(r) ==> exists q :: q in trace && Kept(q) && KeyOf(q) == KeyOf(r) && q.kind != Neither
  }

  lemma {:induction false} OfKindHas(accesses: seq<Record>, kind: Kind)
    ensures |OfKind(accesses, kind)| > 0 <==> exists r :: r in accesses && r.kind == kind
  {
    if accesses != [] {
      var n := |accesses| - 1;
      OfKindHas(accesses[..n], kind);
      assert accesses == accesses[..n] + [accesses[n]];
      assert accesses[n] in accesses;
    }
  }

  /** An observed register has a count exactly when some record of it is a read or a write. */
  lemma CountedIff(tables: Tables, trace: seq<Record>, key: Key)
    ensures var row := Row(tables, trace, key);
            && row.readCount + row.writeCount > 0 <==>
               exists q :: q in trace && Kept(q) && KeyOf(q) == key && q.kind != Neither
  {
    var accesses := Accesses(trace, key);
    AccessesHold(trace, key);
    OfKindHas(accesses, Read);
    OfKindHas(accesses, Write);
    RowCounts(tables, trace, key);
    hide Row, Accesses, OfKind;
    if q :| q in trace && Kept(q) && KeyOf(q) == key && q.kind != Neither {
      assert q in accesses;
    }
  }

  lemma RowShape(tables: Tables, trace: seq<Record>, key: Key)
    ensures var (row, info, accesses) := (Row(tables, trace, key), Find(tables.known, key.1), Accesses(trace, key));
            && (row.implemented <==> info.Some?)
            && (row.observed <==> accesses != [])
            && (info.Some? ==> row.name == Some(info.value.name) && row.meaning == info.value.meaning)
            && row.source == (if info.Some? then Source(tables, key.0) else None)
            && (accesses == [] ==> row.access == NotObserved)
  {
    NoneOfKind(Accesses(trace, key));
    hide Accesses, OfKind, Values, FirstAt, LastAt, Find;
  }

  lemma DocumentedAt(tables: Tables, trace: seq<Record>, key: Key)
    requires Documented(tables) && RegionsAgree(tables, trace) && Reason(tables, trace, |tables.known|, key)
    ensures var (info, source) := (Find(tables.known, key.1), Source(tables, key.0));
            && (info.None? ==> Accesses(trace, key) != [])
            && (info.Some? ==> info.value.name != "" && info.value.meaning != UNKNOWN && source.Some? && source.value != "")
  {
    hide RegionFor, Find, Accesses;
    FoundAt(tables, key.1);
    ReasonIff(tables, trace, key);
    var info := Find(tables.known, key.1);
    if info.Some? {
      var i :| 0 <= i < |tables.known| && tables.known[i] == (key.1, info.value);
      assert KnownKey(tables, i) == key;
    }
  }

  lemma RowChecks(tables: Tables, trace: seq<Record>, key: Key)
    requires Documented(tables) && RegionsAgree(tables, trace) && Touched(trace)
    requires Reason(tables, trace, |tables.known|, key)
    ensures EntryChecks(Row(tables, trace, key))
  {
    hide Accesses, Row, Find, Source, Reason, RegionsAgree, Documented, Touched, Kept, KeyOf;
    RowShape(tables, trace, key);
    DocumentedAt(tables, trace, key);
    if Accesses(trace, key) != [] {
      ObservedCounted(tables, trace, key);
    }
  }

  lemma ObservedCounted(tables: Tables, trace: seq<Record>, key: Key)
    requires Touched(trace) && Accesses(trace, key) != []
    ensures var row := Row(tables, trace, key); row.readCount + row.writeCount > 0
  {
    hide Accesses, Row;
    AccessesHold(trace, key);
    CountedIff(tables, trace, key);
    assert Accesses(trace, key)[0] in Accesses(trace, key);
  }

  lemma NoneOfKind(accesses: seq<Record>)
    ensures accesses == [] ==> OfKind(accesses, Read) == [] && OfKind(accesses, Write) == []
  {
  }

  lemma FoundAt(tables: Tables, address: nat)
    ensures var info := Find(tables.known, address);
            && (info.Some? ==> exists i :: 0 <= i < |tables.known| && tables.known[i] == (address, info.value))
            && (forall i :: 0 <= i < |tables.known| && tables.known[i].0 == address ==> info.Some?)
  {
    FindAt(tables.known, address);
  }

  lemma {:induction false} FindAt(known: seq<(nat, Info)>, address: nat)
    ensures var info := Find(known, address);
            info.Some? ==> exists i :: 0 <= i < |known| && known[i] == (address, info.value)
  {
    if known != [] && known[0].0 != address {
      FindAt(known[1..], address);
      var info := Find(known, address);
      if info.Some? {
        var i :| 0 <= i < |known[1..]| && known[1..][i] == (address, info.value);
        assert known[i + 1] == (address, info.value);
      }
    }
  }

  lemma ChecksMet(tables: Tables, trace: seq<Record>)
    requires Documented(tables) && RegionsAgree(tables, trace) && InOrder(tables, trace) && Touched(trace)
    ensures Checks(Compose(tables, trace))
  {
    hide AllKeys, Reason, Row, Located, EntryChecks, CountWhere, RegionsAgree, Touched, Grouped;
    var keys := AllKeys(tables, trace, |tables.known|);
    AllKeysOrdered(tables, trace, |tables.known|);
    DuplicatesIff(tables, trace);
    hide InOrder, Ascends, NoDuplicates;
    RowsAt(tables, trace, keys);
    forall i | 0 <= i < |keys| ensures EntryChecks(Row(tables, trace, keys[i])) {
      assert keys[i] in keys;
      RowChecks(tables, trace, keys[i]);
    }
  }

  /** The table of known registers has one entry per address. */
  ghost predicate OneEach(tables: Tables) {
    forall i, j :: 0 <= i < j < |tables.known| ==> tables.known[i].0 != tables.known[j].0
  }

  /** A listed key has its row, and that row passes its checks. */
  lemma ListedChecks(tables: Tables, trace: seq<Record>, key: Key)
    requires Located(tables) && Checks(Compose(tables, trace)) && Reason(tables, trace, |tables.known|, key)
    ensures EntryChecks(Row(tables, trace, key))
  {
    hide AllKeys, Reason, Row, Located, EntryChecks, CountWhere, Grouped, Rows;
    var keys := AllKeys(tables, trace, |tables.known|);
    AllKeysOrdered(tables, trace, |tables.known|);
    RowsAt(tables, trace, keys);
    assert key in keys;
    var i :| 0 <= i < |keys| && keys[i] == key;
    assert Compose(tables, trace).registers[i] == Row(tables, trace, key);
  }

  lemma FoundEntry(tables: Tables, i: nat)
    requires OneEach(tables) && i < |tables.known|
    ensures Find(tables.known, tables.known[i].0) == Some(tables.known[i].1)
  {
    FoundAt(tables, tables.known[i].0);
    hide Find;
  }

  lemma KnownDocumented(tables: Tables, trace: seq<Record>, i: nat)
    requires Located(tables) && OneEach(tables) && Checks(Compose(tables, trace)) && i < |tables.known|
    ensures var (info, source) := (tables.known[i].1, Source(tables, KnownKey(tables, i).0));
            info.name != "" && info.meaning != UNKNOWN && source.Some? && source.value != ""
  {
    var key := KnownKey(tables, i);
    ReasonIff(tables, trace, key);
    hide RegionFor, Reason, Accesses, Checks, Compose;
    ListedChecks(tables, trace, key);
    FoundEntry(tables, i);
  }

  lemma ChecksTouch(tables: Tables, trace: seq<Record>, r: Record)
    requires Located(tables) && Checks(Compose(tables, trace)) && r in trace && Kept(r)
    ensures exists q :: q in trace && Kept(q) && KeyOf(q) == KeyOf(r) && q.kind != Neither
  {
    var key := KeyOf(r);
    ReasonIff(tables, trace, key);
    hide RegionFor, Reason, Checks, Compose, Located;
    ListedChecks(tables, trace, key);
    CountedIff(tables, trace, key);
    AccessesHold(trace, key);
    assert r in Accesses(trace, key);
  }

  lemma ComposedChecksIff(tables: Tables, trace: seq<Record>)
    requires Located(tables) && OneEach(tables)
    ensures Checks(Compose(tables, trace)) <==>
            Documented(tables) && RegionsAgree(tables, trace) && InOrder(tables, trace) && Touched(trace)
  {
    hide RegionsAgree, InOrder, Compose, EntryChecks, CountWhere, NoDuplicates, Ascends;
    DuplicatesIff(tables, trace);
    if Documented(tables) && RegionsAgree(tables, trace) && InOrder(tables, trace) && Touched(trace) {
      ChecksMet(tables, trace);
    }
    if Checks(Compose(tables, trace)) {
      forall i | 0 <= i < |tables.known| {
        KnownDocumented(tables, trace, i);
      }
      forall r | r in trace && Kept(r) {
        ChecksTouch(tables, trace, r);
      }
    }
  }

  /** What the generator writes passes every structural and statistical check exactly when the known
      registers are documented, the regions agree, the listed addresses stay in order in their low 32
      bits, and nothing is mentioned without being accessed. */
  lemma ChecksIff(tables: Tables, trace: seq<Record>)
    requires Generate(tables, trace).Some?
    requires forall i, j :: 0 <= i < j < |tables.known| ==> tables.known[i].0 != tables.known[j].0
    ensures Checks(Generate(tables, trace).value) <==>
            Documented(tables) && RegionsAgree(tables, trace) && InOrder(tables, trace) && Touched(trace)
  {
    assert OneEach(tables);
    hide *;
    GeneratesIff(tables, trace);
    ComposedChecksIff(tables, trace);
  }

  lemma {:induction false} CountsPartition(rows: seq<Register>)
    requires forall i :: 0 <= i < |rows| ==> (rows[i].observed || rows[i].implemented) && (rows[i].name.None? <==> !rows[i].implemented)
    ensures CountWhere(rows, Observed) + CountWhere(rows, ImplementedOnly) == |rows|
    ensures CountWhere(rows, Unnamed) + CountWhere(rows, Implemented) == |rows|
  {
    if rows != [] {
      CountsPartition(rows[..|rows| - 1]);
    }
  }

  lemma ComposedStatistics(tables: Tables, trace: seq<Record>)
    requires Located(tables)
    ensures var stats := Compose(tables, trace).statistics;
            && stats.registers == stats.observed + stats.implementedOnly
            && stats.unknown == stats.registers - stats.implemented
  {
    hide AllKeys, Located, CountWhere, Grouped, Row, Rows, Reason;
    var keys := AllKeys(tables, trace, |tables.known|);
    var rows := Rows(tables, trace, keys);
    AllKeysOrdered(tables, trace, |tables.known|);
    RowsAt(tables, trace, keys);
    forall i | 0 <= i < |rows|
      ensures (rows[i].observed || rows[i].implemented) && (rows[i].name.None? <==> !rows[i].implemented)
    {
      assert keys[i] in keys;
      ReasonShows(tables, trace, keys[i]);
    }
    CountsPartition(rows);
  }

  lemma ReasonShows(tables: Tables, trace: seq<Record>, key: Key)
    requires Located(tables) && Reason(tables, trace, |tables.known|, key)
    ensures var row := Row(tables, trace, key);
            (row.observed || row.implemented) && (row.name.None? <==> !row.implemented)
  {
    FoundAt(tables, key.1);
    hide RegionFor, Accesses, OfKind, Values, Find;
  }

  /** A listed register that is implemented is known at its address, and one that is observed was
      accessed there. */
  lemma ListedOrigin(tables: Tables, trace: seq<Record>, row: Register)
    requires Generate(tables, trace).Some? && row in Generate(tables, trace).value.registers
    ensures row.implemented ==> exists m :: 0 <= m < |tables.known| && Hex32(tables.known[m].0) == row.address
    ensures row.observed ==> exists r :: r in trace && Kept(r) && Hex32(r.address) == row.address
  {
    hide AllKeys, Row, Located, CountWhere, Grouped, Rows, Accesses, Hex32, AllComplete;
    var keys := AllKeys(tables, trace, |tables.known|);
    RowsAt(tables, trace, keys);
    var i :| 0 <= i < |keys| && row == Row(tables, trace, keys[i]);
    var key := keys[i];
    RowShape(tables, trace, key);
    RowAddress(tables, trace, key);
    FoundAt(tables, key.1);
    AccessesHold(trace, key);
    if row.observed {
      assert Accesses(trace, key)[0] in Accesses(trace, key);
    }
  }

  // ---------------------------------------------------------------- what the generator writes

  /** The record statistic is the number of records outside the UART. */
  lemma RecordsCounted(tables: Tables, trace: seq<Record>)
    requires Generate(tables, trace).Some?
    ensures Generate(tables, trace).value.statistics.records == KeptCount(trace)
  {
    hide *;
    GeneratesIff(tables, trace);
    ComposedRecords(tables, trace);
  }

  /** Access counts add up to the records outside the UART. */
  lemma CountsSum(tables: Tables, trace: seq<Record>)
    requires Generate(tables, trace).Some?
    requires forall r :: r in trace && r.region != "esp32c6.uart0" ==> r.kind == Read || r.kind == Write
    ensures TotalCounts(Generate(tables, trace).value.registers) == KeptCount(trace)
  {
    assert AllAccesses(trace);
    hide *;
    GeneratesIff(tables, trace);
    ComposedCounts(tables, trace);
  }

  /** Registers are those observed and those only implemented; the unknown ones are those not
      implemented. */
  lemma StatisticsAdd(tables: Tables, trace: seq<Record>)
    requires Generate(tables, trace).Some?
    ensures var stats := Generate(tables, trace).value.statistics;
            && stats.registers == stats.observed + stats.implementedOnly
            && stats.unknown == stats.registers - stats.implemented
  {
    hide *;
    GeneratesIff(tables, trace);
    ComposedStatistics(tables, trace);
  }

  /** Two accesses of one region, two to the 32 apart: generated, and listed under one address. */
  lemma ListedTwice()
    ensures var tables := Tables([("phy", 0x600a_0000)], map[], []);
            var low := Record("phy", 0x600a_0000, Read, 0, 0, Some(0), None, None);
            var trace := [low, low.(address := 0x1_600a_0000)];
            && Generate(tables, trace).Some? && RegionsAgree(tables, trace)
            && !NoDuplicates(Generate(tables, trace).value.registers)
  {
    var tables := Tables([("phy", 0x600a_0000)], map[], []);
    var low := Record("phy", 0x600a_0000, Read, 0, 0, Some(0), None, None);
    var trace := [low, low.(address := 0x1_600a_0000)];
    hide Generate, NoDuplicates, RegionsAgree, Apart, RegionFor;
    GeneratesIff(tables, trace);
    assert low in trace && trace[1] in trace;
    NotApart(tables, trace, 0x600a_0000, 0x1_600a_0000);
    DistinctIff(tables, trace);
    TwoAgree(tables, low, trace[1]);
  }

  lemma NotApart(tables: Tables, trace: seq<Record>, a: nat, b: nat)
    requires Listed(tables, trace, a) && Listed(tables, trace, b) && a != b && Hex32(a) == Hex32(b)
    ensures !Apart(tables, trace)
  {
    hide Listed, Hex32;
  }

  lemma TwoAgree(tables: Tables, r: Record, q: Record)
    requires tables.known == [] && r.region == q.region
    ensures RegionsAgree(tables, [r, q])
  {
    hide RegionFor;
  }

  // ---------------------------------------------------------------- the generator's loops

  /** The table of modelled registers, as it is filled. */
  class KnownTable {
    var known: map<nat, Info>

    constructor (initial: map<nat, Info>)
      ensures known == initial
    {
      known := initial;
    }

    method AddModeled(address: nat, info: Info)
      modifies this
      ensures known == Modeled(old(known), address, info)
    {
      if address in known {
        var previous := known[address];
        known := known[address := previous.(mask := Either(previous.mask, info.mask),
                                            reset := Either(previous.reset, info.reset))];
        return;
      }
      known := known[address := info];
    }
  }

  function Lookup(grouped: map<Key, seq<Record>>, key: Key): seq<Record> {
    if key in grouped then grouped[key] else []
  }

  /** The table holds the accesses of every key that has any. */
  ghost predicate Groups(grouped: map<Key, seq<Record>>, trace: seq<Record>) {
    forall key :: Lookup(grouped, key) == Accesses(trace, key) && (key in grouped <==> Accesses(trace, key) != [])
  }

  lemma GroupsNext(grouped: map<Key, seq<Record>>, front: seq<Record>, record: Record)
    requires Groups(grouped, front)
    ensures Groups(if Kept(record) then grouped[KeyOf(record) := Lookup(grouped, KeyOf(record)) + [record]] else grouped,
                   front + [record])
  {
    var after := if Kept(record) then grouped[KeyOf(record) := Lookup(grouped, KeyOf(record)) + [record]] else grouped;
    forall key
      ensures Lookup(after, key) == Accesses(front + [record], key) && (key in after <==> Accesses(front + [record], key) != [])
    {
      AccessesSnoc(front, record, key);
      hide Accesses;
      assert Lookup(grouped, key) == Accesses(front, key);
    }
  }

  lemma AccessesSnoc(front: seq<Record>, record: Record, key: Key)
    ensures Accesses(front + [record], key)
            == Accesses(front, key) + if Kept(record) && KeyOf(record) == key then [record] else []
  {
    assert (front + [record])[..|front|] == front;
  }

  /** Groups the trace by region and address, leaving out the UART. */
  method GroupTrace(trace: seq<Record>) returns (grouped: map<Key, seq<Record>>)
    ensures Groups(grouped, trace)
  {
    grouped := map[];
    hide Groups, Lookup;
    GroupsNothing();
    for k := 0 to |trace|
      invariant Groups(grouped, trace[..k])
    {
      var record := trace[k];
      assert trace[..k + 1] == trace[..k] + [record];
      GroupsNext(grouped, trace[..k], record);
      if Kept(record) {
        grouped := grouped[KeyOf(record) := Lookup(grouped, KeyOf(record)) + [record]];
      }
    }
    assert trace[..|trace|] == trace;
  }

  lemma GroupsNothing()
    ensures Groups(map[], [])
  {
  }

  lemma RowOfGroup(tables: Tables, trace: seq<Record>, grouped: map<Key, seq<Record>>, key: Key)
    requires Groups(grouped, trace)
    ensures RowFrom(tables, Lookup(grouped, key), key) == Row(tables, trace, key)
  {
    hide Accesses, RowFrom;
    assert Lookup(grouped, key) == Accesses(trace, key);
  }

  /** Builds the reference from the grouped table, in key order, unless a lookup fails. */
  method BuildReference(tables: Tables, trace: seq<Record>, grouped: map<Key, seq<Record>>)
    returns (reference: Option<Reference>)
    requires Groups(grouped, trace)
    ensures reference == Generate(tables, trace)
  {
    hide Row, RowFrom, RegionFor, Accesses, Lookup, Groups, CountWhere, Grouped, Complete, RegionsOf, CountValues;
    for n := 0 to |tables.known|
      invariant forall i :: 0 <= i < n ==> RegionFor(tables.bases, tables.known[i].0).Some?
    {
      if RegionFor(tables.bases, tables.known[n].0).None? {
        return None;
      }
    }
    var keys: seq<Key> := TraceKeys(trace);
    for n := 0 to |tables.known|
      invariant keys == AllKeys(tables, trace, n)
    {
      keys := InsertKey(keys, KnownKey(tables, n));
    }
    var rows: seq<Register>, records: nat := [], 0;
    GroupedEmpty(trace);
    for k := 0 to |keys|
      invariant rows == Rows(tables, trace, keys[..k])
      invariant records == Grouped(trace, keys[..k])
      invariant AllComplete(tables, trace, keys[..k])
    {
      var accesses := Lookup(grouped, keys[k]);
      RowOfGroup(tables, trace, grouped, keys[k]);
      GroupOf(trace, grouped, keys[k]);
      if !Complete(tables, accesses, keys[k]) {
        return None;
      }
      assert keys[..k + 1][..k] == keys[..k];
      GroupedNext(trace, keys, k);
      rows := rows + [RowFrom(tables, accesses, keys[k])];
      records := records + |accesses|;
    }
    assert keys[..|keys|] == keys;
    reference := Some(Summary(rows, records));
  }

  lemma GroupOf(trace: seq<Record>, grouped: map<Key, seq<Record>>, key: Key)
    requires Groups(grouped, trace)
    ensures Lookup(grouped, key) == Accesses(trace, key)
  {
  }

  lemma GroupedEmpty(trace: seq<Record>)
    ensures Grouped(trace, []) == 0
  {
  }

  lemma GroupedNext(trace: seq<Record>, keys: seq<Key>, k: nat)
    requires k < |keys|
    ensures Grouped(trace, keys[..k + 1]) == Grouped(trace, keys[..k]) + |Accesses(trace, keys[k])|
  {
    hide Accesses;
    assert keys[..k + 1][..k] == keys[..k];
  }
}
