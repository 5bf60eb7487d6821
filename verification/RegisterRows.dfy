/** What each row of a generated register reference says, field by field, in terms of the trace and the
    tables alone. */
module RegisterRows {
  import opened Numbers
  import opened Options
  import opened Registers

  /** `r` is an access that the row of `key` reports. */
  ghost predicate Reported(trace: seq<Record>, key: Key, r: Record) {
    r in trace && r.region != "esp32c6.uart0" && r.region == key.0 && r.address == key.1
  }

  ghost predicate Occurs(trace: seq<Record>, key: Key, kind: Kind) {
    exists r :: Reported(trace, key, r) && r.kind == kind
  }

  /** Where in the trace the accesses of one kind are. */
  function Places(trace: seq<Record>, key: Key, kind: Kind): set<nat> {
    set i: nat | i < |trace| && Kept(trace[i]) && KeyOf(trace[i]) == key && trace[i].kind == kind
  }

  /** How often, of what kind, and when. */
  ghost predicate Accessed(trace: seq<Record>, key: Key, row: Register) {
    && (row.observed <==> exists r :: Reported(trace, key, r))
    && row.readCount == |Places(trace, key, Read)|
    && row.writeCount == |Places(trace, key, Write)|
    && (row.access.ReadWrite? <==> Occurs(trace, key, Read) && Occurs(trace, key, Write))
    && (row.access.ReadOnly? <==> Occurs(trace, key, Read) && !Occurs(trace, key, Write))
    && (row.access.WriteOnly? <==> !Occurs(trace, key, Read) && Occurs(trace, key, Write))
    && (row.firstAt.Some? <==> row.observed) && (row.lastAt.Some? <==> row.observed)
    && (row.observed ==> (exists r :: Reported(trace, key, r) && r.at == row.firstAt.value)
                         && exists r :: Reported(trace, key, r) && r.at == row.lastAt.value)
    && (forall r :: Reported(trace, key, r) ==>
          row.firstAt.Some? && row.firstAt.value <= r.at && row.lastAt.Some? && r.at <= row.lastAt.value)
  }

  /** The four lists. */
  ghost predicate Listing(trace: seq<Record>, key: Key, row: Register) {
    && (forall v :: v in row.readValues <==> exists r :: Reported(trace, key, r) && r.kind == Read && v == r.value % MODULUS)
    && (forall v :: v in row.writeValues <==> exists r :: Reported(trace, key, r) && r.kind == Write && v == r.value % MODULUS)
    && (forall v :: v in row.changedValues <==>
          exists r :: Reported(trace, key, r) && r.kind == Write && r.pre != r.post && r.post.Some?
                      && v == r.post.value % MODULUS)
    && (forall v :: v in row.counters <==> exists r :: Reported(trace, key, r) && r.pc.Some? && v == r.pc.value % MODULUS)
    && Ascending(row.counters)
  }

  /** The first entry of a list of pairs for a name. */
  ghost predicate First<K, V>(entries: seq<(K, V)>, k: K, i: nat) {
    i < |entries| && entries[i].0 == k && forall j :: 0 <= j < i ==> entries[j].0 != k
  }

  ghost predicate Reduced(value: Option<nat>, shown: Option<nat>) {
    && (value.Some? <==> shown.Some?)
    && (value.Some? ==> shown.value == value.value % MODULUS)
  }

  /** What is known of the register, and where it lies. */
  ghost predicate Placed(tables: Tables, key: Key, row: Register) {
    && row.address == key.1 % MODULUS && row.region == key.0
    && (exists i: nat :: First(tables.bases, key.0, i) && row.offset == (key.1 - tables.bases[i].1) % MODULUS)
    && (row.implemented <==> exists i: nat :: First(tables.known, key.1, i))
    && (forall i: nat :: First(tables.known, key.1, i) ==> FromInfo(tables, key, tables.known[i].1, row))
    && (!row.implemented ==>
          row.name.None? && row.meaning == "unknown; factual observed values only" && row.confidence == "observed-only"
          && row.source.None? && row.mask.None? && row.reset.None?)
    && row.evidence == (if row.observed then ["pinned-oracle-bus-trace"] else [])
                       + if row.implemented then ["renvo-functional-model"] else []
  }

  ghost predicate FromInfo(tables: Tables, key: Key, info: Info, row: Register) {
    && row.name == Some(info.name) && row.meaning == info.meaning && row.confidence == info.confidence
    && Reduced(info.mask, row.mask) && Reduced(info.reset, row.reset)
    && (row.source.Some? <==> key.0 in tables.sources)
    && (row.source.Some? ==> row.source.value == tables.sources[key.0])
  }

  // ---------------------------------------------------------------- the lists and the counts

  lemma {:induction false} OfKindHolds(accesses: seq<Record>, kind: Kind)
    ensures forall r :: r in OfKind(accesses, kind) <==> r in accesses && r.kind == kind
  {
    if accesses != [] {
      OfKindHolds(accesses[..|accesses| - 1], kind);
      assert accesses == accesses[..|accesses| - 1] + [accesses[|accesses| - 1]];
    }
  }

  lemma {:induction false} ChangedHolds(accesses: seq<Record>)
    ensures Ascending(ChangedValues(accesses))
    ensures forall v :: v in ChangedValues(accesses) <==>
              exists r :: r in accesses && Changes(r) && r.post.Some? && r.post.value == v
  {
    if accesses != [] {
      var (front, last) := (accesses[..|accesses| - 1], accesses[|accesses| - 1]);
      ChangedHolds(front);
      assert accesses == front + [last];
      if Changes(last) && last.post.Some? {
        InsertValueAscending(ChangedValues(front), last.post.value);
      }
      hide Ascending, Changes;
    }
  }

  lemma {:induction false} CountersHold(accesses: seq<Record>)
    ensures Ascending(Counters(accesses))
    ensures forall v :: v in Counters(accesses) <==> exists r :: r in accesses && r.pc.Some? && v == r.pc.value % MODULUS
  {
    if accesses != [] {
      var (front, last) := (accesses[..|accesses| - 1], accesses[|accesses| - 1]);
      CountersHold(front);
      assert accesses == front + [last];
      if last.pc.Some? {
        InsertValueAscending(Counters(front), Hex32(last.pc.value));
      }
      hide Ascending;
    }
  }

  lemma HexHolds(values: seq<nat>)
    ensures forall v :: v in Hex32All(values) <==> exists w :: w in values && v == w % MODULUS
  {
    forall w | w in values ensures w % MODULUS in Hex32All(values) {
      var i :| 0 <= i < |values| && values[i] == w;
      assert Hex32All(values)[i] == Hex32(w);
    }
    forall v | v in Hex32All(values) ensures exists w :: w in values && v == w % MODULUS {
      var i :| 0 <= i < |values| && Hex32All(values)[i] == v;
      assert values[i] in values;
    }
  }

  lemma PlacesSnoc(front: seq<Record>, last: Record, key: Key, kind: Kind)
    ensures Places(front + [last], key, kind)
            == Places(front, key, kind)
               + if Kept(last) && KeyOf(last) == key && last.kind == kind then {|front|} else {}
  {
    var trace := front + [last];
    assert trace[|front|] == last;
    assert forall i :: 0 <= i < |front| ==> trace[i] == front[i];
    hide KeyOf, Kept;
  }

  lemma {:induction false} CountIs(trace: seq<Record>, key: Key, kind: Kind)
    ensures |OfKind(Accesses(trace, key), kind)| == |Places(trace, key, kind)|
  {
    if trace == [] {
      assert Places(trace, key, kind) == {};
    } else {
      var (front, last) := (trace[..|trace| - 1], trace[|trace| - 1]);
      hide Places, OfKind, Accesses;
      assert trace == front + [last];
      AccessesSnoc(front, last, key);
      CountIs(front, key, kind);
      KindSnoc(Accesses(front, key), last, kind);
      PlacesSnoc(front, last, key, kind);
      PlacesBelow(front, key, kind);
    }
  }

  lemma PlacesBelow(trace: seq<Record>, key: Key, kind: Kind)
    ensures |trace| !in Places(trace, key, kind)
  {
  }

  lemma KindSnoc(accesses: seq<Record>, last: Record, kind: Kind)
    ensures OfKind(accesses + [last], kind) == OfKind(accesses, kind) + if last.kind == kind then [last] else []
    ensures accesses + [] == accesses
  {
    assert (accesses + [last])[..|accesses|] == accesses;
  }

  lemma ReportedIff(trace: seq<Record>, key: Key)
    ensures forall r :: r in Accesses(trace, key) <==> Reported(trace, key, r)
  {
    AccessesHold(trace, key);
    hide Accesses;
  }

  lemma NonemptyIff(rs: seq<Record>)
    ensures rs != [] <==> exists r :: r in rs
  {
    if rs != [] {
      assert rs[0] in rs;
    }
  }

  lemma RowAccessed(tables: Tables, trace: seq<Record>, key: Key)
    ensures Accessed(trace, key, Row(tables, trace, key))
  {
    var accesses := Accesses(trace, key);
    CountIs(trace, key, Read);
    CountIs(trace, key, Write);
    ReportedIff(trace, key);
    OfKindHolds(accesses, Read);
    OfKindHolds(accesses, Write);
    TimesExact(accesses);
    NonemptyIff(accesses);
    NonemptyIff(OfKind(accesses, Read));
    NonemptyIff(OfKind(accesses, Write));
    hide Accesses, OfKind, Values, ChangedValues, Counters, FirstAt, LastAt, Places, Hex32All, Find, BaseOf, Reported;
  }

  lemma ValuesHold(accesses: seq<Record>)
    ensures forall v :: v in Hex32All(Values(accesses)) <==> exists r :: r in accesses && v == r.value % MODULUS
  {
    hide Values, Ascending, Hex32All;
    ValuesExact(accesses);
    HexHolds(Values(accesses));
    forall r | r in accesses ensures r.value in Values(accesses) {
      var i :| 0 <= i < |accesses| && accesses[i] == r;
      assert accesses[i].value == r.value;
    }
  }

  lemma ChangedHex(accesses: seq<Record>)
    ensures forall v :: v in Hex32All(ChangedValues(accesses)) <==>
              exists r :: r in accesses && Changes(r) && r.post.Some? && v == r.post.value % MODULUS
  {
    hide ChangedValues, Ascending, Hex32All, Changes;
    ChangedHolds(accesses);
    HexHolds(ChangedValues(accesses));
    forall r | r in accesses && Changes(r) && r.post.Some? ensures r.post.value in ChangedValues(accesses) {
    }
  }

  lemma RowListing(tables: Tables, trace: seq<Record>, key: Key)
    ensures Listing(trace, key, Row(tables, trace, key))
  {
    var accesses := Accesses(trace, key);
    ReportedIff(trace, key);
    OfKindHolds(accesses, Read);
    OfKindHolds(accesses, Write);
    ValuesHold(OfKind(accesses, Read));
    ValuesHold(OfKind(accesses, Write));
    ChangedHex(accesses);
    CountersHold(accesses);
    hide Accesses, OfKind, Values, ChangedValues, Counters, FirstAt, LastAt, Hex32All, Find, BaseOf, Reported, Ascending;
  }

  lemma {:induction false} FindFirst(known: seq<(nat, Info)>, address: nat)
    ensures Find(known, address).None? ==> forall i: nat :: !First(known, address, i)
    ensures forall i: nat :: First(known, address, i) ==> Find(known, address) == Some(known[i].1)
  {
    if known != [] {
      FindFirst(known[1..], address);
      forall i: nat | First(known, address, i) ensures Find(known, address) == Some(known[i].1) {
        if i > 0 {
          assert known[0].0 != address;
          assert First(known[1..], address, i - 1);
        }
      }
    }
  }

  lemma {:induction false} BaseFirst(bases: seq<(string, nat)>, region: string) returns (i: nat)
    requires BaseOf(bases, region).Some?
    ensures First(bases, region, i) && BaseOf(bases, region) == Some(bases[i].1)
  {
    if bases[0].0 == region {
      i := 0;
    } else {
      i := BaseFirst(bases[1..], region);
      i := i + 1;
    }
  }

  lemma {:induction false} FindsOne(known: seq<(nat, Info)>, address: nat) returns (i: nat)
    requires Find(known, address).Some?
    ensures First(known, address, i)
  {
    if known[0].0 == address {
      i := 0;
    } else {
      i := FindsOne(known[1..], address);
      i := i + 1;
    }
  }

  lemma RowPlaced(tables: Tables, trace: seq<Record>, key: Key)
    requires BaseOf(tables.bases, key.0).Some?
    ensures Placed(tables, key, Row(tables, trace, key))
  {
    var row := Row(tables, trace, key);
    var b := BaseFirst(tables.bases, key.0);
    RowNamed(tables, trace, key);
    hide Accesses, OfKind, Values, ChangedValues, Counters, FirstAt, LastAt, Hex32All, Find, BaseOf, First, FromInfo;
    assert row.offset == (key.1 - tables.bases[b].1) % MODULUS;
  }

  lemma RowNamed(tables: Tables, trace: seq<Record>, key: Key)
    ensures var row := Row(tables, trace, key);
            && (row.implemented <==> exists i: nat :: First(tables.known, key.1, i))
            && (forall i: nat :: First(tables.known, key.1, i) ==> FromInfo(tables, key, tables.known[i].1, row))
  {
    FindFirst(tables.known, key.1);
    if Find(tables.known, key.1).Some? {
      var i := FindsOne(tables.known, key.1);
      assert First(tables.known, key.1, i);
      RowInfo(tables, trace, key, tables.known[i].1);
    }
    hide First, Find, FromInfo, Row;
    RowImplemented(tables, trace, key);
  }

  lemma RowImplemented(tables: Tables, trace: seq<Record>, key: Key)
    ensures Row(tables, trace, key).implemented <==> Find(tables.known, key.1).Some?
  {
    hide Accesses, OfKind, Values, ChangedValues, Counters, FirstAt, LastAt, Hex32All, Find, BaseOf;
  }

  lemma RowInfo(tables: Tables, trace: seq<Record>, key: Key, info: Info)
    requires Find(tables.known, key.1) == Some(info)
    ensures FromInfo(tables, key, info, Row(tables, trace, key))
  {
    hide Accesses, OfKind, Values, ChangedValues, Counters, FirstAt, LastAt, Hex32All, Find, BaseOf;
  }

  /** Every row of a generated reference: the list has one row for each key, and each row's fields are those
      of its key. */
  lemma RowsDescribe(tables: Tables, trace: seq<Record>)
    requires Generate(tables, trace).Some?
    ensures var rows := Generate(tables, trace).value.registers;
            var keys := AllKeys(tables, trace, |tables.known|);
            && |rows| == |keys|
            && forall i :: 0 <= i < |rows| ==>
                 Accessed(trace, keys[i], rows[i]) && Listing(trace, keys[i], rows[i]) && Placed(tables, keys[i], rows[i])
  {
    var keys := AllKeys(tables, trace, |tables.known|);
    hide AllKeys, Row, CountWhere, Grouped, Accesses, Accessed, Listing, Placed, BaseOf;
    RowsAt(tables, trace, keys);
    forall i | 0 <= i < |keys|
      ensures Accessed(trace, keys[i], Row(tables, trace, keys[i]))
      ensures Listing(trace, keys[i], Row(tables, trace, keys[i])) && Placed(tables, keys[i], Row(tables, trace, keys[i]))
    {
      assert Complete(tables, Accesses(trace, keys[i]), keys[i]);
      RowAccessed(tables, trace, keys[i]);
      RowListing(tables, trace, keys[i]);
      RowPlaced(tables, trace, keys[i]);
    }
  }

  // ---------------------------------------------------------------- the statistics and their checks

  function RowsWith(rows: seq<Register>, feature: Feature): set<nat> {
    set i: nat | i < |rows| && Shows(rows[i], feature)
  }

  lemma RowsWithSnoc(front: seq<Register>, last: Register, feature: Feature)
    ensures RowsWith(front + [last], feature)
            == RowsWith(front, feature) + if Shows(last, feature) then {|front|} else {}
  {
    var rows := front + [last];
    assert rows[|front|] == last;
    assert forall i :: 0 <= i < |front| ==> rows[i] == front[i];
    hide Shows;
  }

  lemma {:induction false} CountIsSize(rows: seq<Register>, feature: Feature)
    ensures CountWhere(rows, feature) == |RowsWith(rows, feature)|
  {
    hide Shows;
    if rows == [] {
      assert RowsWith(rows, feature) == {};
    } else {
      var (front, last) := (rows[..|rows| - 1], rows[|rows| - 1]);
      CountIsSize(front, feature);
      RowsWithSnoc(front, last, feature);
      assert rows == front + [last];
    }
  }

  /** The number of values in the rows' lists of read and written values. */
  function ValueTotal(rows: seq<Register>): nat {
    if rows == [] then 0 else |rows[0].readValues| + |rows[0].writeValues| + ValueTotal(rows[1..])
  }

  lemma {:induction false} ValueTotalSnoc(front: seq<Register>, last: Register)
    ensures ValueTotal(front + [last]) == ValueTotal(front) + |last.readValues| + |last.writeValues|
  {
    if front != [] {
      ValueTotalSnoc(front[1..], last);
      assert (front + [last])[1..] == front[1..] + [last];
    } else {
      assert [] + [last] == [last] && [last][1..] == [];
    }
  }

  lemma {:induction false} ValuesCounted(rows: seq<Register>)
    ensures CountValues(rows) == ValueTotal(rows)
  {
    if rows != [] {
      var (front, last) := (rows[..|rows| - 1], rows[|rows| - 1]);
      ValuesCounted(front);
      ValueTotalSnoc(front, last);
      assert rows == front + [last];
    }
  }

  /** The statistics that are written, as sizes of sets of rows. */
  lemma StatisticsExact(tables: Tables, trace: seq<Record>)
    requires Generate(tables, trace).Some?
    ensures var (rows, stats) := (Generate(tables, trace).value.registers, Generate(tables, trace).value.statistics);
            && stats.registers == |rows|
            && stats.observed == |set i: nat | i < |rows| && rows[i].observed|
            && stats.implemented == |set i: nat | i < |rows| && rows[i].implemented|
            && stats.implementedOnly == |set i: nat | i < |rows| && rows[i].implemented && !rows[i].observed|
            && stats.unknown == |set i: nat | i < |rows| && rows[i].name.None?|
            && stats.regions == |set row | row in rows :: row.region|
            && stats.values == ValueTotal(rows)
  {
    var rows := Generate(tables, trace).value.registers;
    GeneratesIff(tables, trace);
    hide AllKeys, Row, Rows, Grouped, CountWhere, Located, CountValues, ValueTotal;
    CountIsSize(rows, Observed);
    CountIsSize(rows, Implemented);
    CountIsSize(rows, ImplementedOnly);
    CountIsSize(rows, Unnamed);
    ValuesCounted(rows);
    SetsAre(rows);
  }

  lemma SetsAre(rows: seq<Register>)
    ensures RowsWith(rows, Observed) == set i: nat | i < |rows| && rows[i].observed
    ensures RowsWith(rows, Implemented) == set i: nat | i < |rows| && rows[i].implemented
    ensures RowsWith(rows, ImplementedOnly) == set i: nat | i < |rows| && rows[i].implemented && !rows[i].observed
    ensures RowsWith(rows, Unnamed) == set i: nat | i < |rows| && rows[i].name.None?
    ensures RegionsOf(rows) == set row | row in rows :: row.region
  {
  }

  /** What the reference's own check asks of one row. */
  method CheckRow(row: Register) returns (ok: bool)
    ensures ok <==> EntryChecks(row)
  {
    if !row.observed && !row.implemented {
      return false;
    }
    if row.implemented && (row.name.None? || row.name.value == "" || row.meaning == "unknown; factual observed values only") {
      return false;
    }
    if row.implemented && (row.source.None? || row.source.value == "") {
      return false;
    }
    if !row.implemented && (row.source.Some? || !row.observed) {
      return false;
    }
    ok := if row.observed then row.readCount + row.writeCount > 0 else row.access == NotObserved;
  }

  /** The addresses are sorted and none is listed twice. */
  method CheckOrder(rows: seq<Register>) returns (ok: bool)
    ensures ok <==> Ascends(rows) && NoDuplicates(rows)
  {
    for i := 0 to |rows|
      invariant forall j, k :: 0 <= j < k < i ==> rows[j].address < rows[k].address
    {
      if i > 0 && rows[i].address <= rows[i - 1].address {
        return false;
      }
    }
    ok := true;
  }

  method CountRows(rows: seq<Register>) returns (observed: nat, implemented: nat, only: nat, unknown: nat)
    ensures observed == CountWhere(rows, Observed) && implemented == CountWhere(rows, Implemented)
    ensures only == CountWhere(rows, ImplementedOnly) && unknown == CountWhere(rows, Unnamed)
  {
    observed, implemented, only, unknown := 0, 0, 0, 0;
    for i := 0 to |rows|
      invariant observed == CountWhere(rows[..i], Observed) && implemented == CountWhere(rows[..i], Implemented)
      invariant only == CountWhere(rows[..i], ImplementedOnly) && unknown == CountWhere(rows[..i], Unnamed)
    {
      assert rows[..i + 1][..i] == rows[..i];
      observed := if rows[i].observed then observed + 1 else observed;
      implemented := if rows[i].implemented then implemented + 1 else implemented;
      only := if rows[i].implemented && !rows[i].observed then only + 1 else only;
      unknown := if rows[i].name.None? then unknown + 1 else unknown;
    }
    assert rows[..|rows|] == rows;
  }

  /** The requirements of the reference's own check, on its rows and its statistics. */
  method CheckRows(reference: Reference) returns (ok: bool)
    ensures ok <==> Checks(reference)
  {
    hide EntryChecks, CountWhere, Ascends, NoDuplicates;
    var (rows, stats) := (reference.registers, reference.statistics);
    ok := CheckOrder(rows);
    if !ok {
      return;
    }
    for i := 0 to |rows|
      invariant forall j :: 0 <= j < i ==> EntryChecks(rows[j])
    {
      ok := CheckRow(rows[i]);
      if !ok {
        return;
      }
    }
    var observed, implemented, only, unknown := CountRows(rows);
    ok := stats.registers == |rows| && stats.observed == observed && stats.implemented == implemented
          && stats.implementedOnly == only && stats.unknown == unknown;
  }
}
