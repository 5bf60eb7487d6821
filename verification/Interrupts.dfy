/** The interrupt-trace monitor: one pass over the records, against a declarative meaning. */
module Interrupts {
  import opened Options

  /** One record of the trace; a field that is missing or of the wrong kind is `None`. */
  datatype Record = Record(line: Option<int>, source: Option<string>, asserted: Option<bool>)

  /** What the contract expects of one source. */
  datatype Entry = Entry(signal: string, minimumPairs: int)

  type Contract = map<int, Entry>

  // ---------------------------------------------------------------- what a trace must be

  /** Assert, deassert, `k` times. */
  function Pairs(k: nat): (s: seq<bool>)
    ensures |s| == 2 * k
  {
    if k == 0 then [] else Pairs(k - 1) + [true, false]
  }

  /** The levels recorded for one source. */
  function Levels(trace: seq<Record>, source: int): seq<bool> {
    if trace == [] then []
    else
      var last := trace[|trace| - 1];
      Levels(trace[..|trace| - 1], source)
      + if last.line == Some(source) && last.asserted.Some? then [last.asserted.value] else []
  }

  ghost predicate WellFormed(contract: Contract, record: Record) {
    && record.line.Some? && record.line.value in contract
    && record.source == Some(contract[record.line.value].signal)
    && record.asserted.Some?
  }

  ghost predicate Balanced(levels: seq<bool>, minimum: int) {
    exists k: nat :: k >= minimum && levels == Pairs(k)
  }

  /** A non-empty trace of well-formed records, of every source of the contract and no other, each
      asserted and deasserted alternately, often enough. */
  ghost predicate Conforms(contract: Contract, trace: seq<Record>) {
    && trace != []
    && (forall i :: 0 <= i < |trace| ==> WellFormed(contract, trace[i]))
    && (forall source :: source in contract ==> exists i :: 0 <= i < |trace| && trace[i].line == Some(source))
    && (forall source :: source in contract ==>
          Balanced(Levels(trace, source), contract[source].minimumPairs))
  }

  // ---------------------------------------------------------------- what the monitor keeps track of

  function Count(levels: seq<bool>, level: bool): (n: nat) {
    if levels == [] then 0
    else Count(levels[..|levels| - 1], level) + if levels[|levels| - 1] == level then 1 else 0
  }

  predicate Alternates(levels: seq<bool>) {
    forall i :: 0 < i < |levels| ==> levels[i] != levels[i - 1]
  }

  lemma CountSnoc(levels: seq<bool>, last: bool, level: bool)
    ensures Count(levels + [last], level) == Count(levels, level) + if last == level then 1 else 0
  {
    assert (levels + [last])[..|levels|] == levels;
  }

  lemma AlternatesSnoc(levels: seq<bool>, last: bool)
    ensures Alternates(levels + [last]) <==> Alternates(levels) && (levels == [] || levels[|levels| - 1] != last)
  {
    var after := levels + [last];
    if Alternates(after) {
      forall i | 0 < i < |levels| ensures levels[i] != levels[i - 1] {
        assert after[i] != after[i - 1];
      }
      assert levels != [] ==> after[|levels|] != after[|levels| - 1];
    }
  }

  lemma {:induction false} PairsMeasured(k: nat)
    ensures Alternates(Pairs(k)) && Count(Pairs(k), true) == k && Count(Pairs(k), false) == k
    ensures k > 0 ==> !Pairs(k)[2 * k - 1]
  {
    if k != 0 {
      PairsMeasured(k - 1);
      var before := Pairs(k - 1);
      assert Pairs(k) == before + [true] + [false];
      CountSnoc(before, true, true);
      CountSnoc(before, true, false);
      CountSnoc(before + [true], false, true);
      CountSnoc(before + [true], false, false);
      AlternatesSnoc(before, true);
      AlternatesSnoc(before + [true], false);
    }
  }

  /** An alternating stream that ends low is pairs, or pairs after a stray deassertion. */
  lemma {:induction false} AlternatingEndsLow(levels: seq<bool>)
    requires Alternates(levels) && levels != [] && !levels[|levels| - 1]
    ensures var k := Count(levels, true);
            if levels[0] then levels == Pairs(k) && Count(levels, false) == k
            else Count(levels, false) == k + 1
    decreases |levels|
  {
    var n := |levels|;
    if n == 1 {
      CountSnoc([], levels[0], true);
      CountSnoc([], levels[0], false);
      assert levels == [] + [levels[0]];
    } else {
      var before := levels[..n - 2];
      assert levels[n - 1] != levels[n - 2];
      assert levels == before + [true] + [false];
      CountSnoc(before, true, true);
      CountSnoc(before, true, false);
      CountSnoc(before + [true], false, true);
      CountSnoc(before + [true], false, false);
      if before == [] {
        assert levels == Pairs(0) + [true, false] == Pairs(1);
      } else {
        assert levels[n - 2] != levels[n - 3];
        AlternatingEndsLow(before);
        var k := Count(before, true);
        if levels[0] {
          assert levels == Pairs(k) + [true, false] == Pairs(k + 1);
        }
      }
    }
  }

  /** What the monitor checks at the end is what the contract asks of a source that was seen. */
  lemma BalancedIff(levels: seq<bool>, minimum: int)
    requires levels != []
    ensures Balanced(levels, minimum) <==>
            Alternates(levels) && Count(levels, true) >= minimum && Count(levels, true) == Count(levels, false)
            && !levels[|levels| - 1]
  {
    if k: nat :| k >= minimum && levels == Pairs(k) {
      PairsMeasured(k);
    }
    if Alternates(levels) && !levels[|levels| - 1] {
      AlternatingEndsLow(levels);
    }
  }

  /** What the monitor knows of one stream. */
  ghost predicate Knows(levels: seq<bool>, prior: Option<bool>, counts: (nat, nat)) {
    && Alternates(levels)
    && prior == (if levels == [] then None else Some(levels[|levels| - 1]))
    && counts == (Count(levels, true), Count(levels, false))
  }

  function Lookup(prior: map<int, bool>, source: int): Option<bool> {
    if source in prior then Some(prior[source]) else None
  }

  /** The monitor's variables after the records in `done`. */
  ghost predicate Tracks(contract: Contract, done: seq<Record>, prior: map<int, bool>, counts: map<int, (nat, nat)>) {
    && (forall i :: 0 <= i < |done| ==> WellFormed(contract, done[i]))
    && counts.Keys == contract.Keys
    && (forall source :: source in contract ==> Knows(Levels(done, source), Lookup(prior, source), counts[source]))
  }

  function Bump(counts: (nat, nat), level: bool): (nat, nat) {
    if level then (counts.0 + 1, counts.1) else (counts.0, counts.1 + 1)
  }

  lemma KnowsNext(levels: seq<bool>, prior: Option<bool>, counts: (nat, nat), level: bool)
    requires Knows(levels, prior, counts) && prior != Some(level)
    ensures Knows(levels + [level], Some(level), Bump(counts, level))
  {
    CountSnoc(levels, level, true);
    CountSnoc(levels, level, false);
    AlternatesSnoc(levels, level);
    hide Alternates, Count;
  }

  lemma LevelsSnoc(done: seq<Record>, record: Record, source: int)
    ensures Levels(done + [record], source)
            == if record.line == Some(source) && record.asserted.Some? then Levels(done, source) + [record.asserted.value]
               else Levels(done, source)
  {
    assert (done + [record])[..|done|] == done;
  }

  lemma TracksNext(contract: Contract, done: seq<Record>, record: Record, prior: map<int, bool>, counts: map<int, (nat, nat)>)
    requires Tracks(contract, done, prior, counts) && WellFormed(contract, record)
    requires Lookup(prior, record.line.value) != Some(record.asserted.value)
    ensures var source, level := record.line.value, record.asserted.value;
            Tracks(contract, done + [record], prior[source := level], counts[source := Bump(counts[source], level)])
  {
    var line, level := record.line.value, record.asserted.value;
    hide Levels, Knows, Bump;
    forall source | source in contract
      ensures Knows(Levels(done + [record], source), Lookup(prior[line := level], source),
                    counts[line := Bump(counts[line], level)][source])
    {
      LevelsSnoc(done, record, source);
      if source == line {
        KnowsNext(Levels(done, source), Lookup(prior, source), counts[source], level);
      }
    }
  }

  /** The record at which the monitor stops: nothing after it can repair the trace. */
  lemma {:induction false} LevelsPrefix(trace: seq<Record>, n: nat, source: int)
    requires n <= |trace|
    ensures Levels(trace[..n], source) <= Levels(trace, source)
  {
    if n == |trace| {
      assert trace[..n] == trace;
    } else {
      assert trace[..|trace| - 1][..n] == trace[..n];
      LevelsPrefix(trace[..|trace| - 1], n, source);
    }
  }

  lemma RepeatNeverConforms(contract: Contract, trace: seq<Record>, n: nat, source: int)
    requires n < |trace| && source in contract && !Alternates(Levels(trace[..n + 1], source))
    ensures !Conforms(contract, trace)
  {
    LevelsPrefix(trace, n + 1, source);
    var part, whole := Levels(trace[..n + 1], source), Levels(trace, source);
    var i :| 0 < i < |part| && part[i] == part[i - 1];
    assert whole[i] == whole[i - 1];
    if Conforms(contract, trace) {
      var k: nat :| whole == Pairs(k);
      PairsMeasured(k);
    }
  }

  lemma {:induction false} LevelsSeen(trace: seq<Record>, source: int, i: nat)
    requires i < |trace| && trace[i].line == Some(source)
    requires forall j :: 0 <= j < |trace| ==> trace[j].asserted.Some?
    ensures Levels(trace, source) != []
  {
    if i < |trace| - 1 {
      LevelsSeen(trace[..|trace| - 1], source, i);
    }
  }

  function Observed(trace: seq<Record>): (s: set<Option<int>>)
    ensures forall line :: line in s <==> exists i :: 0 <= i < |trace| && trace[i].line == line
  {
    set i | 0 <= i < |trace| :: trace[i].line
  }

  function Expected(contract: Contract): (s: set<Option<int>>)
    ensures None !in s && forall source :: Some(source) in s <==> source in contract
  {
    set source | source in contract :: Some(source)
  }

  /** The loop over the records: the levels and counts of each source, or `None` at the first record
      that cannot belong to a conforming trace. */
  method Scan(contract: Contract, trace: seq<Record>) returns (state: Option<(map<int, bool>, map<int, (nat, nat)>)>)
    ensures state.None? ==> !Conforms(contract, trace)
    ensures state.Some? ==> Tracks(contract, trace, state.value.0, state.value.1)
  {
    hide Levels, Count, Alternates;
    var prior: map<int, bool> := map[];
    var counts: map<int, (nat, nat)> := map source | source in contract :: (0, 0);
    TracksNothing(contract, counts);
    var index := 0;
    while index < |trace|
      invariant 0 <= index <= |trace|
      invariant Tracks(contract, trace[..index], prior, counts)
    {
      var record := trace[index];
      assert trace[..index + 1] == trace[..index] + [record];
      if record.line.None? || record.line.value !in contract {
        return None;
      }
      var source := record.line.value;
      if record.source != Some(contract[source].signal) {
        return None;
      }
      if record.asserted.None? {
        return None;
      }
      var level := record.asserted.value;
      if source in prior && prior[source] == level {
        LevelsSnoc(trace[..index], record, source);
        AlternatesSnoc(Levels(trace[..index], source), level);
        assert Lookup(prior, source) == Some(level);
        RepeatNeverConforms(contract, trace, index, source);
        return None;
      }
      TracksNext(contract, trace[..index], record, prior, counts);
      prior := prior[source := level];
      counts := counts[source := Bump(counts[source], level)];
      index := index + 1;
    }
    assert trace[..index] == trace;
    state := Some((prior, counts));
  }

  ghost predicate Settled(contract: Contract, trace: seq<Record>, source: int)
    requires source in contract
  {
    Balanced(Levels(trace, source), contract[source].minimumPairs)
  }

  ghost predicate Seen(trace: seq<Record>, source: int) {
    exists i :: 0 <= i < |trace| && trace[i].line == Some(source)
  }

  lemma SettledIff(contract: Contract, trace: seq<Record>, prior: map<int, bool>, counts: map<int, (nat, nat)>, source: int)
    requires Tracks(contract, trace, prior, counts) && source in contract && Seen(trace, source)
    ensures source in prior && source in counts
    ensures Settled(contract, trace, source) <==>
            Enough(contract[source], prior[source], counts[source])
  {
    var i :| 0 <= i < |trace| && trace[i].line == Some(source);
    LevelsSeen(trace, source, i);
    assert Lookup(prior, source).Some?;
    BalancedIff(Levels(trace, source), contract[source].minimumPairs);
  }

  lemma ConformsIff(contract: Contract, trace: seq<Record>, prior: map<int, bool>, counts: map<int, (nat, nat)>)
    requires trace != [] && Tracks(contract, trace, prior, counts)
    requires forall source :: source in contract ==> Seen(trace, source)
    ensures Conforms(contract, trace) <==> forall source :: source in contract ==> Settled(contract, trace, source)
  {
    hide Levels, Balanced, WellFormed;
  }

  lemma MismatchNeverConforms(contract: Contract, trace: seq<Record>)
    ensures Observed(trace) != Expected(contract) ==> !Conforms(contract, trace)
    ensures Observed(trace) == Expected(contract) ==> forall source :: source in contract ==> Seen(trace, source)
  {
    ObservedIff(contract, trace);
    hide Levels, Balanced;
  }

  predicate Enough(entry: Entry, prior: bool, counts: (nat, nat)) {
    counts.0 >= entry.minimumPairs && counts.0 == counts.1 && !prior
  }

  /** The contract's list as a table; a source listed twice keeps its last entry. */
  function BySource(expected: seq<(int, Entry)>): (contract: Contract)
    ensures forall source :: source in contract <==> exists i :: 0 <= i < |expected| && expected[i].0 == source
  {
    if expected == [] then map[]
    else BySource(expected[..|expected| - 1])[expected[|expected| - 1].0 := expected[|expected| - 1].1]
  }

  /** A source keeps its last entry, whole: the signal and the minimum that the contract lists for it. */
  lemma {:induction false} LastEntryKept(expected: seq<(int, Entry)>, i: nat)
    requires i < |expected| && forall j :: i < j < |expected| ==> expected[j].0 != expected[i].0
    ensures expected[i].0 in BySource(expected) && BySource(expected)[expected[i].0] == expected[i].1
  {
    if i < |expected| - 1 {
      LastEntryKept(expected[..|expected| - 1], i);
    }
  }

  /** The loop over the contract's sources. */
  method Settle(expected: seq<(int, Entry)>, prior: map<int, bool>, counts: map<int, (nat, nat)>) returns (settled: bool)
    requires prior.Keys >= BySource(expected).Keys && counts.Keys >= BySource(expected).Keys
    ensures var contract := BySource(expected);
            settled <==> forall source :: source in contract ==> Enough(contract[source], prior[source], counts[source])
  {
    var contract := BySource(expected);
    hide BySource, Enough;
    var k := 0;
    while k < |expected|
      invariant 0 <= k <= |expected|
      invariant forall i :: 0 <= i < k ==>
                  Enough(contract[expected[i].0], prior[expected[i].0], counts[expected[i].0])
    {
      var source := expected[k].0;
      if !Enough(contract[source], prior[source], counts[source]) {
        return false;
      }
      k := k + 1;
    }
    settled := true;
  }

  /** The monitor accepts a trace exactly when it conforms to the contract. */
  method Monitor(expected: seq<(int, Entry)>, trace: seq<Record>) returns (accepted: bool)
    ensures accepted <==> Conforms(BySource(expected), trace)
  {
    var contract := BySource(expected);
    MismatchNeverConforms(contract, trace);
    if trace == [] || Observed(trace) != Expected(contract) {
      return false;
    }
    var state := Scan(contract, trace);
    if state.None? {
      return false;
    }
    var (prior, counts) := state.value;
    ConformsIff(contract, trace, prior, counts);
    forall source | source in contract
      ensures source in prior && source in counts
      ensures Settled(contract, trace, source) <==> Enough(contract[source], prior[source], counts[source])
    {
      SettledIff(contract, trace, prior, counts, source);
    }
    hide Settled, Enough, Conforms, Tracks, Seen, Observed, Expected, BySource;
    accepted := Settle(expected, prior, counts);
  }

  lemma TracksNothing(contract: Contract, counts: map<int, (nat, nat)>)
    requires counts.Keys == contract.Keys && forall source :: source in contract ==> counts[source] == (0, 0)
    ensures Tracks(contract, [], map[], counts)
  {
  }

  lemma ObservedIff(contract: Contract, trace: seq<Record>)
    ensures Observed(trace) == Expected(contract) <==>
            && (forall i :: 0 <= i < |trace| ==> trace[i].line.Some? && trace[i].line.value in contract)
            && (forall source :: source in contract ==> Seen(trace, source))
  {
    var observed, expected := Observed(trace), Expected(contract);
    if observed == expected {
      forall i | 0 <= i < |trace| ensures trace[i].line.Some? && trace[i].line.value in contract {
        assert trace[i].line in observed;
      }
      forall source | source in contract ensures Seen(trace, source) {
        assert Some(source) in expected;
      }
    }
    if (forall i :: 0 <= i < |trace| ==> trace[i].line.Some? && trace[i].line.value in contract)
       && forall source :: source in contract ==> Seen(trace, source) {
      assert observed == expected;
    }
  }
}
