/** Expected signal edges: the values a trace must show, in order, though not next to each other. */
module Edges {

  /** `indices` picks out `expected` from `values`, left to right. */
  ghost predicate Embeds(indices: seq<nat>, expected: seq<string>, values: seq<string>) {
    && |indices| == |expected|
    && (forall i :: 0 <= i < |indices| ==> indices[i] < |values| && values[indices[i]] == expected[i])
    && (forall i, j :: 0 <= i < j < |indices| ==> indices[i] < indices[j])
  }

  ghost predicate Subsequence(expected: seq<string>, values: seq<string>) {
    exists indices :: Embeds(indices, expected, values)
  }

  /** How far greedy matching gets. */
  function Greedy(values: seq<string>, expected: seq<string>, position: nat): (p: nat)
    requires position <= |expected|
    ensures position <= p <= |expected|
  {
    if values == [] then position
    else if position < |expected| && values[0] == expected[position] then
      Greedy(values[1..], expected, position + 1)
    else Greedy(values[1..], expected, position)
  }

  /** What greedy matching has matched is embedded. */
  lemma {:induction false} GreedySound(values: seq<string>, expected: seq<string>, position: nat)
    requires position <= |expected|
    ensures Subsequence(expected[position..Greedy(values, expected, position)], values)
  {
    var p := Greedy(values, expected, position);
    if values == [] {
      assert Embeds([], expected[position..p], values);
    } else {
      var next := if position < |expected| && values[0] == expected[position] then position + 1 else position;
      GreedySound(values[1..], expected, next);
      var tail :| Embeds(tail, expected[next..p], values[1..]);
      var shifted := seq(|tail|, i requires 0 <= i < |tail| => tail[i] + 1);
      if next == position {
        assert Embeds(shifted, expected[position..p], values);
      } else {
        assert Embeds([0] + shifted, expected[position..p], values);
      }
    }
  }

  /** Whatever can be embedded, greedy matching finds: it is never behind any embedding. */
  lemma {:induction false} GreedyComplete(values: seq<string>, expected: seq<string>, position: nat, indices: seq<nat>)
    requires position <= |expected|
    requires Embeds(indices, expected[position..], values)
    ensures Greedy(values, expected, position) == |expected|
    decreases |values|
  {
    if values == [] {
      assert |indices| == 0;
    } else if position < |expected| {
      assert indices[0] < |values| && values[indices[0]] == expected[position];
      if values[0] == expected[position] {
        var rest := seq(|indices| - 1, i requires 0 <= i < |indices| - 1 => (indices[i + 1] - 1) as nat);
        assert Embeds(rest, expected[position + 1..], values[1..]);
        GreedyComplete(values[1..], expected, position + 1, rest);
      } else {
        assert forall i :: 0 <= i < |indices| ==> 0 < indices[i] by {
          assert forall i :: 0 < i < |indices| ==> indices[0] < indices[i];
        }
        var rest := seq(|indices|, i requires 0 <= i < |indices| => (indices[i] - 1) as nat);
        assert Embeds(rest, expected[position..], values[1..]);
        GreedyComplete(values[1..], expected, position, rest);
      }
    }
  }

  /** The check's loop: true exactly when the expected values form a subsequence. */
  method ContainsOrderedValues(events: seq<(nat, string)>, expected: seq<string>) returns (found: bool)
    ensures found <==> Subsequence(expected, Levels(events))
  {
    var position := 0;
    for k := 0 to |events|
      invariant position <= |expected|
      invariant Greedy(Levels(events), expected, 0) == Greedy(Levels(events[k..]), expected, position)
    {
      assert events[k..][1..] == events[k + 1..];
      if position < |expected| && events[k].1 == expected[position] {
        position := position + 1;
      }
    }
    GreedyIff(Levels(events), expected);
    found := position == |expected|;
  }

  function Levels(events: seq<(nat, string)>): (values: seq<string>)
    ensures |values| == |events|
    ensures forall i :: 0 <= i < |events| ==> values[i] == events[i].1
  {
    if events == [] then [] else [events[0].1] + Levels(events[1..])
  }

  lemma GreedyIff(values: seq<string>, expected: seq<string>)
    ensures Greedy(values, expected, 0) == |expected| <==> Subsequence(expected, values)
  {
    GreedySound(values, expected, 0);
    assert expected[0..|expected|] == expected && expected[0..] == expected;
    if indices :| Embeds(indices, expected, values) {
      GreedyComplete(values, expected, 0, indices);
    }
  }
}
