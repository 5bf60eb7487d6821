/** Finding the register accesses of a driver: calls to the two audited primitives, and the first
    argument of each. */
module Scanner {
  import opened Options

  datatype Direction = Reading | Writing

  /** The driver's text as tokens, comments and literals removed. */
  datatype Token =
    | Primitive(direction: Direction)
    | Open
    | Close
    | Comma
    | Plus
    | Register(symbol: string)
    | Number(value: nat, hexadecimal: bool)
    | Other

  datatype Call = Call(direction: Direction, argument: seq<Token>)

  // ---------------------------------------------------------------- the first argument

  /** The nesting depth just before token `k`, starting inside one parenthesis at `start`. */
  function Depth(ts: seq<Token>, start: nat, k: nat): int
    requires start <= k <= |ts|
  {
    if k == start then 1
    else Depth(ts, start, k - 1) + (if ts[k - 1].Open? then 1 else if ts[k - 1].Close? then -1 else 0)
  }

  /** A comma or closing parenthesis at depth one. */
  predicate Ends(ts: seq<Token>, start: nat, k: nat)
    requires start <= k < |ts|
  {
    Depth(ts, start, k) == 1 && (ts[k].Comma? || ts[k].Close?)
  }

  /** The argument runs from `start` up to the first such token. */
  ghost predicate IsCut(ts: seq<Token>, start: nat, k: nat) {
    start <= k < |ts| && Ends(ts, start, k) && forall j :: start <= j < k ==> !Ends(ts, start, j)
  }

  /** The scanner's loop, as a function of its cursor and depth. */
  function CutFrom(ts: seq<Token>, cursor: nat, depth: nat): (k: Option<nat>)
    requires cursor <= |ts| && depth >= 1
    ensures k.Some? ==> cursor <= k.value < |ts|
    decreases |ts| - cursor
  {
    if cursor == |ts| then None
    else if ts[cursor].Open? then CutFrom(ts, cursor + 1, depth + 1)
    else if ts[cursor].Close? then if depth == 1 then Some(cursor) else CutFrom(ts, cursor + 1, depth - 1)
    else if ts[cursor].Comma? && depth == 1 then Some(cursor)
    else CutFrom(ts, cursor + 1, depth)
  }

  lemma {:induction false} CutSound(ts: seq<Token>, start: nat, cursor: nat, depth: nat)
    requires start <= cursor <= |ts| && depth >= 1 && Depth(ts, start, cursor) == depth
    requires forall j :: start <= j < cursor ==> !Ends(ts, start, j)
    ensures var k := CutFrom(ts, cursor, depth);
            if k.Some? then IsCut(ts, start, k.value)
            else forall j :: start <= j < |ts| ==> !Ends(ts, start, j)
    decreases |ts| - cursor
  {
    if cursor < |ts| {
      assert Ends(ts, start, cursor) <==> depth == 1 && (ts[cursor].Comma? || ts[cursor].Close?);
      if ts[cursor].Open? {
        CutSound(ts, start, cursor + 1, depth + 1);
      } else if ts[cursor].Close? {
        if depth > 1 {
          CutSound(ts, start, cursor + 1, depth - 1);
        }
      } else if !(ts[cursor].Comma? && depth == 1) {
        CutSound(ts, start, cursor + 1, depth);
      }
    }
  }

  /** The scanner finds the first depth-one comma or the matching parenthesis, whichever comes first;
      it gives up exactly when there is neither. */
  lemma CutIff(ts: seq<Token>, start: nat, k: nat)
    requires start <= |ts|
    ensures CutFrom(ts, start, 1) == Some(k) <==> IsCut(ts, start, k)
  {
    CutSound(ts, start, start, 1);
    var found := CutFrom(ts, start, 1);
    if IsCut(ts, start, k) && found.Some? {
      OneCut(ts, start, k, found.value);
    }
  }

  lemma OneCut(ts: seq<Token>, start: nat, j: nat, k: nat)
    requires IsCut(ts, start, j) && IsCut(ts, start, k)
    ensures j == k
  {
    assert Ends(ts, start, j) && Ends(ts, start, k);
  }

  /** One call's first argument: the tokens up to the cut. */
  method FirstArgument(ts: seq<Token>, start: nat) returns (argument: Option<seq<Token>>)
    requires start <= |ts|
    ensures argument == (var k := CutFrom(ts, start, 1); if k.None? then None else Some(ts[start..k.value]))
  {
    var cursor: nat := start;
    var depth: nat := 1;
    while cursor < |ts|
      invariant start <= cursor <= |ts| && depth >= 1
      invariant CutFrom(ts, start, 1) == CutFrom(ts, cursor, depth)
    {
      if ts[cursor].Open? {
        depth := depth + 1;
      } else if ts[cursor].Close? {
        depth := depth - 1;
        if depth == 0 {
          return Some(ts[start..cursor]);
        }
      } else if ts[cursor].Comma? && depth == 1 {
        return Some(ts[start..cursor]);
      }
      cursor := cursor + 1;
    }
    argument := None;
  }

  // ---------------------------------------------------------------- all calls

  /** A primitive's name, directly followed by a parenthesis. */
  predicate IsCall(ts: seq<Token>, p: nat) {
    p + 1 < |ts| && ts[p].Primitive? && ts[p + 1].Open?
  }

  /** The calls from position `p` on, nested ones included; `None` when one is unbalanced. */
  function CallsFrom(ts: seq<Token>, p: nat): Option<seq<Call>>
    decreases |ts| - p
  {
    if p >= |ts| then Some([])
    else if IsCall(ts, p) then
      var k := CutFrom(ts, p + 2, 1);
      var rest := CallsFrom(ts, p + 2);
      if k.None? || rest.None? then None
      else Some([Call(ts[p].direction, ts[p + 2..k.value])] + rest.value)
    else CallsFrom(ts, p + 1)
  }

  lemma {:induction false} CallsFail(ts: seq<Token>, p: nat, q: nat)
    requires p <= q < |ts| && IsCall(ts, q) && CutFrom(ts, q + 2, 1).None?
    ensures CallsFrom(ts, p).None?
    decreases q - p
  {
    if p < q {
      CallsFail(ts, if IsCall(ts, p) then p + 2 else p + 1, q);
    }
  }

  /** Every position from `p` on at which a call starts, in order. */
  function CallPositions(ts: seq<Token>, p: nat): (at: seq<nat>)
    ensures forall q: nat :: q in at <==> p <= q && IsCall(ts, q)
    ensures forall i, j :: 0 <= i < j < |at| ==> at[i] < at[j]
    decreases |ts| - p
  {
    if p >= |ts| then []
    else
      var rest := CallPositions(ts, p + 1);
      assert forall i :: 0 <= i < |rest| ==> rest[i] in rest;
      if IsCall(ts, p) then [p] + rest else rest
  }

  /** The call at a position, when its first argument ends. */
  function CallAt(ts: seq<Token>, q: nat): Option<Call> {
    if !IsCall(ts, q) then None
    else
      var k := CutFrom(ts, q + 2, 1);
      if k.None? then None else Some(Call(ts[q].direction, ts[q + 2..k.value]))
  }

  /** One call per position, in order; no list at all exactly when one of them is unbalanced. */
  ghost predicate Lists(ts: seq<Token>, calls: Option<seq<Call>>, at: seq<nat>) {
    if calls.None? then exists i :: 0 <= i < |at| && CallAt(ts, at[i]).None?
    else |calls.value| == |at| && forall i :: 0 <= i < |at| ==> CallAt(ts, at[i]) == Some(calls.value[i])
  }

  lemma ListsCons(ts: seq<Token>, calls: Option<seq<Call>>, at: seq<nat>, q: nat)
    requires Lists(ts, calls, at)
    ensures var call := CallAt(ts, q);
            Lists(ts, if call.None? || calls.None? then None else Some([call.value] + calls.value), [q] + at)
  {
    hide CallAt;
    var all := [q] + at;
    if CallAt(ts, q).None? {
      assert CallAt(ts, all[0]).None?;
    } else if calls.None? {
      var i :| 0 <= i < |at| && CallAt(ts, at[i]).None?;
      assert CallAt(ts, all[i + 1]).None?;
    }
  }

  /** The list has one call for every position at which one starts, in order, and there is a list exactly
      when every one of them is balanced. */
  lemma {:induction false} CallsListed(ts: seq<Token>, p: nat)
    ensures Lists(ts, CallsFrom(ts, p), CallPositions(ts, p))
    decreases |ts| - p
  {
    hide CutFrom, Lists;
    if p >= |ts| {
      ListsNothing(ts);
    } else if IsCall(ts, p) {
      CallsListed(ts, p + 2);
      PositionsSkip(ts, p);
      ListsCons(ts, CallsFrom(ts, p + 2), CallPositions(ts, p + 2), p);
    } else {
      CallsListed(ts, p + 1);
    }
  }

  lemma ListsNothing(ts: seq<Token>)
    ensures Lists(ts, Some([]), [])
  {
  }

  lemma PositionsSkip(ts: seq<Token>, p: nat)
    requires IsCall(ts, p)
    ensures CallPositions(ts, p) == [p] + CallPositions(ts, p + 2)
  {
    assert !IsCall(ts, p + 1);
  }

  /** The audit's list of calls. */
  method MmioCalls(ts: seq<Token>) returns (calls: Option<seq<Call>>)
    ensures calls == CallsFrom(ts, 0)
    ensures Lists(ts, calls, CallPositions(ts, 0))
  {
    CallsListed(ts, 0);
    hide Lists;
    var found: seq<Call> := [];
    var p: nat := 0;
    BehindNothing(CallsFrom(ts, 0));
    while p < |ts|
      invariant CallsFrom(ts, 0) == Behind(found, CallsFrom(ts, p))
      decreases |ts| - p
    {
      if p + 1 < |ts| && ts[p].Primitive? && ts[p + 1].Open? {
        var argument := FirstArgument(ts, p + 2);
        if argument.None? {
          return None;
        }
        var call := Call(ts[p].direction, argument.value);
        BehindOne(found, call, CallsFrom(ts, p + 2));
        found := found + [call];
        p := p + 2;
      } else {
        p := p + 1;
      }
    }
    assert found + [] == found;
    calls := Some(found);
  }

  function Behind(found: seq<Call>, rest: Option<seq<Call>>): Option<seq<Call>> {
    if rest.None? then None else Some(found + rest.value)
  }

  lemma BehindNothing(rest: Option<seq<Call>>)
    ensures Behind([], rest) == rest
  {
    if rest.Some? {
      assert [] + rest.value == rest.value;
    }
  }

  lemma BehindOne(found: seq<Call>, call: Call, rest: Option<seq<Call>>)
    ensures Behind(found, Behind([call], rest)) == Behind(found + [call], rest)
  {
    if rest.Some? {
      assert found + ([call] + rest.value) == found + [call] + rest.value;
    }
  }
}
