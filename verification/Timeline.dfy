/** The monotonic scheduler: a clock that never goes back, over the event queue. Whole runs of it
    dispatch events in a strictly increasing order, lose nothing, and do not depend on how many
    identifiers others have used nor, but for the answer to a repeated cancellation, on how cancelled
    events are stored. */
module Timeline {
  import opened Events
  import opened Options

  /** The scheduler, over either representation of the queue. */
  datatype Clock<Q> = Clock(now: nat, queue: Q, dispatched: nat)

  datatype Command<T(!new)> =
    | ScheduleAt(at: nat, payload: T)
    | ScheduleAfter(delay: nat, payload: T)
    | CancelEvent(id: nat)
    | AdvanceTo(at: nat)
    | AdvanceToNext
    | NextWakeup
    | PopDue

  datatype Outcome<T(!new)> =
    | Issued(id: nat)
    | Exhausted
    | Overflow
    | Rewind(current: nat, requested: nat)
    | Done
    | Cancelled(added: bool)
    | Wakeup(time: Option<nat>)
    | Popped(event: Option<Event<T>>)

  function Saturating(n: nat): nat {
    if n < U64_MAX then n else U64_MAX
  }

  function Scheduled<T(!new)>(id: Option<nat>): Outcome<T> {
    if id.Some? then Issued(id.value) else Exhausted
  }

  // ---------------------------------------------------------------- the scheduler as it is stored

  function PopDueStep<T(!new)>(c: Clock<Queue<T>>): (Clock<Queue<T>>, Option<Event<T>>) {
    var (p, at) := NextTime(c.queue);
    if at.Some? && at.value <= c.now then
      var (r, e) := Pop(p);
      (Clock(c.now, r, Saturating(c.dispatched + 1)), e)
    else (c.(queue := p), None)
  }

  function Step<T(!new)>(c: Clock<Queue<T>>, command: Command<T>): (Clock<Queue<T>>, Outcome<T>) {
    match command
    case ScheduleAt(at, payload) =>
      if at < c.now then (c, Rewind(c.now, at))
      else var (q, id) := Push(c.queue, at, payload); (c.(queue := q), Scheduled(id))
    case ScheduleAfter(delay, payload) =>
      if c.now + delay > U64_MAX then (c, Overflow)
      else var (q, id) := Push(c.queue, c.now + delay, payload); (c.(queue := q), Scheduled(id))
    case CancelEvent(id) => var (q, added) := Cancel(c.queue, id); (c.(queue := q), Cancelled(added))
    case AdvanceTo(at) => if at < c.now then (c, Rewind(c.now, at)) else (c.(now := at), Done)
    case AdvanceToNext =>
      var (q, at) := NextTime(c.queue);
      if at.None? then (c.(queue := q), Wakeup(None))
      else if at.value < c.now then (c.(queue := q), Rewind(c.now, at.value))
      else (c.(queue := q, now := at.value), Wakeup(at))
    case NextWakeup => var (q, at) := NextTime(c.queue); (c.(queue := q), Wakeup(at))
    case PopDue => var (d, e) := PopDueStep(c); (d, Popped(e))
  }

  function Run<T(!new)>(c: Clock<Queue<T>>, commands: seq<Command<T>>): (r: (Clock<Queue<T>>, seq<Outcome<T>>))
    ensures |r.1| == |commands|
    decreases |commands|
  {
    if commands == [] then (c, [])
    else
      var (d, o) := Step(c, commands[0]);
      var (e, os) := Run(d, commands[1..]);
      (e, [o] + os)
  }

  // ---------------------------------------------------------------- the scheduler as it is meant

  function EagerTime<T(!new)>(q: Eager<T>): Option<nat> {
    if q.live == [] then None else Some(q.live[0].at)
  }

  function EagerStep<T(!new)>(c: Clock<Eager<T>>, command: Command<T>): (Clock<Eager<T>>, Outcome<T>) {
    match command
    case ScheduleAt(at, payload) =>
      if at < c.now then (c, Rewind(c.now, at))
      else var (q, id) := EagerPush(c.queue, at, payload); (c.(queue := q), Scheduled(id))
    case ScheduleAfter(delay, payload) =>
      if c.now + delay > U64_MAX then (c, Overflow)
      else var (q, id) := EagerPush(c.queue, c.now + delay, payload); (c.(queue := q), Scheduled(id))
    case CancelEvent(id) => var (q, added) := EagerCancel(c.queue, id); (c.(queue := q), Cancelled(added))
    case AdvanceTo(at) => if at < c.now then (c, Rewind(c.now, at)) else (c.(now := at), Done)
    case AdvanceToNext =>
      var at := EagerTime(c.queue);
      if at.None? then (c, Wakeup(None))
      else if at.value < c.now then (c, Rewind(c.now, at.value))
      else (c.(now := at.value), Wakeup(at))
    case NextWakeup => (c, Wakeup(EagerTime(c.queue)))
    case PopDue =>
      if c.queue.live != [] && c.queue.live[0].at <= c.now then
        var (q, e) := EagerPop(c.queue);
        (Clock(c.now, q, Saturating(c.dispatched + 1)), Popped(e))
      else (c, Popped(None))
  }

  function EagerRun<T(!new)>(c: Clock<Eager<T>>, commands: seq<Command<T>>)
    : (r: (Clock<Eager<T>>, seq<Outcome<T>>))
    ensures |r.1| == |commands|
    decreases |commands|
  {
    if commands == [] then (c, [])
    else
      var (d, o) := EagerStep(c, commands[0]);
      var (e, os) := EagerRun(d, commands[1..]);
      (e, [o] + os)
  }

  /** The events handed out by a run. */
  function Dispatches<T(!new)>(outcomes: seq<Outcome<T>>): seq<Event<T>>
    decreases |outcomes|
  {
    if outcomes == [] then []
    else if outcomes[0].Popped? && outcomes[0].event.Some? then
      [outcomes[0].event.value] + Dispatches(outcomes[1..])
    else Dispatches(outcomes[1..])
  }

  // ---------------------------------------------------------------- refinement over whole runs

  function AbsClock<T(!new)>(c: Clock<Queue<T>>, struck: set<nat>): Clock<Eager<T>> {
    Clock(c.now, Abs(c.queue, struck), c.dispatched)
  }

  /** The same scheduler up to what the stored queue has forgotten about cancelled events. */
  ghost predicate Refines<T(!new)>(c: Clock<Queue<T>>, e: Clock<Eager<T>>) {
    e == AbsClock(c, e.queue.struck) && c.queue.cancelled <= e.queue.struck
  }

  /** The same outcome, except that a cancellation may claim to be the first when it is not. */
  ghost predicate Agree<T(!new)>(o: Outcome<T>, p: Outcome<T>) {
    if p.Cancelled? then o.Cancelled? && (p.added ==> o.added) else o == p
  }

  /** A cancellation names an identifier that has been issued, or one that never will be. */
  predicate Known<T(!new)>(next: nat, command: Command<T>) {
    command.CancelEvent? ==> command.id < next || U64_MAX <= command.id
  }

  predicate AllKnown<T(!new)>(c: Clock<Queue<T>>, commands: seq<Command<T>>)
    decreases |commands|
  {
    commands == []
    || (Known(c.queue.next, commands[0]) && AllKnown(Step(c, commands[0]).0, commands[1..]))
  }

  lemma StepRefines<T(!new)>(c: Clock<Queue<T>>, e: Clock<Eager<T>>, command: Command<T>)
    requires c.queue.Valid() && Known(c.queue.next, command) && Refines(c, e)
    ensures Step(c, command).0.queue.Valid()
    ensures Refines(Step(c, command).0, EagerStep(e, command).0)
    ensures Agree(Step(c, command).1, EagerStep(e, command).1)
  {
    hide Prune, Live, Insert, Sorted;
    var struck := e.queue.struck;
    match command
    case ScheduleAt(at, payload) => PushRefines(c.queue, struck, at, payload);
    case ScheduleAfter(delay, payload) => PushRefines(c.queue, struck, c.now + delay, payload);
    case CancelEvent(id) => CancelRefines(c.queue, struck, id);
    case AdvanceTo(at) =>
    case AdvanceToNext => NextTimeRefines(c.queue);
    case NextWakeup => NextTimeRefines(c.queue);
    case PopDue =>
      NextTimeRefines(c.queue);
      PopRefines(NextTime(c.queue).0, struck);
  }

  /** Over every run, lazy cancellation cannot be told from removing events at once, but for the answer
      of a repeated cancellation. */
  lemma {:induction false} RunRefines<T(!new)>(c: Clock<Queue<T>>, e: Clock<Eager<T>>, commands: seq<Command<T>>)
    requires c.queue.Valid() && Refines(c, e) && AllKnown(c, commands)
    ensures var (d, os) := Run(c, commands);
            var (f, ps) := EagerRun(e, commands);
            && d.queue.Valid()
            && Refines(d, f)
            && (forall i :: 0 <= i < |commands| ==> Agree(os[i], ps[i]))
            && Dispatches(os) == Dispatches(ps)
    decreases |commands|
  {
    if commands != [] {
      StepRefines(c, e, commands[0]);
      RunRefines(Step(c, commands[0]).0, EagerStep(e, commands[0]).0, commands[1..]);
      hide Step, EagerStep, Refines, Queue.Valid;
      var (os, ps) := (Run(c, commands).1, EagerRun(e, commands).1);
      assert os[1..] == Run(Step(c, commands[0]).0, commands[1..]).1;
      assert ps[1..] == EagerRun(EagerStep(e, commands[0]).0, commands[1..]).1;
    }
  }

  /** Advancing to the next event reports a rewind, rather than go back, exactly when the clock was
      advanced past an event that is still to come. */
  lemma AdvanceToNextRewindsIff<T(!new)>(c: Clock<Queue<T>>)
    requires c.queue.Valid()
    ensures Step(c, AdvanceToNext).1.Rewind? <==>
            exists e :: e in c.queue.heap && e.id !in c.queue.cancelled && e.at < c.now
  {
    NextTimeRefines(c.queue);
    var live := Pending(c.queue);
    LiveSorted(c.queue.heap, c.queue.cancelled);
    if live != [] {
      assert live[0] in live;
      forall e | e in live ensures live[0].at <= e.at {
        var i :| 0 <= i < |live| && live[i] == e;
      }
    }
  }

  lemma {:induction false} LiveSorted<T(!new)>(s: seq<Event<T>>, cancelled: set<nat>)
    requires Sorted(s)
    ensures Sorted(Live(s, cancelled))
  {
    if s != [] {
      var rest := Live(s[1..], cancelled);
      LiveSorted(s[1..], cancelled);
      forall j | 0 <= j < |rest| ensures Precedes(s[0], rest[j]) {
        assert rest[j] in rest;
        assert rest[j] in s[1..];
      }
    }
  }

  // ---------------------------------------------------------------- dispatch order

  /** Everything queued comes after what was dispatched last, which the clock has reached, and carries
      none of the identifiers already gone. */
  ghost predicate Forward<T(!new)>(c: Clock<Queue<T>>, last: Option<Event<T>>, gone: set<nat>) {
    && Sorted(c.queue.heap)
    && (forall e :: e in c.queue.heap ==> e.id < c.queue.next && e.id !in gone)
    && (forall id :: id in gone ==> id < c.queue.next)
    && (last.Some? ==>
          && last.value.at <= c.now
          && last.value.id < c.queue.next
          && forall e :: e in c.queue.heap ==> Before(last.value, e))
  }

  lemma {:induction false} PruneForward<T(!new)>(c: Clock<Queue<T>>, last: Option<Event<T>>, gone: set<nat>)
    requires Forward(c, last, gone)
    ensures Forward(c.(queue := Prune(c.queue)), last, gone)
    ensures Prune(Prune(c.queue)) == Prune(c.queue) && Prune(c.queue).next == c.queue.next
    decreases |c.queue.heap|
  {
    var q := c.queue;
    if q.heap != [] && q.heap[0].id in q.cancelled {
      var rest := q.(heap := q.heap[1..], cancelled := q.cancelled - {q.heap[0].id});
      PruneForward(c.(queue := rest), last, gone);
    }
  }

  lemma PushForward<T(!new)>(c: Clock<Queue<T>>, last: Option<Event<T>>, gone: set<nat>, at: nat, payload: T)
    requires Forward(c, last, gone) && c.now <= at
    ensures Forward(c.(queue := Push(c.queue, at, payload).0), last, gone)
  {
    if c.queue.next != U64_MAX {
      InsertSorted(c.queue.heap, Event(at, c.queue.next, payload));
    }
  }

  /** What a step from `c` that dispatched `e` (or nothing) leaves behind. */
  ghost predicate Follows<T(!new)>(c: Clock<Queue<T>>, d: Clock<Queue<T>>, e: Option<Event<T>>,
                                   last: Option<Event<T>>, gone: set<nat>) {
    && c.now <= d.now
    && c.queue.next <= d.queue.next
    && (e.None? ==> Forward(d, last, gone))
    && (e.Some? ==>
          && e.value.at <= c.now
          && e.value.id !in gone
          && (last.Some? ==> Before(last.value, e.value))
          && Forward(d, e, gone + {e.value.id}))
  }

  function Dispatched<T(!new)>(o: Outcome<T>): Option<Event<T>> {
    if o.Popped? then o.event else None
  }

  lemma PopForward<T(!new)>(c: Clock<Queue<T>>, last: Option<Event<T>>, gone: set<nat>)
    requires Forward(c, last, gone)
    ensures var (d, e) := PopDueStep(c); Follows(c, d, e, last, gone)
  {
    PruneForward(c, last, gone);
    hide Prune, Insert;
    var p := Prune(c.queue);
    if p.heap != [] {
      assert p.heap[0] in p.heap;
      forall e | e in p.heap[1..] ensures Precedes(p.heap[0], e) {
        var i :| 0 <= i < |p.heap[1..]| && p.heap[1..][i] == e;
        assert p.heap[i + 1] == e;
      }
    }
  }

  /** One command never moves the clock back, and dispatches only what the clock has reached and what
      comes after everything dispatched before. */
  lemma StepForward<T(!new)>(c: Clock<Queue<T>>, command: Command<T>, last: Option<Event<T>>, gone: set<nat>)
    requires Forward(c, last, gone)
    ensures var (d, o) := Step(c, command); Follows(c, d, Dispatched(o), last, gone)
  {
    hide Prune, Insert, Forward;
    match command
    case ScheduleAt(at, payload) =>
      if c.now <= at {
        PushForward(c, last, gone, at, payload);
      }
    case ScheduleAfter(delay, payload) => PushForward(c, last, gone, c.now + delay, payload);
    case CancelEvent(id) => ClockForward(c, c.now, c.queue.cancelled + {id}, last, gone);
    case AdvanceTo(at) => ClockForward(c, at, c.queue.cancelled, last, gone);
    case AdvanceToNext =>
      PruneForward(c, last, gone);
      var p := c.(queue := Prune(c.queue));
      ClockForward(p, if p.queue.heap == [] then 0 else p.queue.heap[0].at, p.queue.cancelled, last, gone);
    case NextWakeup => PruneForward(c, last, gone);
    case PopDue => PopForward(c, last, gone);
  }

  lemma ClockForward<T(!new)>(c: Clock<Queue<T>>, now: nat, cancelled: set<nat>, last: Option<Event<T>>, gone: set<nat>)
    requires Forward(c, last, gone)
    ensures c.now <= now ==> Forward(c.(now := now, queue := c.queue.(cancelled := cancelled)), last, gone)
  {
  }

  /** Over every run, whatever is cancelled, events are dispatched in strictly increasing order of
      timestamp and insertion, none twice, none before its time. */
  lemma {:induction false} RunForward<T(!new)>(c: Clock<Queue<T>>, commands: seq<Command<T>>,
                                               last: Option<Event<T>>, gone: set<nat>)
    requires Forward(c, last, gone)
    ensures var (d, os) := Run(c, commands);
            && c.now <= d.now
            && c.queue.next <= d.queue.next
            && Sorted(Dispatches(os))
            && (forall e :: e in Dispatches(os) ==> e.at <= d.now && e.id < d.queue.next && e.id !in gone)
            && (last.Some? ==> forall e :: e in Dispatches(os) ==> Before(last.value, e))
    decreases |commands|
  {
    if commands != [] {
      var (d, o) := Step(c, commands[0]);
      var (e, os) := Run(d, commands[1..]);
      StepForward(c, commands[0], last, gone);
      hide Step;
      assert ([o] + os)[1..] == os;
      if Dispatched(o).Some? {
        RunForward(d, commands[1..], Dispatched(o), gone + {o.event.value.id});
        SortedCons(o.event.value, Dispatches(os));
      } else {
        RunForward(d, commands[1..], last, gone);
      }
    }
  }

  lemma SortedCons<T(!new)>(e: Event<T>, s: seq<Event<T>>)
    requires Sorted(s) && forall f :: f in s ==> Precedes(e, f)
    ensures Sorted([e] + s)
  {
    assert forall j :: 0 <= j < |s| ==> s[j] in s;
  }

  /** The scheduler as it starts. */
  function Start<T(!new)>(now: nat): Clock<Queue<T>> {
    Clock(now, Queue([], {}, 0), 0)
  }

  lemma DispatchOrder<T(!new)>(now: nat, commands: seq<Command<T>>)
    ensures var es := Dispatches(Run(Start(now), commands).1);
            && (forall i, j :: 0 <= i < j < |es| ==>
                  es[i].at < es[j].at || (es[i].at == es[j].at && es[i].id < es[j].id))
            && (forall i, j :: 0 <= i < j < |es| ==> es[i].id != es[j].id)
            && (forall e :: e in es ==> e.at <= Run(Start(now), commands).0.now)
  {
    RunForward(Start(now), commands, None, {});
    var es := Dispatches(Run(Start(now), commands).1);
    assert forall i, j :: 0 <= i < j < |es| ==> Precedes(es[i], es[j]);
    hide Run, Dispatches;
  }

  // ---------------------------------------------------------------- cancelling twice

  predicate Prunes<T(!new)>(command: Command<T>) {
    command.AdvanceToNext? || command.NextWakeup? || command.PopDue?
  }

  ghost predicate NeverCancels<T(!new)>(commands: seq<Command<T>>, id: nat) {
    CancelEvent(id) !in commands
  }

  /** The `k`-th command prunes the queue while the event of `id` is stored and everything stored up to
      it is cancelled. */
  ghost predicate ForgetsAt<T(!new)>(c: Clock<Queue<T>>, commands: seq<Command<T>>, id: nat, k: int) {
    0 <= k < |commands| && Prunes(commands[k]) && exists i :: Exposed(Run(c, commands[..k]).0.queue, id, i)
  }

  /** The stored heap is in order and holds issued identifiers only, whatever was cancelled. */
  ghost predicate Tidy<T(!new)>(c: Clock<Queue<T>>) {
    Forward(c, None, {})
  }

  lemma StepTidy<T(!new)>(c: Clock<Queue<T>>, command: Command<T>)
    requires Tidy(c)
    ensures Tidy(Step(c, command).0)
  {
    StepForward(c, command, None, {});
    hide Step;
  }

  /** Only pruning takes identifiers out, and it takes out exactly those whose event is exposed. */
  lemma StepForgets<T(!new)>(c: Clock<Queue<T>>, command: Command<T>, id: nat)
    requires Tidy(c) && id in c.queue.cancelled
    ensures id !in Step(c, command).0.queue.cancelled
            <==> Prunes(command) && exists i :: Exposed(c.queue, id, i)
  {
    PruneForgetsIff(c.queue, id);
    PruneForward(c, None, {});
    hide Prune, Insert, Exposed;
  }

  lemma StepAdds<T(!new)>(c: Clock<Queue<T>>, command: Command<T>, id: nat)
    requires id !in c.queue.cancelled && command != CancelEvent(id)
    ensures id !in Step(c, command).0.queue.cancelled
  {
    PruneShrinks(c.queue);
    PruneShrinks(Prune(c.queue));
    hide Prune, Insert;
  }

  lemma {:induction false} StaysForgotten<T(!new)>(c: Clock<Queue<T>>, commands: seq<Command<T>>, id: nat)
    requires id !in c.queue.cancelled && NeverCancels(commands, id)
    ensures id !in Run(c, commands).0.queue.cancelled
    decreases |commands|
  {
    if commands != [] {
      StepAdds(c, commands[0], id);
      StaysForgotten(Step(c, commands[0]).0, commands[1..], id);
    }
  }

  lemma RunPrefix<T(!new)>(c: Clock<Queue<T>>, commands: seq<Command<T>>, k: int)
    requires 1 <= k <= |commands|
    ensures Run(c, commands[..k]).0 == Run(Step(c, commands[0]).0, commands[1..][..k - 1]).0
  {
    hide Step;
    assert commands[..k][0] == commands[0] && commands[..k][1..] == commands[1..][..k - 1];
  }

  /** Forgetting along a run is forgetting at its first command, or along the rest. */
  lemma ForgetsLater<T(!new)>(c: Clock<Queue<T>>, commands: seq<Command<T>>, id: nat)
    requires commands != []
    ensures ForgetsAt(c, commands, id, 0) <==> Prunes(commands[0]) && exists i :: Exposed(c.queue, id, i)
    ensures var (d, rest) := (Step(c, commands[0]).0, commands[1..]);
            forall k :: 1 <= k ==> (ForgetsAt(c, commands, id, k) <==> ForgetsAt(d, rest, id, k - 1))
  {
    assert Run(c, commands[..0]).0 == c;
    hide Step, Exposed, Run, Prunes;
    forall k | 1 <= k
      ensures ForgetsAt(c, commands, id, k) <==> ForgetsAt(Step(c, commands[0]).0, commands[1..], id, k - 1)
    {
      if k < |commands| {
        RunPrefix(c, commands, k);
      }
    }
  }

  lemma {:induction false} ForgottenIff<T(!new)>(c: Clock<Queue<T>>, commands: seq<Command<T>>, id: nat)
    requires Tidy(c) && id in c.queue.cancelled && NeverCancels(commands, id)
    ensures id !in Run(c, commands).0.queue.cancelled <==> exists k :: ForgetsAt(c, commands, id, k)
    decreases |commands|
  {
    if commands != [] {
      var (d, rest) := (Step(c, commands[0]).0, commands[1..]);
      StepForgets(c, commands[0], id);
      StepTidy(c, commands[0]);
      ForgetsLater(c, commands, id);
      hide Step, Exposed, Tidy, ForgetsAt;
      if id in d.queue.cancelled {
        ForgottenIff(d, rest, id);
        if k :| ForgetsAt(d, rest, id, k) {
          assert 0 <= k by { ForgetsRange(d, rest, id, k); }
          assert ForgetsAt(c, commands, id, k + 1);
        }
        if k :| ForgetsAt(c, commands, id, k) {
          assert 0 <= k by { ForgetsRange(c, commands, id, k); }
          assert ForgetsAt(d, rest, id, k - 1);
        }
      } else {
        StaysForgotten(d, rest, id);
        assert ForgetsAt(c, commands, id, 0);
      }
    }
  }

  lemma ForgetsRange<T(!new)>(c: Clock<Queue<T>>, commands: seq<Command<T>>, id: nat, k: int)
    requires ForgetsAt(c, commands, id, k)
    ensures 0 <= k < |commands|
  {
  }

  /** A second cancellation reports success again exactly when, at some pruning in between, the event was
      stored and everything stored up to it was cancelled. */
  lemma CancelTwiceIff<T(!new)>(now: nat, before: seq<Command<T>>, id: nat, between: seq<Command<T>>)
    requires NeverCancels(between, id)
    ensures var c := Run(Start(now), before + [CancelEvent(id)]).0;
            Step(Run(c, between).0, CancelEvent(id)).1
            == Cancelled(exists k :: ForgetsAt(c, between, id, k))
  {
    RunTidy(Start(now), before);
    var b := Run(Start(now), before).0;
    var c := Step(b, CancelEvent(id)).0;
    RunSnoc(Start(now), before, CancelEvent(id));
    StepTidy(b, CancelEvent(id));
    ForgottenIff(c, between, id);
  }

  /** An event scheduled, cancelled, and pruned by a question about the next wakeup is cancelled anew. */
  lemma CancelsTwice<T(!new)>(payload: T)
    ensures var c1 := Step(Start(0), ScheduleAt(5, payload)).0;
            var c2 := Step(c1, CancelEvent(0)).0;
            var c3 := Step(c2, NextWakeup).0;
            Step(c1, CancelEvent(0)).1 == Step(c3, CancelEvent(0)).1 == Cancelled(true)
    ensures var e1 := EagerStep(AbsClock(Start(0), {}), ScheduleAt(5, payload)).0;
            var e2 := EagerStep(e1, CancelEvent(0)).0;
            var e3 := EagerStep(e2, NextWakeup).0;
            EagerStep(e1, CancelEvent(0)).1 == Cancelled(true) && EagerStep(e3, CancelEvent(0)).1 == Cancelled(false)
  {
    var c1 := Step(Start(0), ScheduleAt(5, payload)).0;
    assert c1.queue.heap == [Event(5, 0, payload)];
    var c2 := Step(c1, CancelEvent(0)).0;
    assert Exposed(c2.queue, 0, 0);
    PruneForgetsIff(c2.queue, 0);
  }

  lemma {:induction false} RunTidy<T(!new)>(c: Clock<Queue<T>>, commands: seq<Command<T>>)
    requires Tidy(c)
    ensures Tidy(Run(c, commands).0)
    decreases |commands|
  {
    if commands != [] {
      StepTidy(c, commands[0]);
      RunTidy(Step(c, commands[0]).0, commands[1..]);
    }
  }

  lemma {:induction false} RunSnoc<T(!new)>(c: Clock<Queue<T>>, commands: seq<Command<T>>, last: Command<T>)
    ensures Run(c, commands + [last]).0 == Step(Run(c, commands).0, last).0
    decreases |commands|
  {
    hide Step;
    if commands != [] {
      assert (commands + [last])[1..] == commands[1..] + [last];
      RunSnoc(Step(c, commands[0]).0, commands[1..], last);
    } else {
      assert commands + [last] == [last] && [last][1..] == [];
    }
  }

  // ---------------------------------------------------------------- nothing is lost

  function Matching<T(!new)>(s: seq<Event<T>>, id: nat): (t: seq<Event<T>>)
    ensures forall e :: e in t ==> e.id == id
  {
    if s == [] then []
    else if s[0].id == id then [s[0]] + Matching(s[1..], id)
    else Matching(s[1..], id)
  }

  /** The event a command queues, if it is accepted. */
  function Entered<T(!new)>(c: Clock<Eager<T>>, command: Command<T>): seq<Event<T>> {
    if !EagerStep(c, command).1.Issued? then []
    else if command.ScheduleAt? then [Event(command.at, c.queue.next, command.payload)]
    else if command.ScheduleAfter? then [Event(c.now + command.delay, c.queue.next, command.payload)]
    else []
  }

  /** The pending events a command cancels. */
  function Struck<T(!new)>(c: Clock<Eager<T>>, command: Command<T>): (s: seq<Event<T>>)
    ensures forall e :: e in s ==> command == CancelEvent(e.id)
  {
    if command.CancelEvent? then Matching(c.queue.live, command.id) else []
  }

  function AllEntered<T(!new)>(c: Clock<Eager<T>>, commands: seq<Command<T>>): seq<Event<T>>
    decreases |commands|
  {
    if commands == [] then []
    else Entered(c, commands[0]) + AllEntered(EagerStep(c, commands[0]).0, commands[1..])
  }

  function AllStruck<T(!new)>(c: Clock<Eager<T>>, commands: seq<Command<T>>): seq<Event<T>>
    decreases |commands|
  {
    if commands == [] then []
    else Struck(c, commands[0]) + AllStruck(EagerStep(c, commands[0]).0, commands[1..])
  }

  lemma {:induction false} InsertBag<T(!new)>(s: seq<Event<T>>, e: Event<T>)
    ensures multiset(Insert(s, e)) == multiset(s) + multiset{e}
  {
    if s != [] && !Before(e, s[0]) {
      InsertBag(s[1..], e);
      assert s == [s[0]] + s[1..];
    }
  }

  lemma {:induction false} LiveBag<T(!new)>(s: seq<Event<T>>, id: nat)
    ensures multiset(s) == multiset(Live(s, {id})) + multiset(Matching(s, id))
  {
    if s != [] {
      LiveBag(s[1..], id);
      assert s == [s[0]] + s[1..];
    }
  }

  ghost function Bag<T(!new)>(e: Option<Event<T>>): multiset<Event<T>> {
    if e.Some? then multiset{e.value} else multiset{}
  }

  /** What is pending and what enters is what stays pending, what is struck out and what is dispatched. */
  ghost predicate Balanced<T(!new)>(before: multiset<Event<T>>, entered: seq<Event<T>>, after: multiset<Event<T>>,
                                    struck: seq<Event<T>>, dispatched: multiset<Event<T>>) {
    before + multiset(entered) == after + multiset(struck) + dispatched
  }

  lemma BalancedSame<T(!new)>(s: seq<Event<T>>)
    ensures Balanced(multiset(s), [], multiset(s), [], multiset{})
  {
  }

  lemma BalancedPush<T(!new)>(s: seq<Event<T>>, e: Event<T>)
    ensures Balanced(multiset(s), [e], multiset(Insert(s, e)), [], multiset{})
  {
    InsertBag(s, e);
  }

  lemma BalancedCancel<T(!new)>(s: seq<Event<T>>, id: nat)
    ensures Balanced(multiset(s), [], multiset(Live(s, {id})), Matching(s, id), multiset{})
  {
    LiveBag(s, id);
  }

  lemma BalancedPop<T(!new)>(s: seq<Event<T>>)
    requires s != []
    ensures Balanced(multiset(s), [], multiset(s[1..]), [], multiset{s[0]})
  {
    assert s == [s[0]] + s[1..];
  }

  lemma ScheduleBalance<T(!new)>(c: Clock<Eager<T>>, command: Command<T>)
    requires command.ScheduleAt? || command.ScheduleAfter?
    ensures var (d, o) := EagerStep(c, command);
            Balanced(multiset(c.queue.live), Entered(c, command), multiset(d.queue.live), Struck(c, command), Bag(Dispatched(o)))
  {
    hide Insert, Balanced;
    BalancedSame(c.queue.live);
    BalancedPush(c.queue.live, Event(if command.ScheduleAt? then command.at else c.now + command.delay,
                                     c.queue.next, command.payload));
  }

  lemma PopBalance<T(!new)>(c: Clock<Eager<T>>)
    ensures var (d, o) := EagerStep(c, PopDue);
            Balanced(multiset(c.queue.live), [], multiset(d.queue.live), [], Bag(Dispatched(o)))
  {
    hide Balanced;
    BalancedSame(c.queue.live);
    if c.queue.live != [] {
      BalancedPop(c.queue.live);
    }
  }

  lemma StepBalance<T(!new)>(c: Clock<Eager<T>>, command: Command<T>)
    ensures var (d, o) := EagerStep(c, command);
            Balanced(multiset(c.queue.live), Entered(c, command), multiset(d.queue.live), Struck(c, command), Bag(Dispatched(o)))
  {
    hide Insert, Live, Matching, Balanced;
    BalancedSame(c.queue.live);
    match command
    case ScheduleAt(_, _) => ScheduleBalance(c, command);
    case ScheduleAfter(_, _) => ScheduleBalance(c, command);
    case CancelEvent(id) => BalancedCancel(c.queue.live, id);
    case AdvanceTo(at) =>
    case AdvanceToNext =>
    case NextWakeup =>
    case PopDue => PopBalance(c);
  }

  lemma DispatchesBag<T(!new)>(o: Outcome<T>, os: seq<Outcome<T>>)
    ensures multiset(Dispatches([o] + os)) == Bag(Dispatched(o)) + multiset(Dispatches(os))
  {
    assert ([o] + os)[1..] == os;
  }

  lemma BalanceChain<T(!new)>(a: multiset<Event<T>>, in1: seq<Event<T>>, b: multiset<Event<T>>, out1: seq<Event<T>>, d1: multiset<Event<T>>,
                              in2: seq<Event<T>>, c: multiset<Event<T>>, out2: seq<Event<T>>, d2: multiset<Event<T>>)
    requires Balanced(a, in1, b, out1, d1) && Balanced(b, in2, c, out2, d2)
    ensures Balanced(a, in1 + in2, c, out1 + out2, d1 + d2)
  {
    var i1, i2, o1, o2 := multiset(in1), multiset(in2), multiset(out1), multiset(out2);
    assert multiset(in1 + in2) == i1 + i2 && multiset(out1 + out2) == o1 + o2;
    assert a + (i1 + i2) == (a + i1) + i2;
    assert (b + o1 + d1) + i2 == (b + i2) + o1 + d1;
    assert (c + o2 + d2) + o1 + d1 == c + (o1 + o2) + (d1 + d2);
  }

  /** Every accepted event is dispatched, or cancelled while pending, or still pending: once. */
  lemma {:induction false} RunBalance<T(!new)>(c: Clock<Eager<T>>, commands: seq<Command<T>>)
    ensures var (d, os) := EagerRun(c, commands);
            Balanced(multiset(c.queue.live), AllEntered(c, commands), multiset(d.queue.live), AllStruck(c, commands), multiset(Dispatches(os)))
    decreases |commands|
  {
    hide EagerStep, Entered, Struck, Dispatched;
    if commands != [] {
      var (d, o) := EagerStep(c, commands[0]);
      var (e, os) := EagerRun(d, commands[1..]);
      StepBalance(c, commands[0]);
      RunBalance(d, commands[1..]);
      DispatchesBag(o, os);
      hide Balanced;
      BalanceChain(multiset(c.queue.live), Entered(c, commands[0]), multiset(d.queue.live), Struck(c, commands[0]), Bag(Dispatched(o)),
                   AllEntered(d, commands[1..]), multiset(e.queue.live), AllStruck(d, commands[1..]), multiset(Dispatches(os)));
    } else {
      assert EagerRun(c, commands).0 == c;
    }
  }

  lemma NothingLost<T(!new)>(now: nat, commands: seq<Command<T>>)
    requires AllKnown(Start(now), commands)
    ensures var (d, os) := Run(Start(now), commands);
            var start := AbsClock(Start(now), {});
            multiset(AllEntered(start, commands))
            == multiset(Pending(d.queue)) + multiset(AllStruck(start, commands)) + multiset(Dispatches(os))
  {
    var start := AbsClock(Start(now), {});
    RunRefines(Start(now), start, commands);
    RunBalance(start, commands);
  }

  // ---------------------------------------------------------------- identifiers do not matter

  /** Makes room for identifier `n`. */
  function Renumber(n: nat, id: nat): nat {
    if id < n then id else id + 1
  }

  /** An identifier past the last one that can be issued stays as it is. */
  function RenumberKnown(n: nat, id: nat): nat {
    if U64_MAX <= id then id else Renumber(n, id)
  }

  function RenumberEvent<T(!new)>(n: nat, e: Event<T>): Event<T> {
    e.(id := Renumber(n, e.id))
  }

  function RenumberAll<T(!new)>(n: nat, s: seq<Event<T>>): seq<Event<T>> {
    if s == [] then [] else [RenumberEvent(n, s[0])] + RenumberAll(n, s[1..])
  }

  function RenumberCommand<T(!new)>(n: nat, command: Command<T>): Command<T> {
    if command.CancelEvent? then CancelEvent(RenumberKnown(n, command.id)) else command
  }

  function RenumberCommands<T(!new)>(n: nat, commands: seq<Command<T>>): (r: seq<Command<T>>)
    ensures |r| == |commands|
    decreases |commands|
  {
    if commands == [] then [] else [RenumberCommand(n, commands[0])] + RenumberCommands(n, commands[1..])
  }

  function RenumberOutcome<T(!new)>(n: nat, o: Outcome<T>): Outcome<T> {
    match o
    case Issued(id) => Issued(Renumber(n, id))
    case Popped(Some(e)) => Popped(Some(RenumberEvent(n, e)))
    case _ => o
  }

  function RenumberOutcomes<T(!new)>(n: nat, os: seq<Outcome<T>>): (r: seq<Outcome<T>>)
    ensures |r| == |os|
    decreases |os|
  {
    if os == [] then [] else [RenumberOutcome(n, os[0])] + RenumberOutcomes(n, os[1..])
  }

  lemma {:induction false} RenumberInsert<T(!new)>(n: nat, s: seq<Event<T>>, e: Event<T>)
    ensures RenumberAll(n, Insert(s, e)) == Insert(RenumberAll(n, s), RenumberEvent(n, e))
  {
    if s == [] {
      assert Insert(s, e)[1..] == [];
    } else if Before(e, s[0]) {
      assert ([e] + s)[1..] == s;
    } else {
      RenumberInsert(n, s[1..], e);
      assert Insert(s, e)[1..] == Insert(s[1..], e);
      assert RenumberAll(n, s)[1..] == RenumberAll(n, s[1..]);
    }
  }

  lemma RenumberHead<T(!new)>(n: nat, s: seq<Event<T>>)
    ensures s == [] <==> RenumberAll(n, s) == []
    ensures s != [] ==> RenumberAll(n, s)[0] == RenumberEvent(n, s[0])
    ensures s != [] ==> RenumberAll(n, s)[1..] == RenumberAll(n, s[1..])
  {
  }

  /** The queue `d` is `c` with identifier `n` used up: its event, if still stored, is cancelled. */
  ghost predicate Noisy<T(!new)>(n: nat, c: Queue<T>, d: Queue<T>) {
    && c.Valid() && d.Valid()
    && n <= c.next && d.next == c.next + 1
    && Live(d.heap, {n}) == RenumberAll(n, c.heap)
    && (forall e :: e in d.heap && e.id == n ==> n in d.cancelled)
    && SameMarks(n, c.next, c.cancelled, d.cancelled)
  }

  /** Every known identifier is marked on both sides or on neither. */
  ghost predicate SameMarks(n: nat, next: nat, s: set<nat>, t: set<nat>) {
    forall id: nat :: id < next || U64_MAX <= id ==> (id in s <==> RenumberKnown(n, id) in t)
  }

  lemma DropFront<T(!new)>(q: Queue<T>)
    requires q.Valid() && q.heap != []
    ensures q.(heap := q.heap[1..]).Valid()
    ensures q.(heap := q.heap[1..], cancelled := q.cancelled - {q.heap[0].id}).Valid()
    ensures forall e :: e in q.heap[1..] ==> e in q.heap && e.id != q.heap[0].id
    ensures q.heap[0].id < q.next
  {
    forall e | e in q.heap[1..] ensures e in q.heap && e.id != q.heap[0].id {
      var i :| 0 <= i < |q.heap[1..]| && q.heap[1..][i] == e;
      assert Precedes(q.heap[0], q.heap[i + 1]);
    }
  }

  lemma DropNoise<T(!new)>(n: nat, c: Queue<T>, d: Queue<T>)
    requires Noisy(n, c, d) && d.heap != [] && d.heap[0].id == n
    ensures n in d.cancelled
    ensures Noisy(n, c, d.(heap := d.heap[1..], cancelled := d.cancelled - {n}))
  {
    DropFront(d);
    assert d.heap[0] in d.heap;
  }

  lemma SameFront<T(!new)>(n: nat, c: Queue<T>, d: Queue<T>)
    requires Noisy(n, c, d) && d.heap != [] && d.heap[0].id != n
    ensures c.heap != [] && d.heap[0] == RenumberEvent(n, c.heap[0])
    ensures c.heap[0].id in c.cancelled <==> d.heap[0].id in d.cancelled
  {
    RenumberHead(n, c.heap);
    assert c.heap[0] in c.heap;
  }

  lemma DropBoth<T(!new)>(n: nat, c: Queue<T>, d: Queue<T>)
    requires Noisy(n, c, d) && d.heap != [] && d.heap[0].id != n
    ensures c.heap != []
    ensures Noisy(n, c.(heap := c.heap[1..]), d.(heap := d.heap[1..]))
    ensures Noisy(n, c.(heap := c.heap[1..], cancelled := c.cancelled - {c.heap[0].id}),
                  d.(heap := d.heap[1..], cancelled := d.cancelled - {d.heap[0].id}))
  {
    SameFront(n, c, d);
    RenumberHead(n, c.heap);
    DropFront(c);
    DropFront(d);
    assert Live(d.heap, {n}) == [d.heap[0]] + Live(d.heap[1..], {n});
    assert c.heap[0] in c.heap;
    MarksDrop(n, c.next, c.cancelled, d.cancelled, c.heap[0].id);
    hide RenumberAll, Live, Queue.Valid, SameMarks;
  }

  lemma MarksDrop(n: nat, next: nat, s: set<nat>, t: set<nat>, id: nat)
    requires SameMarks(n, next, s, t) && id < next < U64_MAX
    ensures SameMarks(n, next, s - {id}, t - {Renumber(n, id)})
  {
  }

  lemma {:induction false} PruneNoisy<T(!new)>(n: nat, c: Queue<T>, d: Queue<T>)
    requires Noisy(n, c, d)
    ensures Noisy(n, Prune(c), Prune(d))
    ensures Prune(c).heap == [] <==> Prune(d).heap == []
    ensures Prune(d).heap != [] ==> Prune(d).heap[0] == RenumberEvent(n, Prune(c).heap[0]) && Prune(d).heap[0].id != n
    decreases |d.heap|
  {
    if d.heap == [] {
      RenumberHead(n, c.heap);
    } else if d.heap[0].id == n {
      DropNoise(n, c, d);
      PruneNoisy(n, c, d.(heap := d.heap[1..], cancelled := d.cancelled - {n}));
    } else {
      SameFront(n, c, d);
      if d.heap[0].id in d.cancelled {
        DropBoth(n, c, d);
        PruneNoisy(n, c.(heap := c.heap[1..], cancelled := c.cancelled - {c.heap[0].id}),
                   d.(heap := d.heap[1..], cancelled := d.cancelled - {d.heap[0].id}));
      }
    }
  }

  lemma PopNoisy<T(!new)>(n: nat, c: Queue<T>, d: Queue<T>)
    requires Noisy(n, c, d)
    ensures var ((p, e), (q, f)) := (Pop(c), Pop(d));
            && Noisy(n, p, q)
            && f == if e.Some? then Some(RenumberEvent(n, e.value)) else None
  {
    PruneNoisy(n, c, d);
    if Prune(d).heap != [] {
      DropBoth(n, Prune(c), Prune(d));
    }
    hide Prune, Noisy;
  }

  lemma PushNoisy<T(!new)>(n: nat, c: Queue<T>, d: Queue<T>, at: nat, payload: T)
    requires Noisy(n, c, d) && c.next + 1 < U64_MAX
    ensures var ((p, id), (q, it)) := (Push(c, at, payload), Push(d, at, payload));
            Noisy(n, p, q) && id == Some(c.next) && it == Some(Renumber(n, c.next))
  {
    hide Insert, Live, RenumberAll, Queue.Valid, SameMarks, Sorted, EagerPush, Before;
    var (e, f) := (Event(at, c.next, payload), Event(at, d.next, payload));
    MarksPush(n, c, d);
    PushRefines(c, {}, at, payload);
    PushRefines(d, {}, at, payload);
    LiveInsert(d.heap, f, {n});
    RenumberInsert(n, c.heap, e);
    InsertSorted(d.heap, f);
  }

  lemma MarksPush<T(!new)>(n: nat, c: Queue<T>, d: Queue<T>)
    requires Noisy(n, c, d) && c.next + 1 < U64_MAX
    ensures SameMarks(n, c.next + 1, c.cancelled, d.cancelled)
    ensures Sorted(d.heap) && forall e :: e in d.heap ==> e.id != d.next
  {
    hide Insert, Live, RenumberAll;
  }

  lemma CancelNoisy<T(!new)>(n: nat, c: Queue<T>, d: Queue<T>, id: nat)
    requires Noisy(n, c, d) && (id < c.next || U64_MAX <= id)
    ensures var ((p, a), (q, b)) := (Cancel(c, id), Cancel(d, RenumberKnown(n, id)));
            Noisy(n, p, q) && a == b
  {
    hide Insert, Live, RenumberAll;
  }

  lemma NoisyNext<T(!new)>(n: nat, c: Queue<T>, d: Queue<T>)
    requires Noisy(n, c, d)
    ensures n <= c.next && d.next == c.next + 1
  {
  }

  ghost predicate NoisyClock<T(!new)>(n: nat, c: Clock<Queue<T>>, d: Clock<Queue<T>>) {
    c.now == d.now && c.dispatched == d.dispatched && Noisy(n, c.queue, d.queue)
  }

  lemma NextGrows<T(!new)>(c: Clock<Queue<T>>, command: Command<T>)
    ensures Step(c, command).0.queue.next <= c.queue.next + 1
  {
    PruneShrinks(c.queue);
    PruneShrinks(Prune(c.queue));
    hide Prune, Insert;
  }

  lemma StepNoisy<T(!new)>(n: nat, c: Clock<Queue<T>>, d: Clock<Queue<T>>, command: Command<T>)
    requires NoisyClock(n, c, d) && c.queue.next + 1 < U64_MAX && Known(c.queue.next, command)
    ensures NoisyClock(n, Step(c, command).0, Step(d, RenumberCommand(n, command)).0)
    ensures Step(d, RenumberCommand(n, command)).1 == RenumberOutcome(n, Step(c, command).1)
    ensures Step(c, command).0.queue.next <= c.queue.next + 1
    ensures Known(d.queue.next, RenumberCommand(n, command))
  {
    hide Noisy, Prune, Push, Pop, Cancel;
    NoisyNext(n, c.queue, d.queue);
    NextGrows(c, command);
    match command
    case ScheduleAt(at, payload) => PushNoisy(n, c.queue, d.queue, at, payload);
    case ScheduleAfter(delay, payload) => PushNoisy(n, c.queue, d.queue, c.now + delay, payload);
    case CancelEvent(id) => CancelNoisy(n, c.queue, d.queue, id);
    case AdvanceTo(at) =>
    case AdvanceToNext => PruneNoisy(n, c.queue, d.queue);
    case NextWakeup => PruneNoisy(n, c.queue, d.queue);
    case PopDue =>
      PruneNoisy(n, c.queue, d.queue);
      PopNoisy(n, Prune(c.queue), Prune(d.queue));
  }

  lemma {:induction false} RunNoisy<T(!new)>(n: nat, c: Clock<Queue<T>>, d: Clock<Queue<T>>, commands: seq<Command<T>>)
    requires NoisyClock(n, c, d) && c.queue.next + |commands| < U64_MAX && AllKnown(c, commands)
    ensures Run(d, RenumberCommands(n, commands)).1 == RenumberOutcomes(n, Run(c, commands).1)
    decreases |commands|
  {
    if commands != [] {
      var (c', o) := Step(c, commands[0]);
      var (d', p) := Step(d, RenumberCommand(n, commands[0]));
      StepNoisy(n, c, d, commands[0]);
      RunNoisy(n, c', d', commands[1..]);
      hide Step, RenumberOutcome, NoisyClock;
      var renumbered := RenumberCommands(n, commands);
      assert renumbered[0] == RenumberCommand(n, commands[0]);
      assert renumbered[1..] == RenumberCommands(n, commands[1..]);
      var os := Run(c', commands[1..]).1;
      assert ([o] + os)[1..] == os;
    }
  }

  /** What the consumer sees: timestamps and payloads, in dispatch order. */
  function Delivered<T(!new)>(s: seq<Event<T>>): seq<(nat, T)>
    decreases |s|
  {
    if s == [] then [] else [(s[0].at, s[0].payload)] + Delivered(s[1..])
  }

  lemma {:induction false} DeliveredRenumbered<T(!new)>(n: nat, os: seq<Outcome<T>>)
    ensures Delivered(Dispatches(RenumberOutcomes(n, os))) == Delivered(Dispatches(os))
    decreases |os|
  {
    if os != [] {
      DeliveredRenumbered(n, os[1..]);
      assert RenumberOutcomes(n, os)[1..] == RenumberOutcomes(n, os[1..]);
      if Dispatched(os[0]).Some? {
        var e := os[0].event.value;
        assert ([e] + Dispatches(os[1..]))[1..] == Dispatches(os[1..]);
        var f := RenumberEvent(n, e);
        var rest := Dispatches(RenumberOutcomes(n, os[1..]));
        assert ([f] + rest)[1..] == rest;
      }
    }
  }

  lemma {:induction false} StrikeNew<T(!new)>(n: nat, s: seq<Event<T>>, e: Event<T>)
    requires e.id == n && forall f :: f in s ==> f.id < n
    ensures Live(Insert(s, e), {n}) == s && RenumberAll(n, s) == s
  {
    if s != [] {
      assert s[0] in s;
      StrikeNew(n, s[1..], e);
      assert Insert(s, e)[1..] == if Before(e, s[0]) then s else Insert(s[1..], e);
      if Before(e, s[0]) {
        LiveForget(s, {n}, n);
        LiveNone(s);
        assert {n} - {n} == {};
      }
    } else {
      assert Insert(s, e)[1..] == [];
    }
  }

  lemma NoiseStarts<T(!new)>(c: Clock<Queue<T>>, at: nat, payload: T)
    requires c.queue.Valid() && c.now <= at && c.queue.next < U64_MAX
    ensures var n := c.queue.next;
            var (c1, o) := Step(c, ScheduleAt(at, payload));
            var (c2, p) := Step(c1, CancelEvent(n));
            o == Issued(n) && p == Cancelled(true) && NoisyClock(n, c, c2)
  {
    var n := c.queue.next;
    var e := Event(at, n, payload);
    PushRefines(c.queue, {}, at, payload);
    CancelRefines(Push(c.queue, at, payload).0, {}, n);
    StrikeNew(n, c.queue.heap, e);
    hide Insert, Live, RenumberAll, Sorted;
  }

  /** Scheduling an event and cancelling it, at any point of any run, changes nothing that is ever
      answered or dispatched afterwards: identifiers shift, but timestamps, payloads, order and the
      answers to every cancellation stay. */
  lemma CancelledWorkIsInvisible<T(!new)>(c: Clock<Queue<T>>, at: nat, payload: T, commands: seq<Command<T>>)
    requires c.queue.Valid() && c.now <= at && AllKnown(c, commands)
    requires c.queue.next + |commands| + 1 < U64_MAX
    ensures var n := c.queue.next;
            var noise := [ScheduleAt(at, payload), CancelEvent(n)];
            var outcomes := Run(c, noise + RenumberCommands(n, commands)).1;
            && outcomes == [Issued(n), Cancelled(true)] + RenumberOutcomes(n, Run(c, commands).1)
            && Delivered(Dispatches(outcomes)) == Delivered(Dispatches(Run(c, commands).1))
  {
    var n := c.queue.next;
    var c2 := Step(Step(c, ScheduleAt(at, payload)).0, CancelEvent(n)).0;
    NoiseStarts(c, at, payload);
    hide Step, NoisyClock, Queue.Valid, Prune, Insert, Live, AllKnown;
    RunNoisy(n, c, c2, commands);
    RunTwo(c, ScheduleAt(at, payload), CancelEvent(n), RenumberCommands(n, commands));
    DeliveredRenumbered(n, Run(c, commands).1);
  }

  lemma RunTwo<T(!new)>(c: Clock<Queue<T>>, first: Command<T>, second: Command<T>, rest: seq<Command<T>>)
    ensures var (d, o) := Step(c, first);
            var (e, p) := Step(d, second);
            && Run(c, [first, second] + rest).1 == [o, p] + Run(e, rest).1
            && Dispatches([Issued(c.queue.next), Cancelled(true)] + Run(e, rest).1) == Dispatches(Run(e, rest).1)
  {
    hide Step;
    var all := [first, second] + rest;
    assert all[1..] == [second] + rest && all[1..][1..] == rest;
    var (d, o) := Step(c, first);
    var (e, p) := Step(d, second);
    var os := Run(e, rest).1;
    assert Run(d, all[1..]).1 == [p] + os;
    assert ([Issued(c.queue.next), Cancelled(true)] + os)[1..] == [Cancelled(true)] + os;
    assert ([Cancelled(true)] + os)[1..] == os;
  }

  // ---------------------------------------------------------------- draining what is due

  /** How many leading events are due. */
  function DueCount<T(!new)>(live: seq<Event<T>>, now: nat): (k: nat)
    ensures k <= |live|
    ensures forall i :: 0 <= i < k ==> live[i].at <= now
    ensures k < |live| ==> now < live[k].at
  {
    if live == [] || live[0].at > now then 0 else 1 + DueCount(live[1..], now)
  }

  /** The first callback in `from .. to` to fail, or `to`. */
  function FirstFailure(failing: set<nat>, from: nat, to: nat): (j: nat)
    requires from <= to
    ensures from <= j <= to
    ensures forall i: nat :: from <= i < j ==> i !in failing
    ensures j < to ==> j in failing
    decreases if from <= to then to - from else 0
  {
    if from == to || from in failing then from else FirstFailure(failing, from + 1, to)
  }

  /** The state after `taken` events have been handed out. */
  function Taken<T(!new)>(c: Clock<Eager<T>>, taken: nat): Clock<Eager<T>>
    requires taken <= |c.queue.live|
  {
    Clock(c.now, c.queue.(live := c.queue.live[taken..]), if taken == 0 then c.dispatched else Saturating(c.dispatched + taken))
  }

  lemma PopDueRefines<T(!new)>(c: Clock<Queue<T>>, a: Clock<Eager<T>>)
    requires c.queue.Valid() && Refines(c, a)
    ensures var (d, e) := PopDueStep(c);
            && d.queue.Valid()
            && (if DueCount(a.queue.live, c.now) == 0 then Refines(d, a) && e.None?
                else Refines(d, Taken(a, 1)) && e == Some(a.queue.live[0]))
  {
    StepRefines(c, a, PopDue);
    hide Prune, Insert, Live, Sorted;
  }

  lemma {:induction false} DueDrop<T(!new)>(live: seq<Event<T>>, now: nat, k: nat)
    requires k <= DueCount(live, now)
    ensures DueCount(live[k..], now) == DueCount(live, now) - k
  {
    if k != 0 {
      DueDrop(live[1..], now, k - 1);
      assert live[1..][k - 1..] == live[k..];
    } else {
      assert live[0..] == live;
    }
  }

  /** From `start`, the `k` first due events have been handed out. */
  ghost predicate Drained<T(!new)>(start: Clock<Eager<T>>, c: Clock<Queue<T>>, k: nat) {
    && c.queue.Valid()
    && k <= DueCount(start.queue.live, start.now)
    && Refines(c, Taken(start, k))
  }

  lemma DrainStep<T(!new)>(start: Clock<Eager<T>>, c: Clock<Queue<T>>, k: nat)
    requires Drained(start, c, k)
    ensures var (d, e) := PopDueStep(c);
            if k == DueCount(start.queue.live, start.now) then e.None? && Drained(start, d, k)
            else e == Some(start.queue.live[k]) && Drained(start, d, k + 1)
  {
    var live := start.queue.live;
    PopDueRefines(c, Taken(start, k));
    DueDrop(live, start.now, k);
    hide DueCount, PopDueStep, Queue.Valid, Saturating, Abs;
    if k < DueCount(live, start.now) {
      assert live[k..][1..] == live[k + 1..];
      TakenTwice(start, k);
    }
  }

  lemma TakenTwice<T(!new)>(c: Clock<Eager<T>>, k: nat)
    requires k < |c.queue.live|
    ensures Taken(Taken(c, k), 1) == Taken(c, k + 1)
  {
    assert c.queue.live[k..][1..] == c.queue.live[k + 1..];
  }

  lemma PrefixSnoc<T>(s: seq<T>, k: nat)
    requires k < |s|
    ensures s[..k] + [s[k]] == s[..k + 1] && |s[..k + 1]| == k + 1
  {
  }

  lemma FailureStep(failing: set<nat>, k: nat, to: nat)
    requires k < to
    ensures FirstFailure(failing, k, to) == if k in failing then k else FirstFailure(failing, k + 1, to)
  {
  }

  lemma FailureEnd(failing: set<nat>, to: nat)
    ensures FirstFailure(failing, to, to) == to
  {
  }

  /** The scheduler object over its queue object. */
  class Scheduler<T(!new)> {
    var now: nat
    const queue: EventQueue<T>
    var dispatched: nat

    function View(): Clock<Queue<T>>
      reads this, queue
    {
      Clock(now, queue.View(), dispatched)
    }

    constructor (start: nat)
      ensures View() == Start(start) && fresh(queue)
    {
      now, dispatched := start, 0;
      queue := new EventQueue();
    }

    method ScheduleAbsolute(at: nat, payload: T) returns (outcome: Outcome<T>)
      modifies this, queue
      ensures (View(), outcome) == Step(old(View()), ScheduleAt(at, payload))
    {
      if at < now {
        return Rewind(now, at);
      }
      var id := queue.ScheduleAt(at, payload);
      outcome := Scheduled(id);
    }

    method ScheduleRelative(delay: nat, payload: T) returns (outcome: Outcome<T>)
      modifies this, queue
      ensures (View(), outcome) == Step(old(View()), ScheduleAfter(delay, payload))
    {
      if now + delay > 0xffff_ffff_ffff_ffff {
        return Overflow;
      }
      var id := queue.ScheduleAt(now + delay, payload);
      outcome := Scheduled(id);
    }

    method CancelQueued(id: nat) returns (added: bool)
      modifies queue
      ensures (View(), Cancelled(added)) == Step(old(View()), CancelEvent(id))
    {
      added := queue.CancelEvent(id);
    }

    method NextTimeQueued() returns (at: Option<nat>)
      modifies queue
      ensures (View(), Wakeup(at)) == Step(old(View()), NextWakeup)
    {
      at := queue.Peek();
    }

    method Advance(at: nat) returns (outcome: Outcome<T>)
      modifies this
      ensures (View(), outcome) == Step(old(View()), AdvanceTo(at))
    {
      if at < now {
        return Rewind(now, at);
      }
      now := at;
      outcome := Done;
    }

    method AdvanceNext() returns (outcome: Outcome<T>)
      modifies this, queue
      ensures (View(), outcome) == Step(old(View()), AdvanceToNext)
    {
      var at := NextTimeQueued();
      if at.None? {
        return Wakeup(None);
      }
      var moved := Advance(at.value);
      outcome := if moved.Rewind? then moved else Wakeup(at);
    }

    method TakeDue() returns (event: Option<Event<T>>)
      modifies this, queue
      ensures (View(), event) == PopDueStep(old(View()))
    {
      var at := NextTimeQueued();
      if at.None? || at.value > now {
        return None;
      }
      event := queue.PopEvent();
      if dispatched < 0xffff_ffff_ffff_ffff {
        dispatched := dispatched + 1;
      } else {
        dispatched := 0xffff_ffff_ffff_ffff;
      }
    }

    /** Hands every due event to a callback; it fails on the calls numbered in
        `failing`. A failure consumes the event it was given and leaves the later ones queued. */
    method DispatchDue(failing: set<nat>) returns (count: nat, failed: Option<Event<T>>, ghost handed: seq<Event<T>>)
      requires View().queue.Valid()
      modifies this, queue
      ensures var start := old(AbsClock(View(), View().queue.cancelled));
              var live, due := start.queue.live, DueCount(start.queue.live, start.now);
              && count == FirstFailure(failing, 0, due)
              && (failed.None? <==> count == due)
              && (failed.None? ==> handed == live[..due])
              && (failed.Some? ==> failed.value == live[count] && handed == live[..count + 1])
              && Drained(start, View(), |handed|)
    {
      count, handed, failed := 0, [], None;
      ghost var state := View();
      ghost var start := AbsClock(state, state.queue.cancelled);
      ghost var live, due := start.queue.live, DueCount(start.queue.live, start.now);
      assert Drained(start, state, 0);
      hide *;
      while true
        invariant state == View()
        invariant count <= due && handed == live[..count]
        invariant Drained(start, state, count)
        invariant FirstFailure(failing, count, due) == FirstFailure(failing, 0, due)
        decreases due - count
      {
        DrainStep(start, state, count);
        var event := TakeDue();
        state := View();
        if event.None? {
          FailureEnd(failing, due);
          return;
        }
        FailureStep(failing, count, due);
        PrefixSnoc(live, count);
        handed := handed + [event.value];
        if count in failing {
          failed := event;
          return;
        }
        count := count + 1;
      }
    }
  }
}
