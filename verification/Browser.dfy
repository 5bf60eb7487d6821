/** The browser runner: a page that numbers its requests and a worker that answers each one, over two
    first-in first-out channels, in every interleaving. */
module Browser {
  import opened Options

  /** Numbers are doubles: from here on, adding one changes nothing. */
  const EXACT: nat := 0x20_0000_0000_0000

  function Increment(n: nat): nat {
    if n < EXACT then n + 1 else n
  }

  datatype Message<P> = Message(id: nat, operation: string, payload: P)

  /** A reply carries a result or the text of an error. */
  datatype Reply<V> = Result(id: nat, value: V) | Error(id: nat, text: string)

  /** A promise: not yet settled, fulfilled (with no value, for a reply that has none), or rejected. */
  datatype Promise<V> = Waiting | Fulfilled(value: Option<V>) | Rejected(text: string)

  /** What the emulator does when it is called: it returns or throws. */
  datatype Call<V> = Returns(value: V) | Throws(text: string)

  predicate Known(operation: string) {
    operation == "targets" || operation == "run" || operation == "run-radio"
  }

  /** The worker: exactly one reply to each message, under the message's own id. */
  function Answer<P, V>(m: Message<P>, call: Call<V>): (r: Reply<V>)
    ensures r.id == m.id
    ensures r.Result? <==> Known(m.operation) && call.Returns?
  {
    if !Known(m.operation) then Error(m.id, "unknown worker operation " + m.operation)
    else
      match call
      case Returns(value) => Result(m.id, value)
      case Throws(text) => Error(m.id, text)
  }

  /** How the page settles a promise: an error text that is empty counts as no error. */
  function Settle<V>(r: Reply<V>): (p: Promise<V>)
    ensures p.Rejected? <==> r.Error? && r.text != ""
    ensures !p.Waiting?
  {
    match r
    case Result(_, value) => Fulfilled(Some(value))
    case Error(_, text) => if text != "" then Rejected(text) else Fulfilled(None)
  }

  // ---------------------------------------------------------------- the system

  /** The page's variables and promises (one per request, in order), the two channels, and the history:
      every request made, and what the emulator did for each one handled. */
  datatype System<P(!new), V(!new)> = System(
    nextId: nat,
    pending: map<nat, nat>,
    promises: seq<Promise<V>>,
    toWorker: seq<Message<P>>,
    toPage: seq<Reply<V>>,
    requests: seq<Message<P>>,
    calls: map<nat, Call<V>>)

  datatype Step<P(!new), V(!new)> =
    | Request(operation: string, payload: P, failure: Option<string>)
    | Turn(call: Call<V>)
    | Deliver

  function Start<P(!new), V(!new)>(): System<P, V> {
    System(1, map[], [], [], [], [], map[])
  }

  /** The request is entered before it is posted; when posting throws, the promise is rejected and the
      entry stays. */
  function RequestStep<P(!new), V(!new)>(s: System<P, V>, operation: string, payload: P, failure: Option<string>)
    : System<P, V>
  {
    var message := Message(s.nextId, operation, payload);
    var entered := s.(nextId := Increment(s.nextId), pending := s.pending[s.nextId := |s.promises|],
                      requests := s.requests + [message]);
    if failure.Some? then entered.(promises := s.promises + [Rejected(failure.value)])
    else
      entered.(promises := s.promises + [Waiting],
               toWorker := s.toWorker + [message])
  }

  function TurnStep<P(!new), V(!new)>(s: System<P, V>, call: Call<V>): System<P, V> {
    if s.toWorker == [] then s
    else
      var m := s.toWorker[0];
      s.(toWorker := s.toWorker[1..], toPage := s.toPage + [Answer(m, call)], calls := s.calls[m.id := call])
  }

  /** A promise that is already settled keeps its outcome. */
  function SettleAt<V(!new)>(promises: seq<Promise<V>>, i: nat, r: Reply<V>): (after: seq<Promise<V>>)
    ensures |after| == |promises|
  {
    if i < |promises| && promises[i].Waiting? then promises[i := Settle(r)] else promises
  }

  function DeliverStep<P(!new), V(!new)>(s: System<P, V>): System<P, V> {
    if s.toPage == [] then s
    else
      var r := s.toPage[0];
      var received := s.(toPage := s.toPage[1..]);
      if r.id !in s.pending then received
      else received.(pending := s.pending - {r.id}, promises := SettleAt(s.promises, s.pending[r.id], r))
  }

  function Next<P(!new), V(!new)>(s: System<P, V>, step: Step<P, V>): System<P, V> {
    match step
    case Request(operation, payload, failure) => RequestStep(s, operation, payload, failure)
    case Turn(call) => TurnStep(s, call)
    case Deliver => DeliverStep(s)
  }

  function Run<P(!new), V(!new)>(s: System<P, V>, steps: seq<Step<P, V>>): System<P, V>
    decreases |steps|
  {
    if steps == [] then s else Run(Next(s, steps[0]), steps[1..])
  }

  // ---------------------------------------------------------------- what every interleaving keeps

  /** The ids in flight, oldest first: replies on their way back, then requests on their way out. */
  function Replies<V(!new)>(channel: seq<Reply<V>>): (ids: seq<nat>)
    ensures |ids| == |channel| && forall i :: 0 <= i < |ids| ==> ids[i] == channel[i].id
  {
    seq(|channel|, i requires 0 <= i < |channel| => channel[i].id)
  }

  function Messages<P(!new)>(channel: seq<Message<P>>): (ids: seq<nat>)
    ensures |ids| == |channel| && forall i :: 0 <= i < |ids| ==> ids[i] == channel[i].id
  {
    seq(|channel|, i requires 0 <= i < |channel| => channel[i].id)
  }

  function InFlight<P(!new), V(!new)>(s: System<P, V>): seq<nat> {
    Replies(s.toPage) + Messages(s.toWorker)
  }

  ghost predicate Ascending(ids: seq<nat>) {
    forall i, j :: 0 <= i < j < |ids| ==> ids[i] < ids[j]
  }

  /** The promise of request `id`. */
  function PromiseOf<P(!new), V(!new)>(s: System<P, V>, id: nat): Promise<V>
    requires 1 <= id <= |s.promises|
  {
    s.promises[id - 1]
  }

  /** Requests are numbered from one, what is in flight is in order and awaited, and each entry leads
      to its own promise. */
  ghost predicate Numbered<P(!new), V(!new)>(s: System<P, V>, flight: seq<nat>) {
    && s.nextId == |s.promises| + 1
    && Ascending(flight)
    && (forall id :: id in flight ==> 1 <= id <= |s.promises| && id in s.pending)
    && (forall id :: id in s.pending ==> 1 <= id <= |s.promises| && s.pending[id] == id - 1)
    && (forall id :: id in s.calls ==> 1 <= id <= |s.promises|)
    && |s.requests| == |s.promises|
    && (forall i :: 0 <= i < |s.requests| ==> s.requests[i].id == i + 1)
  }

  /** The worker's reply to request `id`. */
  function AnswerTo<P(!new), V(!new)>(s: System<P, V>, id: nat): Reply<V>
    requires 1 <= id <= |s.requests| && id in s.calls
  {
    Answer(s.requests[id - 1], s.calls[id])
  }

  /** A promise waits exactly while its id is in flight; one that was answered has the outcome of its
      own answer, and one that could not be posted is rejected and keeps its entry. */
  ghost predicate Outcome<P(!new), V(!new)>(s: System<P, V>, flight: seq<nat>, id: nat)
    requires 1 <= id <= |s.promises| && |s.requests| == |s.promises|
  {
    if id in flight then PromiseOf(s, id).Waiting?
    else if id in s.pending then PromiseOf(s, id).Rejected? && id !in s.calls
    else id in s.calls && PromiseOf(s, id) == Settle(AnswerTo(s, id))
  }

  /** Replies on their way back answer the requests of their ids; requests on their way out are as they
      were made, and not yet handled. */
  ghost predicate Channels<P(!new), V(!new)>(s: System<P, V>) {
    && (forall i :: 0 <= i < |s.toPage| ==>
          var id := s.toPage[i].id;
          1 <= id <= |s.requests| && id in s.calls && s.toPage[i] == AnswerTo(s, id))
    && (forall i :: 0 <= i < |s.toWorker| ==>
          var id := s.toWorker[i].id;
          1 <= id <= |s.requests| && id !in s.calls && s.toWorker[i] == s.requests[id - 1])
  }

  /** The invariant of every interleaving, while ids are exact. */
  ghost predicate Valid<P(!new), V(!new)>(s: System<P, V>) {
    && Numbered(s, InFlight(s))
    && (forall id: nat :: 1 <= id <= |s.promises| ==> Outcome(s, InFlight(s), id))
    && Channels(s)
  }

  lemma RequestFlight<P(!new), V(!new)>(s: System<P, V>, operation: string, payload: P, failure: Option<string>)
    ensures InFlight(RequestStep(s, operation, payload, failure))
            == InFlight(s) + if failure.Some? then [] else [s.nextId]
  {
  }

  lemma TurnFlight<P(!new), V(!new)>(s: System<P, V>, call: Call<V>)
    ensures InFlight(TurnStep(s, call)) == InFlight(s)
  {
  }

  lemma DeliverFlight<P(!new), V(!new)>(s: System<P, V>)
    requires s.toPage != []
    ensures InFlight(s) == [s.toPage[0].id] + InFlight(DeliverStep(s))
  {
  }

  lemma RequestKeeps<P(!new), V(!new)>(s: System<P, V>, operation: string, payload: P, failure: Option<string>)
    requires Valid(s) && s.nextId < EXACT
    ensures Valid(RequestStep(s, operation, payload, failure))
  {
    var t := RequestStep(s, operation, payload, failure);
    var f, g := InFlight(s), InFlight(t);
    RequestFlight(s, operation, payload, failure);
    hide InFlight;
    assert s.nextId !in f && s.nextId !in s.calls && s.nextId !in s.pending;
    assert g == f + if failure.Some? then [] else [s.nextId];
    forall id: nat ensures id in g <==> id in f || (failure.None? && id == s.nextId) {
    }
    forall i, j | 0 <= i < j < |g| ensures g[i] < g[j] {
      assert i < |f| && f[i] in f;
    }
    assert Numbered(t, g);
    forall id: nat | 1 <= id <= |t.promises| ensures Outcome(t, g, id) {
      if id < s.nextId {
        assert Outcome(s, f, id);
        assert PromiseOf(t, id) == PromiseOf(s, id);
      }
    }
  }

  /** The first request on its way out comes after every reply, so it is answered just once. */
  lemma TurnHead<P(!new), V(!new)>(s: System<P, V>)
    requires Valid(s) && s.toWorker != []
    ensures var id := s.toWorker[0].id;
            && id in InFlight(s) && id !in s.calls
            && (forall i :: 0 <= i < |s.toPage| ==> s.toPage[i].id != id)
            && (forall i :: 0 < i < |s.toWorker| ==> s.toWorker[i].id != id)
  {
    var f := InFlight(s);
    var k := |s.toPage|;
    assert f[k] == s.toWorker[0].id;
    forall i | 0 <= i < k ensures s.toPage[i].id != f[k] {
      assert f[i] == s.toPage[i].id;
    }
    forall i | 0 < i < |s.toWorker| ensures s.toWorker[i].id != f[k] {
      assert f[k + i] == s.toWorker[i].id;
    }
  }

  lemma TurnKeeps<P(!new), V(!new)>(s: System<P, V>, call: Call<V>)
    requires Valid(s)
    ensures Valid(TurnStep(s, call))
  {
    if s.toWorker != [] {
      var t := TurnStep(s, call);
      TurnHead(s);
      TurnFlight(s, call);
      hide InFlight, Answer, Ascending;
      forall id: nat | 1 <= id <= |t.promises| ensures Outcome(t, InFlight(t), id) {
        assert Outcome(s, InFlight(s), id);
      }
      assert Channels(t);
    }
  }

  /** The oldest reply leaves the flight, and with it its id. */
  lemma DeliverHead<P(!new), V(!new)>(s: System<P, V>)
    requires Valid(s) && s.toPage != []
    ensures var id := s.toPage[0].id;
            && (forall x: nat :: x in InFlight(s) <==> x == id || x in InFlight(DeliverStep(s)))
            && id !in InFlight(DeliverStep(s))
            && Ascending(InFlight(DeliverStep(s)))
            && id in s.pending && s.pending[id] == id - 1 && 1 <= id <= |s.promises|
            && PromiseOf(s, id).Waiting?
            && id in s.calls && AnswerTo(s, id) == s.toPage[0]
  {
    var f, g := InFlight(s), InFlight(DeliverStep(s));
    var id := s.toPage[0].id;
    DeliverFlight(s);
    hide InFlight, DeliverStep;
    forall i | 0 <= i < |g| ensures id < g[i] && g[i] == f[i + 1] {
      assert f[0] < f[i + 1];
    }
    assert id in f;
    assert Outcome(s, f, id);
  }

  lemma DeliverKeeps<P(!new), V(!new)>(s: System<P, V>)
    requires Valid(s)
    ensures Valid(DeliverStep(s))
  {
    if s.toPage != [] {
      var t := DeliverStep(s);
      var id := s.toPage[0].id;
      DeliverHead(s);
      hide InFlight, Settle, Ascending;
      assert Numbered(t, InFlight(t));
      forall x: nat | 1 <= x <= |t.promises| ensures Outcome(t, InFlight(t), x) {
        assert Outcome(s, InFlight(s), x);
        assert x != id ==> PromiseOf(t, x) == PromiseOf(s, x);
      }
      assert Channels(t);
    }
  }

  lemma NextKeeps<P(!new), V(!new)>(s: System<P, V>, step: Step<P, V>)
    requires Valid(s) && (step.Request? ==> s.nextId < EXACT)
    ensures Valid(Next(s, step))
  {
    hide Valid, RequestStep, TurnStep, DeliverStep;
    match step
    case Request(operation, payload, failure) => RequestKeeps(s, operation, payload, failure);
    case Turn(call) => TurnKeeps(s, call);
    case Deliver => DeliverKeeps(s);
  }

  function Requests<P(!new), V(!new)>(steps: seq<Step<P, V>>): nat
    decreases |steps|
  {
    if steps == [] then 0 else (if steps[0].Request? then 1 else 0) + Requests(steps[1..])
  }

  function Failures<P(!new), V(!new)>(steps: seq<Step<P, V>>): nat
    decreases |steps|
  {
    if steps == [] then 0
    else (if steps[0].Request? && steps[0].failure.Some? then 1 else 0) + Failures(steps[1..])
  }

  /** In every interleaving of requests, worker turns and deliveries, as long as ids are exact, the
      invariant holds. */
  lemma {:induction false} RunKeeps<P(!new), V(!new)>(s: System<P, V>, steps: seq<Step<P, V>>)
    requires Valid(s) && s.nextId + Requests(steps) <= EXACT
    ensures Valid(Run(s, steps)) && Run(s, steps).nextId == s.nextId + Requests(steps)
    decreases |steps|
  {
    if steps != [] {
      NextKeeps(s, steps[0]);
      assert Next(s, steps[0]).nextId == s.nextId + if steps[0].Request? then 1 else 0;
      hide Next, Valid;
      RunKeeps(Next(s, steps[0]), steps[1..]);
    }
  }

  lemma StartValid<P(!new), V(!new)>()
    ensures Valid(Start<P, V>())
  {
  }

  /** Every reply that is delivered finds its entry, and settles a promise that was still waiting, with
      the answer to that promise's own request; no other promise changes. */
  lemma DeliverSettles<P(!new), V(!new)>(s: System<P, V>)
    requires Valid(s) && s.toPage != []
    ensures var id := s.toPage[0].id;
            && id in s.pending && id !in DeliverStep(s).pending
            && 1 <= id <= |s.promises|
            && PromiseOf(s, id).Waiting?
            && |s.requests| == |s.promises| && id in s.calls
            && DeliverStep(s).promises == s.promises[id - 1 := Settle(AnswerTo(s, id))]
  {
    DeliverHead(s);
  }

  /** A request that was answered is rejected exactly when its error text is not empty. */
  lemma RejectsIff<P(!new), V(!new)>(s: System<P, V>, id: nat)
    requires Valid(s) && 1 <= id <= |s.promises| && id !in InFlight(s) && id !in s.pending
    ensures |s.requests| == |s.promises| && id in s.calls
    ensures PromiseOf(s, id).Rejected? <==> AnswerTo(s, id).Error? && AnswerTo(s, id).text != ""
    ensures PromiseOf(s, id).Fulfilled? && PromiseOf(s, id).value.None? <==>
            AnswerTo(s, id).Error? && AnswerTo(s, id).text == ""
  {
    assert Outcome(s, InFlight(s), id);
  }

  /** What becomes of a request whose reply was delivered, from the request and the emulator's own answer:
      it is rejected with the text that was thrown, unless that is empty, or because the operation is
      unknown; it is fulfilled with the value that was returned. */
  lemma SettledOutcome<P(!new), V(!new)>(steps: seq<Step<P, V>>, i: nat)
    requires Requests(steps) < EXACT
    requires var s := Run(Start<P, V>(), steps); i < |s.requests| && s.requests[i].id !in s.pending
    ensures var s := Run(Start<P, V>(), steps);
            && |s.promises| == |s.requests| && s.requests[i].id in s.calls
            && var (operation, call) := (s.requests[i].operation, s.calls[s.requests[i].id]);
               var known := operation == "targets" || operation == "run" || operation == "run-radio";
               && (forall text :: s.promises[i] == Rejected(text) <==>
                     if known then call == Throws(text) && text != ""
                     else text == "unknown worker operation " + operation)
               && (forall value :: s.promises[i] == Fulfilled(Some(value)) <==> known && call == Returns(value))
               && (s.promises[i] == Fulfilled(None) <==> known && call == Throws(""))
  {
    var s := Run(Start<P, V>(), steps);
    StartValid<P, V>();
    RunKeeps(Start<P, V>(), steps);
    hide Run, Requests;
    assert s.requests[i].id == i + 1;
    assert Outcome(s, InFlight(s), i + 1);
    var operation := s.requests[i].operation;
    assert "unknown worker operation " + operation != "" by {
      assert |"unknown worker operation " + operation| > 0;
    }
  }

  /** An emulator call that throws an empty text is taken for a success without a value. */
  lemma EmptyErrorSucceeds<P(!new), V(!new)>(payload: P)
    ensures var steps := [Request("run", payload, None), Turn(Throws("")), Deliver];
            Run(Start<P, V>(), steps).promises == [Fulfilled(None)]
  {
    var steps := [Request("run", payload, None), Turn(Throws("")), Deliver];
    RunThree(Start<P, V>(), steps);
    var s1 := Next(Start<P, V>(), steps[0]);
    assert s1.toWorker == [Message(1, "run", payload)] && s1.promises == [Waiting] && s1.pending == map[1 := 0];
    var s2 := Next(s1, steps[1]);
    assert s2.toPage == [Reply<V>.Error(1, "")] && s2.promises == [Waiting] && s2.pending == map[1 := 0];
  }

  lemma RunThree<P(!new), V(!new)>(s: System<P, V>, steps: seq<Step<P, V>>)
    requires |steps| == 3
    ensures Run(s, steps) == Next(Next(Next(s, steps[0]), steps[1]), steps[2])
  {
    hide Next;
    assert steps[1..][1..] == steps[2..] && steps[2..][1..] == [];
    var second := Next(Next(s, steps[0]), steps[1]);
    assert Run(second, steps[2..]) == Run(Next(second, steps[2]), []);
  }

  // ---------------------------------------------------------------- what is left at the end

  function Leaks<P(!new), V(!new)>(s: System<P, V>): (ids: set<nat>)
    ensures forall id :: id in ids <==> id in s.pending && id !in InFlight(s)
  {
    set id | id in s.pending && id !in InFlight(s)
  }

  lemma RequestLeaks<P(!new), V(!new)>(s: System<P, V>, operation: string, payload: P, failure: Option<string>)
    requires Valid(s)
    ensures Leaks(RequestStep(s, operation, payload, failure)) == Leaks(s) + if failure.Some? then {s.nextId} else {}
    ensures s.nextId !in Leaks(s)
  {
    var t := RequestStep(s, operation, payload, failure);
    RequestFlight(s, operation, payload, failure);
    assert s.nextId !in s.pending;
    hide InFlight, Outcome, Channels, Ascending;
    forall id ensures id in Leaks(t) <==> id in Leaks(s) || (failure.Some? && id == s.nextId) {
      assert id in t.pending <==> id in s.pending || id == s.nextId;
    }
  }

  lemma TurnLeaks<P(!new), V(!new)>(s: System<P, V>, call: Call<V>)
    ensures Leaks(TurnStep(s, call)) == Leaks(s)
  {
    TurnFlight(s, call);
    hide InFlight;
  }

  lemma DeliverLeaks<P(!new), V(!new)>(s: System<P, V>)
    requires Valid(s)
    ensures Leaks(DeliverStep(s)) == Leaks(s)
  {
    if s.toPage != [] {
      DeliverHead(s);
      hide InFlight, Outcome, Channels, Ascending, Numbered, Settle, SettleAt;
    }
  }

  /** The entries nothing is in flight for grow by one with every posting that fails, and never shrink. */
  lemma NextLeaks<P(!new), V(!new)>(s: System<P, V>, step: Step<P, V>)
    requires Valid(s)
    ensures Leaks(Next(s, step)) == Leaks(s) + if step.Request? && step.failure.Some? then {s.nextId} else {}
    ensures step.Request? ==> s.nextId !in Leaks(s)
  {
    hide Valid, Leaks, RequestStep, TurnStep, DeliverStep;
    match step
    case Request(operation, payload, failure) => RequestLeaks(s, operation, payload, failure);
    case Turn(call) => TurnLeaks(s, call);
    case Deliver => DeliverLeaks(s);
  }

  lemma {:induction false} RunLeaks<P(!new), V(!new)>(s: System<P, V>, steps: seq<Step<P, V>>)
    requires Valid(s) && s.nextId + Requests(steps) <= EXACT
    ensures |Leaks(Run(s, steps))| == |Leaks(s)| + Failures(steps)
    decreases |steps|
  {
    if steps != [] {
      NextKeeps(s, steps[0]);
      NextLeaks(s, steps[0]);
      assert Next(s, steps[0]).nextId == s.nextId + if steps[0].Request? then 1 else 0;
      hide Next, Valid, Leaks;
      RunLeaks(Next(s, steps[0]), steps[1..]);
    }
  }

  /** Once the channels have drained, every promise is settled, and the table is empty exactly when no
      posting failed. */
  lemma Drained<P(!new), V(!new)>(steps: seq<Step<P, V>>)
    requires Requests(steps) < EXACT
    ensures var s := Run(Start<P, V>(), steps);
            s.toWorker == [] && s.toPage == [] ==>
              && (forall i :: 0 <= i < |s.promises| ==> !s.promises[i].Waiting?)
              && |s.pending| == Failures(steps)
  {
    var s := Run(Start<P, V>(), steps);
    StartValid<P, V>();
    RunKeeps(Start<P, V>(), steps);
    RunLeaks(Start<P, V>(), steps);
    assert Leaks(Start<P, V>()) == {};
    if s.toWorker == [] && s.toPage == [] {
      assert InFlight(s) == [];
      forall i | 0 <= i < |s.promises| ensures !s.promises[i].Waiting? {
        assert Outcome(s, InFlight(s), i + 1);
      }
      assert Leaks(s) == s.pending.Keys;
      assert |s.pending.Keys| == |s.pending|;
    }
  }

  /** One request whose posting throws leaves its entry behind, though nothing is in flight. */
  lemma EntryStays<P(!new), V(!new)>(payload: P, text: string)
    ensures var s := Run(Start<P, V>(), [Request("run", payload, Some(text))]);
            s.toWorker == [] && s.toPage == [] && s.pending == map[1 := 0]
  {
    var steps: seq<Step<P, V>> := [Request("run", payload, Some(text))];
    assert steps[1..] == [];
  }

  // ---------------------------------------------------------------- identifiers

  /** The id of the `k`-th request, counting from zero. */
  function IdOf(k: nat): nat {
    if k < EXACT then k + 1 else EXACT
  }

  lemma {:induction false} NextIdAfter<P(!new), V(!new)>(s: System<P, V>, k: nat, steps: seq<Step<P, V>>)
    requires s.nextId == IdOf(k)
    ensures Run(s, steps).nextId == IdOf(k + Requests(steps))
    decreases |steps|
  {
    if steps != [] {
      NextIdAfter(Next(s, steps[0]), k + (if steps[0].Request? then 1 else 0), steps[1..]);
    }
  }

  /** Every request of the run so far has the id of its place, and so will the next one. */
  ghost predicate Counted<P(!new), V(!new)>(s: System<P, V>) {
    s.nextId == IdOf(|s.requests|) && forall i :: 0 <= i < |s.requests| ==> s.requests[i].id == IdOf(i)
  }

  lemma {:induction false} RunCounts<P(!new), V(!new)>(s: System<P, V>, steps: seq<Step<P, V>>)
    requires Counted(s)
    ensures Counted(Run(s, steps))
    decreases |steps|
  {
    if steps != [] {
      RunCounts(Next(s, steps[0]), steps[1..]);
    }
  }

  /** Two requests of a run have the same id exactly when the earlier one already comes where the counter
      has stopped counting. */
  lemma SameIdIff<P(!new), V(!new)>(steps: seq<Step<P, V>>, j: nat, k: nat)
    requires j < k < |Run(Start<P, V>(), steps).requests|
    ensures var requests := Run(Start<P, V>(), steps).requests;
            requests[j].id == requests[k].id <==> 0x1f_ffff_ffff_ffff <= j
  {
    RunCounts(Start<P, V>(), steps);
    hide Run;
  }

  function Repeated<P(!new), V(!new)>(payload: P, n: nat): (steps: seq<Step<P, V>>)
    ensures |steps| == n
  {
    if n == 0 then [] else [Request("run", payload, None)] + Repeated(payload, n - 1)
  }

  lemma {:induction false} RepeatedRequests<P(!new), V(!new)>(s: System<P, V>, payload: P, n: nat)
    ensures |Run(s, Repeated(payload, n)).requests| == |s.requests| + n
    decreases n
  {
    if n != 0 {
      var steps: seq<Step<P, V>> := Repeated(payload, n);
      assert steps[1..] == Repeated(payload, n - 1);
      RepeatedRequests(Next(s, steps[0]), payload, n - 1);
    }
  }

  /** One request more than two to the 53: the last two share an id. */
  lemma IdsRepeat<P(!new), V(!new)>(payload: P)
    ensures var n := 0x20_0000_0000_0000;
            var requests := Run(Start<P, V>(), Repeated(payload, n + 1)).requests;
            |requests| == n + 1 && requests[n - 1].id == requests[n].id
  {
    RepeatedRequests(Start<P, V>(), payload, EXACT + 1);
    hide Run, Repeated;
    SameIdIff<P, V>(Repeated(payload, EXACT + 1), EXACT - 1, EXACT);
  }

  // ---------------------------------------------------------------- the page and its worker as they run

  /** The page's module variables, its promises and the two channels. */
  class Session<P(!new), V(!new)> {
    var nextId: nat
    var pending: map<nat, nat>
    var promises: seq<Promise<V>>
    var toWorker: seq<Message<P>>
    var toPage: seq<Reply<V>>
    ghost var requests: seq<Message<P>>
    ghost var calls: map<nat, Call<V>>

    ghost function View(): System<P, V>
      reads this
    {
      System(nextId, pending, promises, toWorker, toPage, requests, calls)
    }

    constructor ()
      ensures View() == Start()
    {
      nextId, pending, promises, toWorker, toPage, requests, calls := 1, map[], [], [], [], [], map[];
    }

    /** Makes a request; posting it either succeeds or throws. */
    method SendRequest(operation: string, payload: P, failure: Option<string>) returns (promise: nat)
      modifies this
      ensures View() == RequestStep(old(View()), operation, payload, failure)
      ensures promise == |old(promises)|
    {
      var id := nextId;
      nextId := if nextId < 0x20_0000_0000_0000 then nextId + 1 else nextId;
      promise := |promises|;
      promises := promises + [Waiting];
      pending := pending[id := promise];
      requests := requests + [Message(id, operation, payload)];
      if failure.Some? {
        promises := promises[promise := Rejected(failure.value)];
      } else {
        toWorker := toWorker + [Message(id, operation, payload)];
      }
    }

    /** The worker handles its next message. */
    method WorkerTurn(call: Call<V>)
      modifies this
      ensures View() == TurnStep(old(View()), call)
    {
      if toWorker == [] {
        return;
      }
      var m := toWorker[0];
      toWorker := toWorker[1..];
      var reply: Reply<V>;
      if m.operation == "targets" || m.operation == "run" || m.operation == "run-radio" {
        match call
        case Returns(value) => reply := Result(m.id, value);
        case Throws(text) => reply := Error(m.id, text);
      } else {
        reply := Error(m.id, "unknown worker operation " + m.operation);
      }
      toPage := toPage + [reply];
      calls := calls[m.id := call];
    }

    /** The page handles its next reply. */
    method OnMessage()
      modifies this
      ensures View() == DeliverStep(old(View()))
    {
      if toPage == [] {
        return;
      }
      var r := toPage[0];
      toPage := toPage[1..];
      if r.id !in pending {
        return;
      }
      var promise := pending[r.id];
      pending := pending - {r.id};
      if promise >= |promises| || !promises[promise].Waiting? {
        return;
      }
      if r.Error? && r.text != "" {
        promises := promises[promise := Rejected(r.text)];
      } else {
        promises := promises[promise := Fulfilled(if r.Result? then Some(r.value) else None)];
      }
    }
  }
}
