/** The deterministic event timeline: a priority queue with lazy cancellation, ordered by timestamp
    and then by insertion sequence, and the monotonic scheduler on top of it. */
module Events {
  import opened Options

  const U64_MAX: nat := 0xffff_ffff_ffff_ffff

  /** A queued event. Its identifier is its insertion sequence number. */
  datatype Event<T(!new)> = Event(at: nat, id: nat, payload: T)

  /** Dispatch order: the earlier timestamp first, then the earlier insertion. */
  predicate Before<T(!new)>(e: Event<T>, f: Event<T>) {
    e.at < f.at || (e.at == f.at && e.id < f.id)
  }

  predicate Precedes<T(!new)>(e: Event<T>, f: Event<T>) {
    Before(e, f) && e.id != f.id
  }

  /** Release order, with no identifier twice. */
  ghost predicate Sorted<T(!new)>(s: seq<Event<T>>) {
    forall i, j :: 0 <= i < j < |s| ==> Precedes(s[i], s[j])
  }

  /** The heap, listed in the order in which it releases events; the identifiers whose events are to
      be dropped when they surface; and the next identifier. */
  datatype Queue<T(!new)> = Queue(heap: seq<Event<T>>, cancelled: set<nat>, next: nat) {
    ghost predicate Valid() {
      && Sorted(heap)
      && (forall e :: e in heap ==> e.id < next)
      && (forall id :: id in cancelled ==> id < next || U64_MAX <= id)
      && next <= U64_MAX
    }
  }

  function Insert<T(!new)>(s: seq<Event<T>>, e: Event<T>): (t: seq<Event<T>>)
    ensures |t| == |s| + 1
  {
    if s == [] || Before(e, s[0]) then [e] + s else [s[0]] + Insert(s[1..], e)
  }

  /** Queueing; the identifier space is 64 bits wide. */
  function Push<T(!new)>(q: Queue<T>, at: nat, payload: T): (r: (Queue<T>, Option<nat>)) {
    if q.next == U64_MAX then (q, None)
    else (q.(heap := Insert(q.heap, Event(at, q.next, payload)), next := q.next + 1), Some(q.next))
  }

  /** Marking an identifier as cancelled; the answer says whether it was unmarked. */
  function Cancel<T(!new)>(q: Queue<T>, id: nat): (Queue<T>, bool) {
    (q.(cancelled := q.cancelled + {id}), id !in q.cancelled)
  }

  /** Drops cancelled events from the front, forgetting their identifiers. */
  function Prune<T(!new)>(q: Queue<T>): Queue<T>
    decreases |q.heap|
  {
    if q.heap != [] && q.heap[0].id in q.cancelled then
      Prune(q.(heap := q.heap[1..], cancelled := q.cancelled - {q.heap[0].id}))
    else q
  }

  function Pop<T(!new)>(q: Queue<T>): (Queue<T>, Option<Event<T>>) {
    var p := Prune(q);
    if p.heap == [] then (p, None) else (p.(heap := p.heap[1..]), Some(p.heap[0]))
  }

  function NextTime<T(!new)>(q: Queue<T>): (Queue<T>, Option<nat>) {
    var p := Prune(q);
    (p, if p.heap == [] then None else Some(p.heap[0].at))
  }

  // ---------------------------------------------------------------- eager cancellation

  /** The events that are still to come, in dispatch order. */
  function Live<T(!new)>(s: seq<Event<T>>, cancelled: set<nat>): (t: seq<Event<T>>)
    ensures forall e :: e in t <==> e in s && e.id !in cancelled
  {
    if s == [] then []
    else if s[0].id in cancelled then Live(s[1..], cancelled)
    else [s[0]] + Live(s[1..], cancelled)
  }

  function Pending<T(!new)>(q: Queue<T>): seq<Event<T>> {
    Live(q.heap, q.cancelled)
  }

  /** The queue with eager cancellation: nothing but the events to come, the next identifier, and every
      identifier that was ever cancelled. */
  datatype Eager<T(!new)> = Eager(live: seq<Event<T>>, next: nat, struck: set<nat>)

  function Abs<T(!new)>(q: Queue<T>, struck: set<nat>): Eager<T> {
    Eager(Pending(q), q.next, struck)
  }

  function EagerPush<T(!new)>(e: Eager<T>, at: nat, payload: T): (Eager<T>, Option<nat>) {
    if e.next == U64_MAX then (e, None)
    else (e.(live := Insert(e.live, Event(at, e.next, payload)), next := e.next + 1), Some(e.next))
  }

  function EagerCancel<T(!new)>(e: Eager<T>, id: nat): (Eager<T>, bool) {
    (e.(live := Live(e.live, {id}), struck := e.struck + {id}), id !in e.struck)
  }

  function EagerPop<T(!new)>(e: Eager<T>): (Eager<T>, Option<Event<T>>) {
    if e.live == [] then (e, None) else (e.(live := e.live[1..]), Some(e.live[0]))
  }

  // ---------------------------------------------------------------- lazy refines eager

  lemma {:induction false} InsertSorted<T(!new)>(s: seq<Event<T>>, e: Event<T>)
    requires Sorted(s) && forall f :: f in s ==> f.id != e.id
    ensures Sorted(Insert(s, e))
    ensures forall f :: f in Insert(s, e) <==> f == e || f in s
  {
    if s == [] {
    } else if Before(e, s[0]) {
      assert forall i :: 0 < i < |s| ==> Precedes(s[0], s[i]);
      assert forall i :: 0 <= i < |s| ==> s[i] in s;
    } else {
      assert s[0] in s;
      var rest := Insert(s[1..], e);
      InsertSorted(s[1..], e);
      assert Insert(s, e) == [s[0]] + rest;
      forall j | 0 <= j < |rest| ensures Precedes(s[0], rest[j]) {
        assert rest[j] in rest;
        if rest[j] != e {
          assert rest[j] in s[1..];
        }
      }
      assert s == [s[0]] + s[1..];
    }
  }

  lemma {:induction false} LiveInsert<T(!new)>(s: seq<Event<T>>, e: Event<T>, cancelled: set<nat>)
    requires Sorted(s) && e.id !in cancelled
    ensures Live(Insert(s, e), cancelled) == Insert(Live(s, cancelled), e)
  {
    if s == [] {
      assert Insert(s, e)[1..] == [];
    } else if Before(e, s[0]) {
      assert ([e] + s)[1..] == s;
      LiveHead(s, e, cancelled);
    } else {
      LiveInsert(s[1..], e, cancelled);
      assert Insert(s, e)[1..] == Insert(s[1..], e);
    }
  }

  /** What precedes a sorted list precedes every sublist of it. */
  lemma LiveHead<T(!new)>(s: seq<Event<T>>, e: Event<T>, cancelled: set<nat>)
    requires Sorted(s) && s != [] && Before(e, s[0])
    ensures Live(s, cancelled) == [] || Before(e, Live(s, cancelled)[0])
  {
    var live := Live(s, cancelled);
    if live != [] {
      assert live[0] in s;
    }
  }

  lemma {:induction false} LiveCancel<T(!new)>(s: seq<Event<T>>, cancelled: set<nat>, id: nat)
    ensures Live(s, cancelled + {id}) == Live(Live(s, cancelled), {id})
  {
    if s != [] {
      LiveCancel(s[1..], cancelled, id);
    }
  }

  /** Forgetting an identifier that no queued event carries changes nothing. */
  lemma {:induction false} LiveForget<T(!new)>(s: seq<Event<T>>, cancelled: set<nat>, id: nat)
    requires forall e :: e in s ==> e.id != id
    ensures Live(s, cancelled - {id}) == Live(s, cancelled)
  {
    if s != [] {
      assert s[0] in s;
      LiveForget(s[1..], cancelled, id);
    }
  }

  lemma {:induction false} LiveNone<T(!new)>(s: seq<Event<T>>)
    ensures Live(s, {}) == s
  {
    if s != [] {
      LiveNone(s[1..]);
    }
  }

  lemma {:induction false} PruneKeeps<T(!new)>(q: Queue<T>)
    requires q.Valid()
    ensures Prune(q).Valid() && Pending(Prune(q)) == Pending(q) && Prune(q).next == q.next
    ensures Prune(q).cancelled <= q.cancelled
    ensures Prune(q).heap == [] || Prune(q).heap[0].id !in Prune(q).cancelled
    decreases |q.heap|
  {
    if q.heap != [] && q.heap[0].id in q.cancelled {
      var id := q.heap[0].id;
      var p := q.(heap := q.heap[1..], cancelled := q.cancelled - {id});
      forall e | e in p.heap ensures e.id != id {
        var i :| 0 <= i < |p.heap| && p.heap[i] == e;
        assert Precedes(q.heap[0], q.heap[i + 1]);
      }
      LiveForget(p.heap, q.cancelled, id);
      PruneKeeps(p);
    }
  }

  lemma PushRefines<T(!new)>(q: Queue<T>, struck: set<nat>, at: nat, payload: T)
    requires q.Valid()
    ensures Push(q, at, payload).0.Valid()
    ensures var (p, id) := Push(q, at, payload);
            p.cancelled == q.cancelled && (Abs(p, struck), id) == EagerPush(Abs(q, struck), at, payload)
  {
    if q.next != U64_MAX {
      InsertSorted(q.heap, Event(at, q.next, payload));
      LiveInsert(q.heap, Event(at, q.next, payload), q.cancelled);
    }
  }

  /** Cancelling any identifier issued so far (or one that never will be) takes effect at once. */
  lemma CancelRefines<T(!new)>(q: Queue<T>, struck: set<nat>, id: nat)
    requires q.Valid() && (id < q.next || U64_MAX <= id)
    ensures Cancel(q, id).0.Valid()
    ensures Abs(Cancel(q, id).0, struck + {id}) == EagerCancel(Abs(q, struck), id).0
  {
    LiveCancel(q.heap, q.cancelled, id);
  }

  lemma PopRefines<T(!new)>(q: Queue<T>, struck: set<nat>)
    requires q.Valid()
    ensures Pop(q).0.Valid() && Pop(q).0.cancelled <= q.cancelled
    ensures var (p, e) := Pop(q); (Abs(p, struck), e) == EagerPop(Abs(q, struck))
  {
    PruneKeeps(q);
  }

  lemma NextTimeRefines<T(!new)>(q: Queue<T>)
    requires q.Valid()
    ensures NextTime(q).0.Valid() && NextTime(q).0.cancelled <= q.cancelled && NextTime(q).0.next == q.next
    ensures var (p, at) := NextTime(q);
            Pending(p) == Pending(q) && at == if Pending(q) == [] then None else Some(Pending(q)[0].at)
  {
    PruneKeeps(q);
  }

  // ---------------------------------------------------------------- cancelling what was never issued

  function PushAll<T(!new)>(q: Queue<T>, items: seq<(nat, T)>): (r: Queue<T>)
    ensures r.cancelled == q.cancelled
    decreases |items|
  {
    if items == [] then q else PushAll(Push(q, items[0].0, items[0].1).0, items[1..])
  }

  function EagerPushAll<T(!new)>(e: Eager<T>, items: seq<(nat, T)>): (r: Eager<T>)
    ensures forall f :: f in e.live ==> f in r.live
    decreases |items|
  {
    if items == [] then e
    else
      InsertKeeps(e.live, Event(items[0].0, e.next, items[0].1));
      EagerPushAll(EagerPush(e, items[0].0, items[0].1).0, items[1..])
  }

  lemma {:induction false} InsertKeeps<T(!new)>(s: seq<Event<T>>, e: Event<T>)
    ensures e in Insert(s, e) && forall f :: f in s ==> f in Insert(s, e)
  {
    if s != [] && !Before(e, s[0]) {
      InsertKeeps(s[1..], e);
      assert Insert(s, e) == [s[0]] + Insert(s[1..], e);
      assert s == [s[0]] + s[1..];
    }
  }

  lemma {:induction false} PushAllRefines<T(!new)>(q: Queue<T>, struck: set<nat>, items: seq<(nat, T)>)
    requires q.Valid()
    ensures Abs(PushAll(q, items), struck) == EagerPushAll(Abs(q, struck), items)
    decreases |items|
  {
    if items != [] {
      PushRefines(q, struck, items[0].0, items[0].1);
      PushAllRefines(Push(q, items[0].0, items[0].1).0, struck, items[1..]);
    }
  }

  /** Pushing up to an identifier issues it. */
  lemma {:induction false} PushAllIssues<T(!new)>(e: Eager<T>, id: nat, items: seq<(nat, T)>)
    requires e.next <= id < U64_MAX && |items| == id - e.next + 1
    ensures exists f :: f in EagerPushAll(e, items).live && f.id == id
    decreases |items|
  {
    var f := Event(items[0].0, e.next, items[0].1);
    InsertKeeps(e.live, f);
    var p := EagerPush(e, items[0].0, items[0].1).0;
    if id == e.next {
      assert f in EagerPushAll(p, items[1..]).live;
    } else {
      PushAllIssues(p, id, items[1..]);
    }
  }

  /** Every payload queued from here on is to come exactly as it would be without the cancellation. */
  ghost predicate SameFuture<T(!new)>(p: Queue<T>, q: Queue<T>, items: seq<(nat, T)>) {
    Abs(PushAll(p, items), {}) == Abs(PushAll(q, items), {})
  }

  lemma LaterDropped<T(!new)>(q: Queue<T>, id: nat, payload: T)
    requires q.Valid() && q.next <= id < U64_MAX
    ensures var items := seq(id - q.next + 1, i => (0, payload));
            && id in PushAll(Cancel(q, id).0, items).cancelled
            && !SameFuture(Cancel(q, id).0, q, items)
  {
    var items := seq(id - q.next + 1, i => (0, payload));
    PushAllIssues(Abs(q, {}), id, items);
    PushAllRefines(q, {}, items);
    var f :| f in EagerPushAll(Abs(q, {}), items).live && f.id == id;
    assert f in Pending(PushAll(q, items)) && f !in Pending(PushAll(Cancel(q, id).0, items));
  }

  /** Cancelling an identifier that this queue did not issue is harmless, whatever is queued later,
      exactly when the queue has passed that identifier (or never reaches it) and no pending event
      carries it: otherwise the queue's own event of that number is dropped, now or when it comes. */
  lemma CancelHarmlessIff<T(!new)>(q: Queue<T>, id: nat, payload: T)
    requires q.Valid()
    ensures (forall items :: SameFuture(Cancel(q, id).0, q, items))
            <==> (id < q.next || U64_MAX <= id) && forall e :: e in Pending(q) ==> e.id != id
  {
    if q.next <= id < U64_MAX {
      LaterDropped(q, id, payload);
    } else if forall e :: e in Pending(q) ==> e.id != id {
      CancelRefines(q, {}, id);
      LiveForget(Pending(q), {id}, id);
      LiveNone(Pending(q));
      assert {id} - {id} == {};
      forall items: seq<(nat, T)> ensures SameFuture(Cancel(q, id).0, q, items) {
        PushAllRefines(Cancel(q, id).0, {}, items);
        PushAllRefines(q, {}, items);
      }
    } else {
      var e :| e in Pending(q) && e.id == id;
      assert e !in Pending(Cancel(q, id).0);
      assert !SameFuture(Cancel(q, id).0, q, []);
    }
  }

  /** Lazy cancellation does what removing the event at once would do, whatever is queued later, exactly
      for the identifiers already issued and the one that never will be. */
  lemma CancelPromptIff<T(!new)>(q: Queue<T>, id: nat, payload: T)
    requires q.Valid()
    ensures (forall items :: Abs(PushAll(Cancel(q, id).0, items), {id}) == EagerPushAll(EagerCancel(Abs(q, {}), id).0, items))
            <==> id < q.next || U64_MAX <= id
  {
    if id < q.next || U64_MAX <= id {
      CancelRefines(q, {}, id);
      assert {} + {id} == {id};
      forall items: seq<(nat, T)>
        ensures Abs(PushAll(Cancel(q, id).0, items), {id}) == EagerPushAll(EagerCancel(Abs(q, {}), id).0, items)
      {
        PushAllRefines(Cancel(q, id).0, {id}, items);
      }
    } else {
      var items := seq(id - q.next + 1, i => (0, payload));
      PushAllIssues(EagerCancel(Abs(q, {}), id).0, id, items);
      LaterDropped(q, id, payload);
    }
  }

  /** The `k`-th stored event carries `id`, and everything stored up to it is cancelled. */
  ghost predicate Exposed<T(!new)>(q: Queue<T>, id: nat, k: int) {
    0 <= k < |q.heap| && q.heap[k].id == id && forall j :: 0 <= j <= k ==> q.heap[j].id in q.cancelled
  }

  /** A pruned identifier is forgotten, so a second cancellation reports success again; that is so
      exactly when the event is stored and everything stored up to it is cancelled. */
  lemma {:induction false} PruneForgetsIff<T(!new)>(q: Queue<T>, id: nat)
    requires Sorted(q.heap) && id in q.cancelled
    ensures id !in Prune(q).cancelled <==> exists k :: Exposed(q, id, k)
    decreases |q.heap|
  {
    if q.heap != [] && q.heap[0].id in q.cancelled {
      var first := q.heap[0].id;
      var p := q.(heap := q.heap[1..], cancelled := q.cancelled - {first});
      if first == id {
        PruneShrinks(p);
        assert Exposed(q, id, 0);
      } else {
        PruneForgetsIff(p, id);
        forall e | e in p.heap ensures e.id != first {
          var i :| 0 <= i < |p.heap| && p.heap[i] == e;
          assert Precedes(q.heap[0], q.heap[i + 1]);
        }
        ExposedLater(q, p, id);
      }
    } else {
      forall k ensures !Exposed(q, id, k) {
        assert 0 <= k < |q.heap| ==> 0 <= 0 <= k;
      }
    }
  }

  lemma ExposedLater<T(!new)>(q: Queue<T>, p: Queue<T>, id: nat)
    requires q.heap != [] && q.heap[0].id in q.cancelled && q.heap[0].id != id
    requires forall e :: e in q.heap[1..] ==> e.id != q.heap[0].id
    requires p.heap == q.heap[1..] && p.cancelled == q.cancelled - {q.heap[0].id}
    ensures (exists k :: Exposed(q, id, k)) <==> exists k :: Exposed(p, id, k)
  {
    if k :| Exposed(q, id, k) {
      assert k != 0;
      forall j | 0 <= j <= k - 1 ensures p.heap[j].id in p.cancelled {
        assert p.heap[j] == q.heap[j + 1] && p.heap[j] in p.heap;
      }
      assert Exposed(p, id, k - 1);
    }
    if k :| Exposed(p, id, k) {
      forall j | 0 <= j <= k + 1 ensures q.heap[j].id in q.cancelled {
        if j > 0 {
          assert q.heap[j] == p.heap[j - 1];
        }
      }
      assert Exposed(q, id, k + 1);
    }
  }

  lemma {:induction false} PruneShrinks<T(!new)>(q: Queue<T>)
    ensures Prune(q).cancelled <= q.cancelled && Prune(q).next == q.next
    decreases |q.heap|
  {
    if q.heap != [] && q.heap[0].id in q.cancelled {
      PruneShrinks(q.(heap := q.heap[1..], cancelled := q.cancelled - {q.heap[0].id}));
    }
  }

  // ---------------------------------------------------------------- the queue as an object

  /** The queue object; its heap is the library's, listed in release order. */
  class EventQueue<T(!new)> {
    var heap: seq<Event<T>>
    var cancelled: set<nat>
    var nextSequence: nat

    function View(): Queue<T>
      reads this
    {
      Queue(heap, cancelled, nextSequence)
    }

    constructor ()
      ensures View() == Queue([], {}, 0)
    {
      heap, cancelled, nextSequence := [], {}, 0;
    }

    method ScheduleAt(at: nat, payload: T) returns (id: Option<nat>)
      modifies this
      ensures (View(), id) == Push(old(View()), at, payload)
    {
      var sequence := nextSequence;
      if sequence == 0xffff_ffff_ffff_ffff {
        return None;
      }
      nextSequence := sequence + 1;
      heap := Insert(heap, Event(at, sequence, payload));
      return Some(sequence);
    }

    method CancelEvent(id: nat) returns (added: bool)
      modifies this
      ensures (View(), added) == Cancel(old(View()), id)
    {
      added := id !in cancelled;
      cancelled := cancelled + {id};
    }

    method PopEvent() returns (next: Option<Event<T>>)
      modifies this
      ensures (View(), next) == Pop(old(View()))
    {
      while heap != []
        invariant Prune(View()) == Prune(old(View()))
        decreases |heap|
      {
        var event := heap[0];
        if event.id !in cancelled {
          heap := heap[1..];
          return Some(event);
        }
        cancelled := cancelled - {event.id};
        heap := heap[1..];
      }
      next := None;
    }

    method Peek() returns (at: Option<nat>)
      modifies this
      ensures (View(), at) == NextTime(old(View()))
    {
      while heap != []
        invariant Prune(View()) == Prune(old(View()))
        decreases |heap|
      {
        if heap[0].id !in cancelled {
          return Some(heap[0].at);
        }
        cancelled := cancelled - {heap[0].id};
        heap := heap[1..];
      }
      at := None;
    }
  }
}
