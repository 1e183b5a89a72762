/**
 Accounting for messages over whole runs: every enqueued message is still queued or has ended exactly
 once, in order, and its write attempts add up.
 */
module Accounting {
  import opened Bytes
  import opened Protocol

  // ----- Reading the log

  function EnqueuedIn(log: seq<Event>): seq<Request> {
    if log == [] then []
    else
      var e := log[|log| - 1];
      EnqueuedIn(log[..|log| - 1]) + if e.Enqueued? then [e.request] else []
  }

  function EndedIn(log: seq<Event>): seq<Request> {
    if log == [] then []
    else
      var e := log[|log| - 1];
      EndedIn(log[..|log| - 1]) + if e.Ended? then [e.request] else []
  }

  /** Number of write attempts for a request. */
  function WritesOf(log: seq<Event>, r: Request): nat {
    if log == [] then 0
    else
      var e := log[|log| - 1];
      WritesOf(log[..|log| - 1], r) + if e.RequestWrite? && e.request == r then 1 else 0
  }

  /** Number of timeout handler calls for a request. */
  function TimeoutCallsOf(log: seq<Event>, r: Request): nat {
    if log == [] then 0
    else
      var e := log[|log| - 1];
      TimeoutCallsOf(log[..|log| - 1], r) + if e.TimeoutHandled? && e.request == r then 1 else 0
  }

  function RequestsOf(queue: seq<Item>): (rs: seq<Request>)
    ensures |rs| == |queue|
  {
    seq(|queue|, i requires 0 <= i < |queue| => queue[i].request)
  }

  // ----- What must add up

  /** The number of writes that goes with each way to end. */
  predicate EndingAddsUp(r: Request, ending: Ending, writes: nat) {
    match ending
    case Answered => !r.noAnswer && 1 <= writes <= r.budget
    case TimedOut => !r.noAnswer && writes == r.budget
    case SentWithoutAnswer => r.noAnswer && writes == r.budget == 1
    case GivenUp => writes == r.budget
  }

  predicate EndingsAddUp(log: seq<Event>) {
    forall e | e in log && e.Ended? :: EndingAddsUp(e.request, e.ending, WritesOf(log, e.request))
  }

  predicate BudgetSound(r: Request) {
    1 <= r.budget <= MAX_PACKET_RETRIES + 1 && (r.noAnswer ==> r.budget == 1)
  }

  predicate ItemAddsUp(item: Item, log: seq<Event>) {
    BudgetSound(item.request) && item.retries <= item.request.budget
    && WritesOf(log, item.request) == item.request.budget - item.retries
  }

  /** Ended messages followed by queued ones are the enqueued ones, numbered in order. */
  predicate InOrder(queue: seq<Item>, nextId: nat, log: seq<Event>) {
    && EndedIn(log) + RequestsOf(queue) == EnqueuedIn(log)
    && |EnqueuedIn(log)| == nextId
    && forall i | 0 <= i < nextId :: EnqueuedIn(log)[i].id == i
  }

  predicate WritesEnqueued(nextId: nat, log: seq<Event>) {
    forall e | e in log && e.RequestWrite? :: e.request.id < nextId
  }

  predicate ItemsAddUp(queue: seq<Item>, log: seq<Event>) {
    forall i | 0 <= i < |queue| :: ItemAddsUp(queue[i], log) && (i > 0 ==> queue[i].retries == queue[i].request.budget)
  }

  predicate Accounted(queue: seq<Item>, nextId: nat, log: seq<Event>) {
    && InOrder(queue, nextId, log) && WritesEnqueued(nextId, log)
    && ItemsAddUp(queue, log) && EndingsAddUp(log)
  }

  // ----- Facts about logs

  lemma LogSnoc(log: seq<Event>, e: Event, r: Request)
    ensures EnqueuedIn(log + [e]) == EnqueuedIn(log) + if e.Enqueued? then [e.request] else []
    ensures EndedIn(log + [e]) == EndedIn(log) + if e.Ended? then [e.request] else []
    ensures WritesOf(log + [e], r) == WritesOf(log, r) + if e.RequestWrite? && e.request == r then 1 else 0
    ensures TimeoutCallsOf(log + [e], r)
         == TimeoutCallsOf(log, r) + if e.TimeoutHandled? && e.request == r then 1 else 0
  {
    Snoc(log, e);
  }

  lemma {:induction false} EndedListed(log: seq<Event>, e: Event)
    requires e in log && e.Ended?
    ensures e.request in EndedIn(log)
  {
    var front, last := log[..|log| - 1], log[|log| - 1];
    if e != last {
      assert e in front;
      EndedListed(front, e);
    } else {
      assert EndedIn(log)[|EndedIn(front)|] == e.request;
    }
  }

  lemma {:induction false} UnwrittenHasNoWrites(log: seq<Event>, r: Request)
    requires forall e | e in log && e.RequestWrite? :: e.request != r
    ensures WritesOf(log, r) == 0
  {
    if log != [] {
      var front := log[..|log| - 1];
      assert forall e | e in front :: e in log;
      UnwrittenHasNoWrites(front, r);
    }
  }

  lemma {:induction false} NoWritesUnwritten(log: seq<Event>, r: Request, e: Event)
    requires WritesOf(log, r) == 0 && e in log && e.RequestWrite?
    ensures e.request != r
  {
    var front, last := log[..|log| - 1], log[|log| - 1];
    if e != last {
      NoWritesUnwritten(front, r, e);
    }
  }

  /** An ended request is not in the queue, and queued requests differ. */
  lemma QueuedIsDistinct(queue: seq<Item>, nextId: nat, log: seq<Event>, i: nat)
    requires InOrder(queue, nextId, log) && i < |queue|
    ensures queue[i].request !in EndedIn(log) && queue[i].request.id == |EndedIn(log)| + i < nextId
    ensures forall j | 0 <= j < |queue| && j != i :: queue[j].request != queue[i].request
  {
    hide EndedIn, EnqueuedIn;
    var ended, all := EndedIn(log), EnqueuedIn(log);
    forall j | 0 <= j < |queue| ensures queue[j].request.id == |ended| + j {
      assert (ended + RequestsOf(queue))[|ended| + j] == queue[j].request == all[|ended| + j];
    }
    forall k | 0 <= k < |ended| ensures ended[k].id == k {
      assert (ended + RequestsOf(queue))[k] == ended[k] == all[k];
    }
  }

  // ----- The moves of the protocol keep the books

  lemma EnqueueKeepsBooks(p: Proto, r: Request)
    requires Accounted(p.queue, p.nextId, p.log) && r.id == p.nextId && BudgetSound(r)
    ensures var q := Enqueue(p, r); Accounted(q.queue, q.nextId, q.log)
  {
    hide EndedIn, EnqueuedIn, WritesOf;
    var q := Enqueue(p, r);
    LogSnoc(p.log, Enqueued(r), r);
    assert RequestsOf(q.queue) == RequestsOf(p.queue) + [r];
    assert EndedIn(p.log) + (RequestsOf(p.queue) + [r]) == (EndedIn(p.log) + RequestsOf(p.queue)) + [r];
    UnwrittenHasNoWrites(p.log, r);
    forall s ensures WritesOf(q.log, s) == WritesOf(p.log, s) {
      LogSnoc(p.log, Enqueued(r), s);
    }
  }

  /** Events other than enqueueing, writing and ending leave the books alone. */
  lemma NeutralKeepsBooks(queue: seq<Item>, nextId: nat, log: seq<Event>, e: Event)
    requires Accounted(queue, nextId, log) && !e.Enqueued? && !e.RequestWrite? && !e.Ended?
    ensures Accounted(queue, nextId, log + [e])
  {
    hide EndedIn, EnqueuedIn, WritesOf;
    forall s
      ensures EnqueuedIn(log + [e]) == EnqueuedIn(log) && EndedIn(log + [e]) == EndedIn(log)
      ensures WritesOf(log + [e], s) == WritesOf(log, s)
    {
      LogSnoc(log, e, s);
    }
    var some: Request := Request(0, Message(0, []), false, false, 0, 0);
    LogSnoc(log, e, some);
  }

  lemma WriteKeepsBooks(queue: seq<Item>, nextId: nat, log: seq<Event>, e: Event)
    requires Accounted(queue, nextId, log) && queue != [] && queue[0].retries > 0
    requires e.RequestWrite? && e.request == queue[0].request
    ensures Accounted([Item(queue[0].request, queue[0].retries - 1)] + queue[1..], nextId, log + [e])
  {
    hide EndedIn, EnqueuedIn, WritesOf;
    var r := queue[0].request;
    var queue' := [Item(r, queue[0].retries - 1)] + queue[1..];
    LogSnoc(log, e, r);
    assert RequestsOf(queue') == RequestsOf(queue);
    QueuedIsDistinct(queue, nextId, log, 0);
    forall s | s != r ensures WritesOf(log + [e], s) == WritesOf(log, s) {
      LogSnoc(log, e, s);
    }
    forall d | d in log + [e] && d.Ended? ensures EndingAddsUp(d.request, d.ending, WritesOf(log + [e], d.request)) {
      EndedListed(log, d);
    }
  }

  lemma PopKeepsBooks(queue: seq<Item>, nextId: nat, log: seq<Event>, ending: Ending)
    requires Accounted(queue, nextId, log) && queue != []
    requires EndingAddsUp(queue[0].request, ending, queue[0].request.budget - queue[0].retries)
    ensures Accounted(queue[1..], nextId, log + [Ended(queue[0].request, ending)])
  {
    hide EndedIn, EnqueuedIn, WritesOf;
    var r := queue[0].request;
    var e := Ended(r, ending);
    LogSnoc(log, e, r);
    assert RequestsOf(queue) == [r] + RequestsOf(queue[1..]);
    assert (EndedIn(log) + [r]) + RequestsOf(queue[1..]) == EndedIn(log) + ([r] + RequestsOf(queue[1..]));
    forall s ensures WritesOf(log + [e], s) == WritesOf(log, s) {
      LogSnoc(log, e, s);
    }
  }
}
