/** The accounting theorem: exactly one outcome for every message, first come first served. */
module Outcomes {
  import opened Bytes
  import opened FrameCodec
  import opened Protocol
  import opened Accounting
  import opened ProtocolLaws

  lemma {:induction false} EndingsListed(log: seq<Event>, r: Request, ending: Ending)
    ensures EndingsOf(log, r, ending) <= multiset(EndedIn(log))[r]
    ensures EndingsOf(log, r, ending) > 0 <==> Ended(r, ending) in log
  {
    if log != [] {
      var front, e := log[..|log| - 1], log[|log| - 1];
      EndingsListed(front, r, ending);
      assert log == front + [e];
      LogSnoc(front, e, r);
      EndingsSnoc(front, e, r, ending);
    }
  }

  lemma {:induction false} NumberedOnce(rs: seq<Request>, r: Request)
    requires forall i | 0 <= i < |rs| :: rs[i].id == i
    ensures multiset(rs)[r] <= 1
  {
    if rs != [] {
      var front, last := rs[..|rs| - 1], rs[|rs| - 1];
      NumberedOnce(front, r);
      assert rs == front + [last];
      if multiset(front)[r] > 0 {
        assert r in front;
      }
    }
  }

  lemma EndedAreNumbered(p: Proto, r: Request)
    requires Books(p)
    ensures multiset(EndedIn(p.log))[r] <= 1
  {
    hide EndedIn, EnqueuedIn;
    var ended, all := EndedIn(p.log), EnqueuedIn(p.log);
    forall i | 0 <= i < |ended| ensures ended[i].id == i {
      assert ended[i] == (ended + RequestsOf(p.queue))[i] == all[i];
    }
    NumberedOnce(ended, r);
  }

  /**
   Over every run: the messages that ended, in the order they ended, followed by those still queued,
   are the enqueued ones in the order they were enqueued, each with its own number; so each ends at
   most once. The writes of each add up to its outcome, and its timeout handler ran exactly once if
   it timed out and never otherwise.
   */
  lemma ExactlyOneOutcome(inputs: seq<Input>)
    ensures var p := Run(Start(), inputs);
            && EndedIn(p.log) + RequestsOf(p.queue) == EnqueuedIn(p.log)
            && (forall i | 0 <= i < |EnqueuedIn(p.log)| :: EnqueuedIn(p.log)[i].id == i)
            && EndingsAddUp(p.log)
            && (forall i | 0 <= i < |p.queue| ::
                  var item := p.queue[i];
                  WritesOf(p.log, item.request) == item.request.budget - item.retries <= MAX_PACKET_RETRIES + 1)
            && (forall r :: TimeoutCallsOf(p.log, r) == if Ended(r, TimedOut) in p.log then 1 else 0)
  {
    hide EndedIn, EnqueuedIn, WritesOf, TimeoutCallsOf, EndingsOf, Run;
    var p := Run(Start(), inputs);
    RunIsSound(inputs);
    forall r ensures TimeoutCallsOf(p.log, r) == if Ended(r, TimedOut) in p.log then 1 else 0 {
      EndingsListed(p.log, r, TimedOut);
      EndedAreNumbered(p, r);
    }
    forall i | 0 <= i < |p.queue|
      ensures var item := p.queue[i];
              WritesOf(p.log, item.request) == item.request.budget - item.retries <= MAX_PACKET_RETRIES + 1
    {
      assert ItemAddsUp(p.queue[i], p.log);
    }
  }

  /**
   In every reachable waiting state the front of the queue is the request whose answer is due, and the
   frames there to be taken as its answer are those that have arrived since it was sent.
   */
  lemma WaitingInvariant(inputs: seq<Input>)
    ensures var p := Run(Start(), inputs);
            p.state == WAITING_FOR_ANSWER ==>
              && p.queue != [] && !p.queue[0].request.noAnswer && 0 <= p.queue[0].retries <= MAX_PACKET_RETRIES
              && p.lastType == p.queue[0].request.message.frameType
              && LastSent(p.log) == Some(p.queue[0].request)
              && p.incoming == ArrivedSinceSent(p.log)
  {
    hide Run, LastSent, ArrivedSinceSent, WritesOf;
    RunIsSound(inputs);
    var p := Run(Start(), inputs);
    if p.state == WAITING_FOR_ANSWER {
      FrontAddsUp(p);
    }
  }

  // ----- Which frame an answer is

  /** Log entry i is the last successful write of a request. */
  predicate SentAt(log: seq<Event>, i: nat) {
    && i < |log| && log[i].RequestWrite? && log[i].ok
    && forall n | i < n < |log| :: !(log[n].RequestWrite? && log[n].ok)
  }

  lemma {:induction false} FindSent(log: seq<Event>) returns (i: nat)
    requires LastSent(log).Some?
    ensures SentAt(log, i) && LastSent(log) == Some(log[i].request)
  {
    i := |log| - 1;
    if !(log[i].RequestWrite? && log[i].ok) {
      i := FindSent(log[..|log| - 1]);
    }
  }

  lemma {:induction false} NoArrivals(log: seq<Event>, i: nat)
    requires SentAt(log, i) && ArrivedSinceSent(log) == []
    ensures forall n | i < n < |log| && log[n].Arrived? :: log[n].frames == []
  {
    if i < |log| - 1 {
      var front := log[..|log| - 1];
      NoArrivals(front, i);
      assert forall n | i < n < |front| :: front[n] == log[n];
    }
  }

  /** Log entry k brings frame f, and none before it since entry i brings any. */
  predicate FirstArrivedAt(log: seq<Event>, i: nat, k: nat, f: Frame) {
    && i < k < |log| && log[k].Arrived? && [f] <= log[k].frames
    && forall n | i < n < k && log[n].Arrived? :: log[n].frames == []
  }

  lemma {:induction false} FindFirstArrival(log: seq<Event>, i: nat, f: Frame) returns (k: nat)
    requires SentAt(log, i) && [f] <= ArrivedSinceSent(log)
    ensures FirstArrivedAt(log, i, k, f)
  {
    assert i < |log| - 1;
    var front := log[..|log| - 1];
    assert SentAt(front, i);
    assert forall n | 0 <= n < |front| :: front[n] == log[n];
    if ArrivedSinceSent(front) == [] {
      NoArrivals(front, i);
      k := |log| - 1;
    } else {
      k := FindFirstArrival(front, i, f);
    }
  }

  /**
   Over every run the answer handler gets the first frame that arrived, in a later step, after the
   last successful write of a request; it is told the type of that request.
   */
  lemma EveryAnswerAttributed(inputs: seq<Input>, j: nat)
    requires j < |Run(Start(), inputs).log| && Run(Start(), inputs).log[j].AnswerHandled?
    ensures var log := Run(Start(), inputs).log;
            && log[j].requestType == log[j].request.message.frameType
            && exists i: nat, k: nat ::
                 && SentAt(log[..j], i) && log[i].request == log[j].request
                 && FirstArrivedAt(log[..j], i, k, log[j].frame)
  {
    hide Run, LastSent, ArrivedSinceSent, AnswersAttributed, SentAt, FirstArrivedAt;
    RunIsSound(inputs);
    var log := Run(Start(), inputs).log;
    AttributedAt(log, j);
    var i := FindSent(log[..j]);
    var k := FindFirstArrival(log[..j], i, log[j].frame);
    assert log[..j][i].request == log[i].request by { AboutSentAt(log[..j], i); }
  }

  lemma AboutSentAt(log: seq<Event>, i: nat)
    requires SentAt(log, i)
    ensures i < |log| && log[i].RequestWrite?
  {
  }

  lemma {:induction false} AttributedAt(log: seq<Event>, j: nat)
    requires AnswersAttributed(log) && j < |log|
    ensures AttributedNow(log[..j], log[j])
  {
    hide AttributedNow;
    var front := log[..|log| - 1];
    if j < |front| {
      AttributedAt(front, j);
      assert front[..j] == log[..j];
    }
  }
}
