/**
 What the endings of requests mean: a request is given up if and only if its writes fail, which is a
 matter of its payload alone, and the answer handler runs once for each answered request.
 */
module Endings {
  import opened Bytes
  import opened FrameCodec
  import opened Transport
  import opened Protocol
  import opened Accounting
  import opened ProtocolLaws
  import opened Outcomes

  /** Writing the request succeeds, each time. */
  predicate Sendable(r: Request) {
    WriteSucceeds(r.message, r.useCrc)
  }

  /** Number of answer handler calls for a request. */
  function AnswersOf(log: seq<Event>, r: Request): nat {
    if log == [] then 0
    else
      var e := log[|log| - 1];
      AnswersOf(log[..|log| - 1], r) + if e.AnswerHandled? && e.request == r then 1 else 0
  }

  /** A write is noted as it went, and giving up is for requests whose writes fail. */
  predicate HonestEvent(e: Event) {
    && (e.RequestWrite? ==> e.ok == Sendable(e.request))
    && (e.Ended? ==> (e.ending == GivenUp <==> !Sendable(e.request)))
  }

  /** Answer handler calls and answered requests match, but for one request whose handler is running. */
  ghost predicate AnswersMatch(log: seq<Event>, open: Option<Request>) {
    forall r :: AnswersOf(log, r) == EndingsOf(log, r, Answered) + if open == Some(r) then 1 else 0
  }

  ghost predicate HonestLog(log: seq<Event>, open: Option<Request>) {
    (forall e | e in log :: HonestEvent(e)) && AnswersMatch(log, open)
  }

  /** A request whose writes succeed is not at the front without attempts. */
  predicate FrontReady(queue: seq<Item>) {
    queue != [] && Sendable(queue[0].request) ==> queue[0].retries > 0
  }

  ghost predicate Honest(p: Proto) {
    && HonestLog(p.log, None)
    && match p.state
       case IDLE => FrontReady(p.queue)
       case WAITING_FOR_ANSWER => p.queue != [] && Sendable(p.queue[0].request)
  }

  // ----- One more event

  lemma AnswersSnoc(log: seq<Event>, e: Event, r: Request)
    ensures AnswersOf(log + [e], r) == AnswersOf(log, r) + if e.AnswerHandled? && e.request == r then 1 else 0
    ensures EndingsOf(log + [e], r, Answered) == EndingsOf(log, r, Answered) + if e == Ended(r, Answered) then 1 else 0
  {
    Snoc(log, e);
  }

  /** The request whose handler is running after an event. */
  function OpenAfter(open: Option<Request>, e: Event): Option<Request> {
    if e.AnswerHandled? then Some(e.request)
    else if e.Ended? && e.ending == Answered then None
    else open
  }

  lemma HonestSnoc(log: seq<Event>, open: Option<Request>, e: Event)
    requires HonestLog(log, open) && HonestEvent(e)
    requires e.AnswerHandled? ==> open == None
    requires e.Ended? && e.ending == Answered ==> open == Some(e.request)
    ensures HonestLog(log + [e], OpenAfter(open, e))
  {
    hide AnswersOf, EndingsOf, HonestEvent;
    forall r
      ensures AnswersOf(log + [e], r)
           == EndingsOf(log + [e], r, Answered) + if OpenAfter(open, e) == Some(r) then 1 else 0
    {
      AnswersSnoc(log, e, r);
    }
  }

  lemma PerformKeepsHonest(p: Proto, open: Option<Request>, a: Action)
    requires HonestLog(p.log, open) && FrontReady(p.queue)
    ensures HonestLog(Perform(p, a).log, open) && FrontReady(Perform(p, a).queue)
  {
    hide HonestLog, WriteSucceeds;
    HonestSnoc(p.log, open, Asked(a));
    var n := Noted(p, Asked(a));
    var q := Effect(n, a);
    if |q.log| > |n.log| {
      var e := q.log[|n.log|];
      assert q.log == n.log + [e];
      HonestSnoc(n.log, open, e);
    }
  }

  lemma {:induction false} ScriptKeepsHonest(p: Proto, open: Option<Request>, script: seq<Action>)
    requires HonestLog(p.log, open)
    ensures HonestLog(PerformAll(p, script).log, open)
    ensures FrontReady(p.queue) ==> FrontReady(PerformAll(p, script).queue)
  {
    hide HonestLog, FrontReady, Perform;
    if script != [] {
      var front, a := script[..|script| - 1], script[|script| - 1];
      ScriptKeepsHonest(p, open, front);
      var q := PerformAll(p, front);
      PerformKeepsHonest(q.(queue := []), open, a) by { NothingReady(); }
      PerformLog(q, a);
      if FrontReady(p.queue) {
        PerformKeepsHonest(q, open, a);
      }
    }
  }

  lemma NothingReady()
    ensures FrontReady([])
  {
  }

  lemma PerformLog(p: Proto, a: Action)
    ensures Perform(p.(queue := []), a).log == Perform(p, a).log
  {
    hide WriteSucceeds;
  }

  // ----- The branches of loop

  /** Whoever is second in the queue was never written. */
  lemma NextIsReady(p: Proto)
    requires Books(p) && p.queue != []
    ensures FrontReady(p.queue[1..])
  {
    hide WritesOf, InOrder, EndingsAddUp, AnswersAttributed, TimeoutsMatch, Sendable;
    if |p.queue| > 1 {
      assert ItemAddsUp(p.queue[1], p.log) && p.queue[1].retries == p.queue[1].request.budget;
    }
  }

  lemma IncomingKeepsHonest(p: Proto, script: seq<Action>)
    requires HonestLog(p.log, None) && FrontReady(p.queue)
    ensures HonestLog(HandleIncoming(p, script).log, None) && FrontReady(HandleIncoming(p, script).queue)
  {
    hide HonestLog, FrontReady, PerformAll;
    if p.incoming != [] {
      var frame := p.incoming[|p.incoming| - 1];
      HonestSnoc(p.log, None, MessageHandled(frame));
      ScriptKeepsHonest(Handling(p, frame), None, script);
      var q := PerformAll(Handling(p, frame), script);
      HonestSnoc(q.log, None, HandlerDone(q.answerSent));
    }
  }

  lemma SendKeepsHonest(p: Proto, now: Time, writeClock: Time)
    requires Honest(p) && Books(p) && p.state == IDLE
    ensures Honest(SendNext(p, now, writeClock))
  {
    hide HonestLog, Books, WriteSucceeds;
    if ReadyToSend(p, now) {
      var r := p.queue[0].request;
      NextIsReady(p);
      if p.queue[0].retries == 0 {
        HonestSnoc(p.log, None, Ended(r, GivenUp));
      } else {
        var ok := WriteSucceeds(r.message, r.useCrc);
        var e := RequestWrite(r, now, writeClock, p.cooldown, p.answerTimeout, ok);
        HonestSnoc(p.log, None, e);
        if ok && r.noAnswer {
          HonestSnoc(p.log + [e], None, Ended(r, SentWithoutAnswer));
        }
      }
    }
  }

  lemma TimeoutKeepsHonest(p: Proto, now: Time, script: seq<Action>)
    requires Honest(p) && Books(p) && p.state == WAITING_FOR_ANSWER
    ensures Honest(HandleTimeout(p, now, script))
  {
    hide HonestLog, Books, WriteSucceeds, PerformAll;
    var r := p.queue[0].request;
    HonestSnoc(p.log, None, WaitOver(r));
    if p.queue[0].retries == 0 {
      var q := Noted(p, WaitOver(r));
      HonestSnoc(q.log, None, Ended(r, TimedOut));
      HonestSnoc(q.log + [Ended(r, TimedOut)], None, TimeoutHandled(r, p.lastType));
      NextIsReady(p);
      ScriptKeepsHonest(TimingOut(q, now), None, script);
    }
  }

  lemma AnswerKeepsHonest(p: Proto, now: Time, script: seq<Action>)
    requires Honest(p) && Sound(p) && p.state == WAITING_FOR_ANSWER && p.incoming != []
    ensures Honest(HandleAnswer(p, now, script))
  {
    hide HonestLog, Books, WriteSucceeds, PerformAll;
    var r := p.queue[0].request;
    var e := AnswerHandled(r, p.lastType, p.incoming[0]);
    HonestSnoc(p.log, None, e);
    var q := Answering(p);
    ScriptKeepsHonest(q, Some(r), script);
    QueueGrows(q, script);
    var h := PerformAll(q, script);
    assert h.queue[0] == q.queue[0];
    HonestSnoc(h.log, Some(r), Ended(r, Answered));
    AnsweringKeepsBooks(p, script);
    NextIsReady(h);
  }

  lemma AnsweringKeepsBooks(p: Proto, script: seq<Action>)
    requires Sound(p) && p.state == WAITING_FOR_ANSWER && p.incoming != []
    ensures Books(PerformAll(Answering(p), script))
  {
    hide Accounted, AnswersAttributed, TimeoutsMatch, LastSent, ArrivedSinceSent, PerformAll;
    var e := AnswerHandled(p.queue[0].request, p.lastType, p.incoming[0]);
    NeutralKeepsBooks(p.queue, p.nextId, p.log, e);
    SentSnoc(p.log, e);
    TimeoutsSnoc(p.log, e);
    ScriptKeepsBooks(Answering(p), script);
  }

  lemma StepKeepsHonest(p: Proto, input: Input)
    requires Honest(p) && Sound(p)
    ensures Honest(Step(p, input))
  {
    hide HonestLog, Books, Perform, HandleIncoming, SendNext, HandleTimeout, HandleAnswer;
    match input
    case Call(a) => CallKeepsHonest(p, a);
    case Tick(arrived, now, writeClock, script) =>
      var q := Arrive(p, arrived);
      HonestSnoc(p.log, None, Arrived(arrived));
      ArriveKeepsSound(p, arrived);
      match q.state
      case IDLE =>
        IncomingKeepsHonest(q, script);
        IncomingKeepsBooks(q, script);
        SendKeepsHonest(HandleIncoming(q, script), now, writeClock);
      case WAITING_FOR_ANSWER =>
        if now > q.answerPoint {
          TimeoutKeepsHonest(q, now, script);
        } else if q.incoming != [] {
          AnswerKeepsHonest(q, now, script);
        }
  }

  lemma CallKeepsHonest(p: Proto, a: Action)
    requires Honest(p) && Sound(p)
    ensures Honest(Perform(p, a))
  {
    hide HonestLog, Books, Perform;
    PerformKeepsBooks(p, a);
    if p.state == IDLE {
      PerformKeepsHonest(p, None, a);
    } else {
      PerformKeepsHonest(p.(queue := []), None, a);
      PerformLog(p, a);
    }
  }

  lemma StartIsHonest()
    ensures Honest(Start())
  {
    assert forall r :: AnswersOf([], r) == EndingsOf([], r, Answered);
  }

  lemma {:induction false} RunIsHonest(inputs: seq<Input>)
    ensures Honest(Run(Start(), inputs))
  {
    hide Honest, Sound, Step;
    if inputs == [] {
      StartIsHonest();
    } else {
      var front := inputs[..|inputs| - 1];
      RunIsHonest(front);
      RunIsSound(front);
      StepKeepsHonest(Run(Start(), front), inputs[|inputs| - 1]);
    }
  }

  // ----- What an ending tells

  /** The payload is refused, or its image has exactly 256 bytes and its size is taken for a failure. */
  predicate Unsendable(r: Request) {
    || |r.message.payload| > MAX_DATA_SIZE
    || |Encode(MakeFrame(r.message.frameType, r.message.payload, r.useCrc))| == 256
  }

  lemma SendableExactly(r: Request)
    ensures Sendable(r) <==> !Unsendable(r)
  {
    hide Encode, MakeFrame, SendResult;
    SendReportsFailure(r.message.frameType, r.message.payload, r.useCrc);
  }

  /**
   Over every run: a request that ended was given up if and only if its payload exceeds 233 bytes or
   its image has exactly 256 bytes, and its writes are noted as failed exactly then. The answer handler
   ran once for each answered request and for no other.
   */
  lemma EndingsAreTrue(inputs: seq<Input>)
    ensures var log := Run(Start(), inputs).log;
            && (forall e | e in log && e.Ended? :: e.ending == GivenUp <==> Unsendable(e.request))
            && (forall e | e in log && e.RequestWrite? :: e.ok <==> !Unsendable(e.request))
            && (forall r :: AnswersOf(log, r) == if Ended(r, Answered) in log then 1 else 0)
  {
    hide Run, AnswersOf, EndingsOf, EndedIn, Unsendable, Sendable, Sound, Accounted;
    var p := Run(Start(), inputs);
    RunIsHonest(inputs);
    RunIsSound(inputs);
    forall e | e in p.log && e.Ended? ensures e.ending == GivenUp <==> Unsendable(e.request) {
      SendableExactly(e.request);
    }
    forall e | e in p.log && e.RequestWrite? ensures e.ok <==> !Unsendable(e.request) {
      SendableExactly(e.request);
    }
    forall r ensures AnswersOf(p.log, r) == if Ended(r, Answered) in p.log then 1 else 0 {
      EndingsListed(p.log, r, Answered);
      EndedAreNumbered(p, r) by { SoundHasBooks(p); }
    }
  }

  lemma SoundHasBooks(p: Proto)
    requires Sound(p)
    ensures Books(p)
  {
  }

  /**
   So a request with an image of exactly 256 bytes, which each write sends in full, is written as often
   as its attempts allow and then given up.
   */
  lemma ImageOf256Repeats(inputs: seq<Input>, r: Request, ending: Ending)
    requires Ended(r, ending) in Run(Start(), inputs).log
    requires |r.message.payload| <= MAX_DATA_SIZE
    requires |Encode(MakeFrame(r.message.frameType, r.message.payload, r.useCrc))| == 256
    ensures ending == GivenUp && WritesOf(Run(Start(), inputs).log, r) == r.budget
  {
    hide Run, WritesOf, Encode, MakeFrame, EndedIn, EnqueuedIn;
    EndingsAreTrue(inputs);
    ExactlyOneOutcome(inputs);
    assert EndingAddsUp(r, ending, WritesOf(Run(Start(), inputs).log, r));
  }
}
