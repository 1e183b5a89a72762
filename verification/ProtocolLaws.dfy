/** What holds in every state the protocol can reach, whatever arrives and whatever handlers do. */
module ProtocolLaws {
  import opened Bytes
  import opened FrameCodec
  import opened Protocol
  import opened Accounting

  /** The request of the last successful write. */
  function LastSent(log: seq<Event>): Option<Request> {
    if log == [] then None
    else
      var e := log[|log| - 1];
      if e.RequestWrite? && e.ok then Some(e.request) else LastSent(log[..|log| - 1])
  }

  /** The frames that have arrived since the last successful write of a request. */
  function ArrivedSinceSent(log: seq<Event>): seq<Frame> {
    if log == [] then []
    else
      var front, e := log[..|log| - 1], log[|log| - 1];
      if e.RequestWrite? && e.ok then []
      else if e.Arrived? then ArrivedSinceSent(front) + e.frames
      else ArrivedSinceSent(front)
  }

  /** An answer handled now is the first frame since the last request was sent, and goes to that request. */
  predicate AttributedNow(front: seq<Event>, e: Event) {
    e.AnswerHandled? ==>
      && LastSent(front) == Some(e.request) && e.requestType == e.request.message.frameType
      && [e.frame] <= ArrivedSinceSent(front)
  }

  predicate AnswersAttributed(log: seq<Event>) {
    log != [] ==> AnswersAttributed(log[..|log| - 1]) && AttributedNow(log[..|log| - 1], log[|log| - 1])
  }

  /** How often a request ended in the given way. */
  function EndingsOf(log: seq<Event>, r: Request, ending: Ending): nat {
    if log == [] then 0
    else
      var e := log[|log| - 1];
      EndingsOf(log[..|log| - 1], r, ending) + if e == Ended(r, ending) then 1 else 0
  }

  /** The timeout handler runs once for each request that times out, with that request's type. */
  ghost predicate TimeoutsMatch(log: seq<Event>) {
    && (forall r :: TimeoutCallsOf(log, r) == EndingsOf(log, r, TimedOut))
    && (forall e | e in log && e.TimeoutHandled? :: e.requestType == e.request.message.frameType)
  }

  /**
   While waiting, the front of the queue is the request that was sent, it expects an answer, and what
   is there to be taken as one has arrived since.
   */
  predicate WaitingSound(p: Proto) {
    p.state == WAITING_FOR_ANSWER ==>
      && p.queue != [] && !p.queue[0].request.noAnswer
      && p.queue[0].retries < p.queue[0].request.budget
      && p.lastType == p.queue[0].request.message.frameType
      && LastSent(p.log) == Some(p.queue[0].request)
      && p.incoming == ArrivedSinceSent(p.log)
  }

  ghost predicate Books(p: Proto) {
    Accounted(p.queue, p.nextId, p.log) && AnswersAttributed(p.log) && TimeoutsMatch(p.log)
  }

  ghost predicate Sound(p: Proto) {
    Books(p) && WaitingSound(p) && !p.processing
  }

  // ----- One more event

  lemma SentSnoc(log: seq<Event>, e: Event)
    ensures LastSent(log + [e]) == if e.RequestWrite? && e.ok then Some(e.request) else LastSent(log)
    ensures ArrivedSinceSent(log + [e])
         == if e.RequestWrite? && e.ok then [] else ArrivedSinceSent(log) + if e.Arrived? then e.frames else []
    ensures AnswersAttributed(log + [e]) <==> AnswersAttributed(log) && AttributedNow(log, e)
  {
    Snoc(log, e);
  }

  lemma TimeoutsSnoc(log: seq<Event>, e: Event)
    requires TimeoutsMatch(log) && !e.TimeoutHandled? && !(e.Ended? && e.ending == TimedOut)
    ensures TimeoutsMatch(log + [e])
  {
    hide TimeoutCallsOf, EndingsOf;
    forall r ensures TimeoutCallsOf(log + [e], r) == EndingsOf(log + [e], r, TimedOut) {
      LogSnoc(log, e, r);
      EndingsSnoc(log, e, r, TimedOut);
    }
  }

  lemma EndingsSnoc(log: seq<Event>, e: Event, r: Request, ending: Ending)
    ensures EndingsOf(log + [e], r, ending) == EndingsOf(log, r, ending) + if e == Ended(r, ending) then 1 else 0
  {
    Snoc(log, e);
  }

  lemma TimeoutPair(log: seq<Event>, r: Request, requestType: byte)
    requires TimeoutsMatch(log) && requestType == r.message.frameType
    ensures TimeoutsMatch(log + [Ended(r, TimedOut)] + [TimeoutHandled(r, requestType)])
  {
    hide TimeoutCallsOf, EndingsOf;
    var ended, handled := Ended(r, TimedOut), TimeoutHandled(r, requestType);
    forall s
      ensures TimeoutCallsOf(log + [ended] + [handled], s) == EndingsOf(log + [ended] + [handled], s, TimedOut)
    {
      LogSnoc(log, ended, s);
      LogSnoc(log + [ended], handled, s);
      EndingsSnoc(log, ended, s, TimedOut);
      EndingsSnoc(log + [ended], handled, s, TimedOut);
    }
  }

  // ----- Actions

  /** A mere note: nothing is enqueued, written, handled or ended with it. */
  predicate IsNote(e: Event) {
    e.Asked? || e.HandlerDone? || e.WaitOver?
  }

  lemma NotedKeepsBooks(p: Proto, e: Event)
    requires Books(p) && IsNote(e)
    ensures Books(Noted(p, e))
    ensures LastSent(Noted(p, e).log) == LastSent(p.log) && ArrivedSinceSent(Noted(p, e).log) == ArrivedSinceSent(p.log)
  {
    hide Accounted, AnswersAttributed, TimeoutsMatch, LastSent, ArrivedSinceSent;
    NeutralKeepsBooks(p.queue, p.nextId, p.log, e);
    SentSnoc(p.log, e);
    TimeoutsSnoc(p.log, e);
  }

  lemma PerformKeepsBooks(p: Proto, a: Action)
    requires Books(p)
    ensures Books(Perform(p, a))
    ensures LastSent(Perform(p, a).log) == LastSent(p.log) && p.queue <= Perform(p, a).queue
    ensures ArrivedSinceSent(Perform(p, a).log) == ArrivedSinceSent(p.log) && Perform(p, a).incoming == p.incoming
    ensures Perform(p, a).state == p.state && Perform(p, a).lastType == p.lastType
  {
    hide Books, LastSent, ArrivedSinceSent, Effect;
    NotedKeepsBooks(p, Asked(a));
    EffectKeepsBooks(Noted(p, Asked(a)), a);
  }

  lemma EffectKeepsBooks(p: Proto, a: Action)
    requires Books(p)
    ensures Books(Effect(p, a))
    ensures LastSent(Effect(p, a).log) == LastSent(p.log) && p.queue <= Effect(p, a).queue
    ensures ArrivedSinceSent(Effect(p, a).log) == ArrivedSinceSent(p.log) && Effect(p, a).incoming == p.incoming
    ensures Effect(p, a).state == p.state && Effect(p, a).lastType == p.lastType
  {
    hide Accounted, AnswersAttributed, TimeoutsMatch, LastSent, ArrivedSinceSent, WriteSucceeds;
    var q := Effect(p, a);
    if a.SendMessage? || a.SendMessageWithoutAnswer? {
      var r := q.queue[|p.queue|].request;
      assert q == Enqueue(p, r);
      EnqueueKeepsBooks(p, r);
      SentSnoc(p.log, Enqueued(r));
      TimeoutsSnoc(p.log, Enqueued(r));
    } else if a.SendAnswer? && p.processing {
      var e := q.log[|p.log|];
      assert q.log == p.log + [e];
      NeutralKeepsBooks(p.queue, p.nextId, p.log, e);
      SentSnoc(p.log, e);
      TimeoutsSnoc(p.log, e);
    }
  }

  lemma {:induction false} ScriptKeepsBooks(p: Proto, script: seq<Action>)
    requires Books(p)
    ensures var q := PerformAll(p, script);
            && Books(q) && LastSent(q.log) == LastSent(p.log) && p.queue <= q.queue
            && ArrivedSinceSent(q.log) == ArrivedSinceSent(p.log) && q.incoming == p.incoming
            && q.state == p.state && q.lastType == p.lastType
  {
    hide Books, LastSent, ArrivedSinceSent, Perform;
    if script != [] {
      ScriptKeepsBooks(p, script[..|script| - 1]);
      PerformKeepsBooks(PerformAll(p, script[..|script| - 1]), script[|script| - 1]);
    }
  }

  // ----- The branches of loop

  lemma ArriveKeepsSound(p: Proto, frames: seq<Frame>)
    requires Sound(p)
    ensures Sound(Arrive(p, frames))
  {
    hide Accounted, AnswersAttributed, TimeoutsMatch, LastSent, ArrivedSinceSent;
    var e := Arrived(frames);
    NeutralKeepsBooks(p.queue, p.nextId, p.log, e);
    SentSnoc(p.log, e);
    TimeoutsSnoc(p.log, e);
  }

  lemma HandlingKeepsBooks(p: Proto, frame: Frame)
    requires Books(p)
    ensures Books(Handling(p, frame)) && Handling(p, frame).state == p.state
  {
    hide Accounted, AnswersAttributed, TimeoutsMatch, LastSent;
    var e := MessageHandled(frame);
    NeutralKeepsBooks(p.queue, p.nextId, p.log, e);
    SentSnoc(p.log, e);
    TimeoutsSnoc(p.log, e);
  }

  lemma IncomingKeepsBooks(p: Proto, script: seq<Action>)
    requires Books(p)
    ensures Books(HandleIncoming(p, script)) && HandleIncoming(p, script).state == p.state
    ensures HandleIncoming(p, script).incoming == []
    ensures !p.processing ==> !HandleIncoming(p, script).processing
  {
    hide PerformAll, Accounted, AnswersAttributed, TimeoutsMatch;
    if p.incoming != [] {
      var frame := p.incoming[|p.incoming| - 1];
      HandlingKeepsBooks(p, frame);
      ScriptKeepsBooks(Handling(p, frame), script);
      var q := PerformAll(Handling(p, frame), script);
      NotedKeepsBooks(q, HandlerDone(q.answerSent));
    }
  }

  lemma PopKeepsAll(p: Proto, ending: Ending)
    requires Books(p) && p.queue != [] && ending != TimedOut
    requires EndingAddsUp(p.queue[0].request, ending, p.queue[0].request.budget - p.queue[0].retries)
    ensures Books(PopFront(p, ending))
  {
    hide Accounted, AnswersAttributed, TimeoutsMatch, LastSent;
    var e := Ended(p.queue[0].request, ending);
    assert Accounted(p.queue, p.nextId, p.log);
    PopKeepsBooks(p.queue, p.nextId, p.log, ending);
    SentSnoc(p.log, e);
    TimeoutsSnoc(p.log, e);
  }

  lemma SendKeepsSound(p: Proto, now: Time, writeClock: Time)
    requires Books(p) && p.state == IDLE && !p.processing && p.incoming == []
    ensures Sound(SendNext(p, now, writeClock))
  {
    hide Accounted, AnswersAttributed, TimeoutsMatch, LastSent, ArrivedSinceSent, WriteSucceeds;
    if ReadyToSend(p, now) {
      var item := p.queue[0];
      var r := item.request;
      assert ItemAddsUp(item, p.log) by { FrontAddsUp(p); }
      if item.retries == 0 {
        PopKeepsAll(p, GivenUp);
      } else {
        var ok := WriteSucceeds(r.message, r.useCrc);
        var e := RequestWrite(r, now, writeClock, p.cooldown, p.answerTimeout, ok);
        var queue := [Item(r, item.retries - 1)] + p.queue[1..];
        WriteKeepsBooks(p.queue, p.nextId, p.log, e);
        SentSnoc(p.log, e);
        TimeoutsSnoc(p.log, e);
        var d := p.(queue := queue, log := p.log + [e]);
        assert Books(d);
        if ok && r.noAnswer {
          PopKeepsAll(d, SentWithoutAnswer);
          assert d.queue[1..] == p.queue[1..];
          assert SendNext(p, now, writeClock).queue == PopFront(d, SentWithoutAnswer).queue;
        }
      }
    }
  }

  lemma FrontAddsUp(p: Proto)
    requires Books(p) && p.queue != []
    ensures ItemAddsUp(p.queue[0], p.log)
  {
  }

  /** The books when the timeout handler starts. */
  lemma TimingOutKeepsBooks(p: Proto, now: Time)
    requires Books(p) && p.queue != [] && p.queue[0].retries == 0
    requires !p.queue[0].request.noAnswer && p.lastType == p.queue[0].request.message.frameType
    ensures Books(TimingOut(p, now))
  {
    hide Accounted, AnswersAttributed, TimeoutsMatch, LastSent, ArrivedSinceSent;
    var r := p.queue[0].request;
    var ended, handled := Ended(r, TimedOut), TimeoutHandled(r, p.lastType);
    assert ItemAddsUp(p.queue[0], p.log) by { FrontAddsUp(p); }
    PopKeepsBooks(p.queue, p.nextId, p.log, TimedOut);
    NeutralKeepsBooks(p.queue[1..], p.nextId, p.log + [ended], handled);
    SentSnoc(p.log, ended);
    SentSnoc(p.log + [ended], handled);
    TimeoutPair(p.log, r, p.lastType);
  }

  lemma TimeoutKeepsSound(p: Proto, now: Time, script: seq<Action>)
    requires Sound(p) && p.state == WAITING_FOR_ANSWER
    ensures Sound(HandleTimeout(p, now, script))
  {
    hide Accounted, AnswersAttributed, TimeoutsMatch, LastSent, ArrivedSinceSent, PerformAll;
    var q := Noted(p, WaitOver(p.queue[0].request));
    NotedKeepsBooks(p, WaitOver(p.queue[0].request));
    if p.queue[0].retries == 0 {
      TimingOutKeepsBooks(q, now);
      ScriptKeepsBooks(TimingOut(q, now), script);
      ProcessingKept(TimingOut(q, now), script);
    }
  }

  lemma {:induction false} ProcessingKept(p: Proto, script: seq<Action>)
    ensures PerformAll(p, script).processing == p.processing
  {
    if script != [] {
      ProcessingKept(p, script[..|script| - 1]);
    }
  }

  lemma AnswerKeepsSound(p: Proto, now: Time, script: seq<Action>)
    requires Sound(p) && p.state == WAITING_FOR_ANSWER && p.incoming != []
    ensures Sound(HandleAnswer(p, now, script))
  {
    hide Accounted, AnswersAttributed, TimeoutsMatch, LastSent, ArrivedSinceSent, PerformAll;
    var r := p.queue[0].request;
    var e := AnswerHandled(r, p.lastType, p.incoming[0]);
    var q := p.(incoming := p.incoming[1..], log := p.log + [e]);
    NeutralKeepsBooks(p.queue, p.nextId, p.log, e);
    SentSnoc(p.log, e);
    TimeoutsSnoc(p.log, e);
    assert Books(q);
    var h := PerformAll(q, script);
    ScriptKeepsBooks(q, script);
    ProcessingKept(q, script);
    assert ItemAddsUp(h.queue[0], h.log) by { FrontAddsUp(h); }
    PopKeepsAll(h, Answered);
  }

  /** Every step keeps the protocol sound. */
  lemma StepKeepsSound(p: Proto, input: Input)
    requires Sound(p)
    ensures Sound(Step(p, input))
  {
    hide Accounted, AnswersAttributed, TimeoutsMatch, LastSent, ArrivedSinceSent, PerformAll, HandleTimeout,
      HandleAnswer, SendNext, HandleIncoming, Perform;
    match input
    case Call(a) =>
      PerformKeepsBooks(p, a);
      ActionKeepsProcessing(p, a);
    case Tick(arrived, now, writeClock, script) =>
      var q := Arrive(p, arrived);
      ArriveKeepsSound(p, arrived);
      match q.state
      case IDLE =>
        IncomingKeepsBooks(q, script);
        SendKeepsSound(HandleIncoming(q, script), now, writeClock);
      case WAITING_FOR_ANSWER =>
        if now > q.answerPoint {
          TimeoutKeepsSound(q, now, script);
        } else if q.incoming != [] {
          AnswerKeepsSound(q, now, script);
        }
  }

  lemma ActionKeepsProcessing(p: Proto, a: Action)
    ensures Perform(p, a).processing == p.processing
  {
  }

  lemma StartIsSound()
    ensures Sound(Start())
  {
    assert forall r :: TimeoutCallsOf([], r) == EndingsOf([], r, TimedOut);
  }

  /** Every reachable state is sound. */
  lemma {:induction false} RunIsSound(inputs: seq<Input>)
    ensures Sound(Run(Start(), inputs))
  {
    hide Sound, Step;
    if inputs == [] {
      StartIsSound();
    } else {
      RunIsSound(inputs[..|inputs| - 1]);
      StepKeepsSound(Run(Start(), inputs[..|inputs| - 1]), inputs[|inputs| - 1]);
    }
  }
}
