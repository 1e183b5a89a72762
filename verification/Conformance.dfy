/**
 The state machine keeps to the rules: over every run with a clock that never goes back it logs exactly
 what they say.
 */
module Conformance {
  import opened Bytes
  import opened FrameCodec
  import opened Transport
  import opened Protocol
  import opened Accounting
  import opened ProtocolLaws
  import opened Timing
  import opened Conduct

  lemma GoesExactly(m: Message, useCrc: bool)
    ensures WriteSucceeds(m, useCrc) <==> Goes(m, useCrc)
  {
    hide Encode, MakeFrame, SendResult;
    SendReportsFailure(m.frameType, m.payload, useCrc);
  }

  /** The fields of the state machine hold what the log tells. */
  predicate Shadow(p: Proto) {
    && p.incoming == Unhandled(p.log)
    && p.processing == BeingHandled(p.log).Some?
    && (p.processing ==> p.crcStatus == BeingHandled(p.log).value.useCrc)
    && p.answerSent == IsAnswered(p.log)
    && p.cooldown == CooldownInForce(p.log) && p.answerTimeout == TimeoutInForce(p.log)
    && p.cooldownPoint == (if CooldownEnd(p.log).Some? then CooldownEnd(p.log).value else 0)
  }

  /** What another event does to the readings that Shadow compares. */
  lemma ShadowSnoc(log: seq<Event>, e: Event)
    ensures var next := log + [e];
            && Unhandled(next) == (if e.Arrived? then Unhandled(log) + e.frames
                                   else if e.MessageHandled? then []
                                   else if e.AnswerHandled? && Unhandled(log) != [] then Unhandled(log)[1..]
                                   else Unhandled(log))
            && BeingHandled(next) == (if e.MessageHandled? then Some(e.frame) else if e.HandlerDone? then None
                                      else BeingHandled(log))
            && IsAnswered(next) == (if e.MessageHandled? then false
                                  else if e.AnswerWrite? then Goes(e.answer, e.useCrc)
                                  else (e == Asked(NoAnswer) && BeingHandled(log).Some?) || IsAnswered(log))
            && CooldownInForce(next) == (if e.Asked? && e.action.SetCooldownInterval? then e.action.milliseconds
                                         else CooldownInForce(log))
            && TimeoutInForce(next) == (if e.Asked? && e.action.SetAnswerTimeout? then e.action.milliseconds
                                        else TimeoutInForce(log))
            && CooldownEnd(next) == (if e.RequestWrite? || e.AnswerWrite? then Some(e.writeTime + e.cooldown)
                                     else CooldownEnd(log))
  {
    hide Goes;
    Snoc(log, e);
  }

  lemma AskShadow(p: Proto, a: Action)
    requires Shadow(p) && p.nextId == |EnqueuedIn(p.log)|
    ensures Perform(p, a).log == AskLog(p.log, a) && Shadow(Perform(p, a))
  {
    hide EnqueuedIn, Unhandled, BeingHandled, IsAnswered, CooldownInForce, TimeoutInForce, CooldownEnd;
    hide Goes, WriteSucceeds;
    ShadowSnoc(p.log, Asked(a));
    var asked := p.log + [Asked(a)];
    if RequestFor(a, p.nextId).Some? {
      ShadowSnoc(asked, Enqueued(RequestFor(a, p.nextId).value));
    } else if AnswerFor(p.log, a).Some? {
      var e := AnswerFor(p.log, a).value;
      ShadowSnoc(asked, e);
      GoesExactly(e.answer, e.useCrc);
    }
  }

  lemma BooksNumber(p: Proto)
    requires Books(p)
    ensures p.nextId == |EnqueuedIn(p.log)| && RequestsOf(p.queue) == Open(p.log)
  {
    hide EnqueuedIn, EndedIn;
  }

  lemma {:induction false} ScriptShadow(p: Proto, script: seq<Action>)
    requires Shadow(p) && Books(p)
    ensures PerformAll(p, script).log == ScriptLog(p.log, script) && Shadow(PerformAll(p, script))
  {
    hide Shadow, Books, Perform, AskLog, EnqueuedIn;
    if script != [] {
      var front := script[..|script| - 1];
      ScriptShadow(p, front);
      ScriptKeepsBooks(p, front);
      BooksNumber(PerformAll(p, front));
      AskShadow(PerformAll(p, front), script[|script| - 1]);
    }
  }

  // ----- Writes

  lemma WritesSnoc(log: seq<Event>, e: Event, r: Request)
    ensures LastWrite(log + [e], r) == if e.RequestWrite? && e.ok && e.request == r then Some(e) else LastWrite(log, r)
    ensures Awaited(log + [e]) == if e.RequestWrite? && e.ok && !e.request.noAnswer then Some(e)
                                  else if e.AnswerHandled? || e.WaitOver? then None else Awaited(log)
  {
    Snoc(log, e);
  }

  lemma PerformKeepsWrites(p: Proto, a: Action, r: Request)
    ensures LastWrite(Perform(p, a).log, r) == LastWrite(p.log, r) && Awaited(Perform(p, a).log) == Awaited(p.log)
  {
    hide LastWrite, Awaited, WriteSucceeds;
    var n := Noted(p, Asked(a));
    WritesSnoc(p.log, Asked(a), r);
    var q := Effect(n, a);
    if |q.log| > |n.log| {
      assert q.log == n.log + [q.log[|n.log|]];
      WritesSnoc(n.log, q.log[|n.log|], r);
    }
  }

  lemma {:induction false} ScriptKeepsWrites(p: Proto, script: seq<Action>, r: Request)
    ensures LastWrite(PerformAll(p, script).log, r) == LastWrite(p.log, r)
    ensures Awaited(PerformAll(p, script).log) == Awaited(p.log)
  {
    hide LastWrite, Awaited, Perform;
    if script != [] {
      ScriptKeepsWrites(p, script[..|script| - 1], r);
      PerformKeepsWrites(PerformAll(p, script[..|script| - 1]), script[|script| - 1], r);
    }
  }

  lemma {:induction false} NeverWritten(log: seq<Event>, r: Request)
    requires forall w | w in log && w.RequestWrite? :: w.request != r
    ensures LastWrite(log, r) == None
  {
    if log != [] {
      var front := log[..|log| - 1];
      assert forall w | w in front :: w in log;
      NeverWritten(front, r);
    }
  }

  lemma SecondNeverWritten(p: Proto)
    requires Books(p) && |p.queue| > 1
    ensures LastWrite(p.log, p.queue[1].request) == None && p.queue[1].request != p.queue[0].request
  {
    hide LastWrite, WritesOf, AnswersAttributed, TimeoutsMatch, ItemsAddUp, EndingsAddUp;
    FreshFront(p.queue, p.nextId, p.log, 1);
    NeverWritten(p.log, p.queue[1].request);
    QueuedIsDistinct(p.queue, p.nextId, p.log, 0);
  }

  // ----- Between two steps

  /** When the front of the queue may be written again, as far as its interval goes. */
  predicate RetryTold(queue: seq<Item>, retryPoint: Time, log: seq<Event>, clock: Time) {
    if queue != [] && LastWrite(log, queue[0].request).Some?
    then retryPoint == LastWrite(log, queue[0].request).value.loopTime + queue[0].request.interval
    else retryPoint <= clock
  }

  predicate AnswerTold(p: Proto) {
    if p.state == IDLE then Awaited(p.log) == None
    else
      && p.queue != [] && Awaited(p.log).Some?
      && var w := Awaited(p.log).value;
         w.request == p.queue[0].request && LastWrite(p.log, w.request) == Some(w)
         && p.answerPoint == w.loopTime + w.timeout
  }

  /** An empty queue gets a request that was never written. */
  lemma PerformKeepsRetry(p: Proto, clock: Time, a: Action)
    requires Books(p) && RetryTold(p.queue, p.retryPoint, p.log, clock)
    ensures var q := Perform(p, a); RetryTold(q.queue, q.retryPoint, q.log, clock)
  {
    hide LastWrite, AnswersAttributed, TimeoutsMatch, InOrder, ItemsAddUp, EndingsAddUp;
    var q := Perform(p, a);
    PerformKeepsStatus(p, a);
    if p.queue != [] {
      QueueGrows(p, [a]);
      PerformOne(p, a);
      PerformKeepsWrites(p, a, p.queue[0].request);
    } else if q.queue != [] {
      PerformKeepsWrites(p, a, q.queue[0].request);
      NewNeverWritten(p, a);
    }
  }

  lemma PerformOne(p: Proto, a: Action)
    ensures PerformAll(p, [a]) == Perform(p, a)
  {
    hide Perform;
    assert [a][..0] == [];
  }

  lemma NewNeverWritten(p: Proto, a: Action)
    requires WritesEnqueued(p.nextId, p.log) && p.queue == [] && Perform(p, a).queue != []
    ensures LastWrite(p.log, Perform(p, a).queue[0].request) == None
  {
    hide LastWrite, WriteSucceeds;
    NeverWritten(p.log, Perform(p, a).queue[0].request);
  }

  lemma {:induction false} ScriptKeepsRetry(p: Proto, clock: Time, script: seq<Action>)
    requires Books(p) && RetryTold(p.queue, p.retryPoint, p.log, clock)
    ensures var q := PerformAll(p, script); RetryTold(q.queue, q.retryPoint, q.log, clock)
  {
    hide RetryTold, Books, Perform;
    if script != [] {
      var front := script[..|script| - 1];
      ScriptKeepsRetry(p, clock, front);
      ScriptKeepsBooks(p, front);
      PerformKeepsRetry(PerformAll(p, front), clock, script[|script| - 1]);
    }
  }

  /** The front is over: whoever is next was never written. */
  lemma PopKeepsRetry(p: Proto, ending: Ending, now: Time)
    requires Books(p) && p.queue != []
    ensures var q := PopFront(p, ending); RetryTold(q.queue, now, q.log, now)
  {
    hide LastWrite, Books;
    if |p.queue| > 1 {
      SecondNeverWritten(p);
      WritesSnoc(p.log, Ended(p.queue[0].request, ending), p.queue[1].request);
    }
  }

  // ----- The branches of loop

  lemma MessageShadow(p: Proto, script: seq<Action>)
    requires Shadow(p) && Books(p)
    ensures HandleIncoming(p, script).log == MessageLog(p.log, script) && Shadow(HandleIncoming(p, script))
  {
    hide Unhandled, BeingHandled, IsAnswered, CooldownInForce, TimeoutInForce, CooldownEnd;
    hide Goes, Books, PerformAll, ScriptLog;
    if p.incoming != [] {
      var frame := p.incoming[|p.incoming| - 1];
      ShadowSnoc(p.log, MessageHandled(frame));
      HandlingKeepsBooks(p, frame);
      ScriptShadow(Handling(p, frame), script);
      var q := PerformAll(Handling(p, frame), script);
      ShadowSnoc(q.log, HandlerDone(q.answerSent));
    }
  }

  lemma MessageKeepsAnswerTold(p: Proto, script: seq<Action>)
    requires p.state == IDLE && AnswerTold(p)
    ensures HandleIncoming(p, script).state == IDLE && AnswerTold(HandleIncoming(p, script))
  {
    hide LastWrite, Awaited, PerformAll;
    if p.incoming != [] {
      var frame := p.incoming[|p.incoming| - 1];
      var h := Handling(p, frame);
      var some := Request(0, Message(0, []), false, false, 0, 0);
      WritesSnoc(p.log, MessageHandled(frame), some);
      ScriptKeepsStatus(h, script);
      ScriptKeepsWrites(h, script, some);
      var q := PerformAll(h, script);
      WritesSnoc(q.log, HandlerDone(q.answerSent), some);
    }
  }

  lemma MessageTold(p: Proto, clock: Time, script: seq<Action>)
    requires Books(p) && RetryTold(p.queue, p.retryPoint, p.log, clock)
    ensures var q := HandleIncoming(p, script); RetryTold(q.queue, q.retryPoint, q.log, clock)
  {
    hide LastWrite, Books, PerformAll;
    if p.incoming != [] {
      var frame := p.incoming[|p.incoming| - 1];
      var h := Handling(p, frame);
      HandlingKeepsBooks(p, frame);
      NoteKeepsTold(p, MessageHandled(frame), clock);
      ScriptKeepsRetry(h, clock, script);
      var q := PerformAll(h, script);
      NoteKeepsTold(q, HandlerDone(q.answerSent), clock);
    }
  }

  lemma NoteKeepsTold(p: Proto, e: Event, clock: Time)
    requires !e.RequestWrite? && !e.AnswerHandled? && !e.WaitOver?
    ensures Awaited(p.log + [e]) == Awaited(p.log)
    ensures RetryTold(p.queue, p.retryPoint, p.log + [e], clock) == RetryTold(p.queue, p.retryPoint, p.log, clock)
  {
    hide LastWrite, Awaited;
    WritesSnoc(p.log, e, if p.queue != [] then p.queue[0].request else Request(0, Message(0, []), false, false, 0, 0));
  }

  /** The front is sent if and only if it is due. */
  lemma ReadyIsDue(p: Proto, now: Time)
    requires Books(p) && Shadow(p) && RetryTold(p.queue, p.retryPoint, p.log, now) && now >= 0
    ensures Open(p.log) == [] <==> p.queue == []
    ensures p.queue != [] ==> Open(p.log)[0] == p.queue[0].request
    ensures ReadyToSend(p, now) <==> p.queue != [] && Due(p.log, p.queue[0].request, now)
    ensures p.queue != [] ==> (p.queue[0].retries == 0 <==> !HasAttempts(p.log, p.queue[0].request))
  {
    hide EnqueuedIn, EndedIn, WritesOf, LastWrite, CooldownEnd, Unhandled, BeingHandled, IsAnswered, CooldownInForce;
    hide TimeoutInForce, AnswersAttributed, TimeoutsMatch, InOrder, EndingsAddUp, Open;
    BooksNumber(p);
    if p.queue != [] {
      assert ItemAddsUp(p.queue[0], p.log) by { FrontAddsUp(p); }
      assert RequestsOf(p.queue)[0] == p.queue[0].request;
    }
  }

  lemma SendKeepsShadow(p: Proto, now: Time, writeClock: Time)
    requires Shadow(p)
    ensures Shadow(SendNext(p, now, writeClock))
  {
    hide Goes, WriteSucceeds, Unhandled, BeingHandled, IsAnswered, CooldownInForce, TimeoutInForce, CooldownEnd;
    hide WriteAttempt, WithoutAnswerDone, Attempted, Awaiting, PopFront, Shadow;
    if ReadyToSend(p, now) {
      if p.queue[0].retries == 0 {
        PopKeepsShadow(p, GivenUp, now);
      } else {
        WriteKeepsShadow(p, now, writeClock);
        WrittenKeepsShadow(WriteAttempt(p, now, writeClock), now);
      }
    }
  }

  lemma PopKeepsShadow(p: Proto, ending: Ending, now: Time)
    requires Shadow(p) && p.queue != []
    ensures Shadow(PopFront(p, ending).(retryPoint := now))
  {
    hide Unhandled, BeingHandled, IsAnswered, CooldownInForce, TimeoutInForce, CooldownEnd;
    ShadowSnoc(p.log, Ended(p.queue[0].request, ending));
  }

  lemma WriteKeepsShadow(p: Proto, now: Time, writeClock: Time)
    requires Shadow(p) && p.queue != []
    ensures Shadow(WriteAttempt(p, now, writeClock)) && WriteAttempt(p, now, writeClock).queue == p.queue
  {
    hide WriteSucceeds, Unhandled, BeingHandled, IsAnswered, CooldownInForce, TimeoutInForce, CooldownEnd;
    var r := p.queue[0].request;
    ShadowSnoc(p.log, RequestWrite(r, now, writeClock, p.cooldown, p.answerTimeout,
                                   WriteSucceeds(r.message, r.useCrc)));
  }

  /** Whatever becomes of the request then. */
  lemma WrittenKeepsShadow(p: Proto, now: Time)
    requires Shadow(p) && p.queue != [] && p.queue[0].retries > 0
    ensures Shadow(WithoutAnswerDone(p, now)) && Shadow(Attempted(p))
    ensures Attempted(p).queue != [] && Shadow(Awaiting(Attempted(p), now))
  {
    hide Unhandled, BeingHandled, IsAnswered, CooldownInForce, TimeoutInForce, CooldownEnd;
    ShadowSnoc(p.log, Ended(p.queue[0].request, SentWithoutAnswer));
  }

  lemma SendIsRuled(p: Proto, now: Time, writeClock: Time)
    requires Books(p) && Shadow(p) && RetryTold(p.queue, p.retryPoint, p.log, now) && now >= 0
    ensures SendNext(p, now, writeClock).log == SendLog(p.log, now, writeClock)
  {
    hide Books, Open, HasAttempts, Due, RetryTold, Goes, WriteSucceeds;
    hide Unhandled, BeingHandled, IsAnswered, CooldownInForce, TimeoutInForce, CooldownEnd;
    ReadyIsDue(p, now);
    if ReadyToSend(p, now) {
      var r := p.queue[0].request;
      GoesExactly(r.message, r.useCrc);
    }
  }

  lemma SendKeepsAnswerTold(p: Proto, now: Time, writeClock: Time)
    requires p.state == IDLE && AnswerTold(p)
    ensures AnswerTold(SendNext(p, now, writeClock))
  {
    hide LastWrite, Awaited, WriteSucceeds;
    if ReadyToSend(p, now) {
      var r := p.queue[0].request;
      WritesSnoc(p.log, Ended(r, GivenUp), r);
      var ok := WriteSucceeds(r.message, r.useCrc);
      var e := RequestWrite(r, now, writeClock, p.cooldown, p.answerTimeout, ok);
      WritesSnoc(p.log, e, r);
      WritesSnoc(p.log + [e], Ended(r, SentWithoutAnswer), r);
    }
  }

  lemma SendTold(p: Proto, now: Time, writeClock: Time)
    requires Books(p) && p.state == IDLE && RetryTold(p.queue, p.retryPoint, p.log, now) && now <= writeClock
    ensures var q := SendNext(p, now, writeClock); RetryTold(q.queue, q.retryPoint, q.log, writeClock)
  {
    hide Books, LastWrite, WriteSucceeds;
    if ReadyToSend(p, now) {
      var r := p.queue[0].request;
      if p.queue[0].retries == 0 {
        PopKeepsRetry(p, GivenUp, now);
      } else {
        var ok := WriteSucceeds(r.message, r.useCrc);
        var e := RequestWrite(r, now, writeClock, p.cooldown, p.answerTimeout, ok);
        WritesSnoc(p.log, e, r);
        if ok && r.noAnswer {
          SentTold(p, e, now, writeClock);
        }
      }
    }
  }

  lemma SentTold(p: Proto, e: Event, now: Time, writeClock: Time)
    requires Books(p) && p.queue != [] && now <= writeClock
    requires e.RequestWrite? && e.request == p.queue[0].request
    ensures RetryTold(p.queue[1..], now, p.log + [e] + [Ended(e.request, SentWithoutAnswer)], writeClock)
  {
    hide Books, LastWrite;
    var ended := Ended(e.request, SentWithoutAnswer);
    if |p.queue| > 1 {
      SecondNeverWritten(p);
      WritesSnoc(p.log, e, p.queue[1].request);
      WritesSnoc(p.log + [e], ended, p.queue[1].request);
    }
  }

  lemma TimeoutShadow(p: Proto, now: Time, script: seq<Action>)
    requires Sound(p) && p.state == WAITING_FOR_ANSWER && Shadow(p)
    ensures HandleTimeout(p, now, script).log == TimeoutLog(p.log, p.queue[0].request, script)
    ensures Shadow(HandleTimeout(p, now, script))
  {
    hide Accounted, AnswersAttributed, TimeoutsMatch, LastSent, ArrivedSinceSent, HasAttempts, PerformAll, ScriptLog;
    hide Unhandled, BeingHandled, IsAnswered, CooldownInForce, TimeoutInForce, CooldownEnd;
    var r := p.queue[0].request;
    var q := Noted(p, WaitOver(r));
    ShadowSnoc(p.log, WaitOver(r));
    AttemptsLeft(p);
    if p.queue[0].retries == 0 {
      NotedKeepsBooks(p, WaitOver(r));
      TimingOutKeepsBooks(q, now);
      ShadowSnoc(q.log, Ended(r, TimedOut));
      ShadowSnoc(q.log + [Ended(r, TimedOut)], TimeoutHandled(r, r.message.frameType));
      ScriptShadow(TimingOut(q, now), script);
    }
  }

  lemma AttemptsLeft(p: Proto)
    requires Books(p) && p.queue != []
    ensures p.queue[0].retries == 0 <==> !HasAttempts(p.log, p.queue[0].request)
  {
    hide WritesOf, InOrder, EndingsAddUp, AnswersAttributed, TimeoutsMatch;
    assert ItemAddsUp(p.queue[0], p.log) by { FrontAddsUp(p); }
  }

  lemma TimeoutKeepsAnswerTold(p: Proto, now: Time, script: seq<Action>)
    requires p.queue != []
    ensures HandleTimeout(p, now, script).state == IDLE && AnswerTold(HandleTimeout(p, now, script))
  {
    hide LastWrite, Awaited, PerformAll;
    var r := p.queue[0].request;
    var q := Noted(p, WaitOver(r));
    WritesSnoc(p.log, WaitOver(r), r);
    if p.queue[0].retries == 0 {
      WritesSnoc(q.log, Ended(r, TimedOut), r);
      WritesSnoc(q.log + [Ended(r, TimedOut)], TimeoutHandled(r, q.lastType), r);
      ScriptKeepsWrites(TimingOut(q, now), script, r);
    }
  }

  lemma TimeoutTold(p: Proto, now: Time, script: seq<Action>)
    requires Sound(p) && p.state == WAITING_FOR_ANSWER && RetryTold(p.queue, p.retryPoint, p.log, now)
    ensures var q := HandleTimeout(p, now, script); RetryTold(q.queue, q.retryPoint, q.log, now)
  {
    hide Accounted, AnswersAttributed, TimeoutsMatch, LastSent, ArrivedSinceSent, LastWrite, PerformAll;
    var r := p.queue[0].request;
    var q := Noted(p, WaitOver(r));
    WritesSnoc(p.log, WaitOver(r), r);
    if p.queue[0].retries == 0 {
      NotedKeepsBooks(p, WaitOver(r));
      TimingOutKeepsBooks(q, now);
      PopKeepsRetry(q, TimedOut, now);
      var t := PopFront(q, TimedOut).(retryPoint := now);
      NoteKeepsTold(t, TimeoutHandled(r, q.lastType), now);
      ScriptKeepsRetry(TimingOut(q, now), now, script);
    }
  }

  lemma AnswerShadow(p: Proto, now: Time, script: seq<Action>)
    requires Sound(p) && p.state == WAITING_FOR_ANSWER && p.incoming != [] && Shadow(p)
    ensures HandleAnswer(p, now, script).log == AnswerLog(p.log, p.queue[0].request, p.incoming[0], script)
    ensures Shadow(HandleAnswer(p, now, script))
  {
    hide Accounted, AnswersAttributed, TimeoutsMatch, LastSent, ArrivedSinceSent, PerformAll, ScriptLog;
    hide Unhandled, BeingHandled, IsAnswered, CooldownInForce, TimeoutInForce, CooldownEnd;
    var r := p.queue[0].request;
    ShadowSnoc(p.log, AnswerHandled(r, p.lastType, p.incoming[0]));
    AnsweringBooks(p);
    var q := Answering(p);
    ScriptShadow(q, script);
    QueueGrows(q, script);
    var h := PerformAll(q, script);
    assert h.queue[0] == q.queue[0];
    ShadowSnoc(h.log, Ended(r, Answered));
  }

  lemma AnsweringBooks(p: Proto)
    requires Sound(p) && p.state == WAITING_FOR_ANSWER && p.incoming != []
    ensures Books(Answering(p))
  {
    hide Accounted, AnswersAttributed, TimeoutsMatch, LastSent, ArrivedSinceSent;
    var e := AnswerHandled(p.queue[0].request, p.lastType, p.incoming[0]);
    NeutralKeepsBooks(p.queue, p.nextId, p.log, e);
    SentSnoc(p.log, e);
    TimeoutsSnoc(p.log, e);
  }

  lemma AnswerKeepsAnswerTold(p: Proto, now: Time, script: seq<Action>)
    requires p.queue != [] && p.incoming != []
    ensures HandleAnswer(p, now, script).state == IDLE && AnswerTold(HandleAnswer(p, now, script))
  {
    hide LastWrite, Awaited, PerformAll;
    var r := p.queue[0].request;
    var q := Answering(p);
    WritesSnoc(p.log, AnswerHandled(r, p.lastType, p.incoming[0]), r);
    ScriptKeepsWrites(q, script, r);
    QueueGrows(q, script);
    var h := PerformAll(q, script);
    WritesSnoc(h.log, Ended(h.queue[0].request, Answered), r);
  }

  lemma AnswerRetryTold(p: Proto, now: Time, script: seq<Action>)
    requires Sound(p) && p.state == WAITING_FOR_ANSWER && p.incoming != []
    ensures var q := HandleAnswer(p, now, script); RetryTold(q.queue, q.retryPoint, q.log, now)
  {
    hide Accounted, AnswersAttributed, TimeoutsMatch, LastSent, ArrivedSinceSent, LastWrite, PerformAll;
    AnsweringBooks(p);
    var q := Answering(p);
    QueueGrows(q, script);
    ScriptKeepsBooks(q, script);
    PopKeepsRetry(PerformAll(q, script), Answered, now);
  }

  // ----- Over every run, whatever the clock does

  /** What ties a state to its log between two steps, but for when a request may be written again. */
  ghost predicate Reflected(p: Proto) {
    Sound(p) && Shadow(p) && AnswerTold(p)
  }

  lemma ArriveReflected(p: Proto, frames: seq<Frame>)
    requires Reflected(p)
    ensures Reflected(Arrive(p, frames))
  {
    hide Accounted, AnswersAttributed, TimeoutsMatch, WaitingSound, LastWrite, Awaited;
    hide Unhandled, BeingHandled, IsAnswered, CooldownInForce, TimeoutInForce, CooldownEnd;
    ArriveKeepsSound(p, frames);
    ShadowSnoc(p.log, Arrived(frames));
    WritesSnoc(p.log, Arrived(frames),
               if p.queue != [] then p.queue[0].request else Request(0, Message(0, []), false, false, 0, 0));
  }

  lemma CallReflected(p: Proto, a: Action)
    requires Reflected(p)
    ensures Perform(p, a).log == AskLog(p.log, a) && Shadow(Perform(p, a)) && AnswerTold(Perform(p, a))
  {
    hide Books, Shadow, LastWrite, Awaited, Perform, AskLog, EnqueuedIn;
    BooksNumber(p);
    AskShadow(p, a);
    PerformKeepsStatus(p, a);
    PerformKeepsBooks(p, a);
    var some := Request(0, Message(0, []), false, false, 0, 0);
    PerformKeepsWrites(p, a, if p.queue != [] then p.queue[0].request else some);
  }

  lemma LoopReflected(p: Proto, now: Time, writeClock: Time, script: seq<Action>)
    requires Reflected(p)
    ensures Shadow(Loop(p, now, writeClock, script)) && AnswerTold(Loop(p, now, writeClock, script))
  {
    hide Books, LastWrite, Awaited, HandleIncoming, SendNext, HandleTimeout, HandleAnswer, MessageLog;
    hide TimeoutLog, AnswerLog, BeingHandled, IsAnswered, CooldownInForce, TimeoutInForce, CooldownEnd;
    match p.state
    case IDLE =>
      MessageShadow(p, script);
      MessageKeepsAnswerTold(p, script);
      SendKeepsShadow(HandleIncoming(p, script), now, writeClock);
      SendKeepsAnswerTold(HandleIncoming(p, script), now, writeClock);
    case WAITING_FOR_ANSWER =>
      if now > p.answerPoint {
        TimeoutShadow(p, now, script);
        TimeoutKeepsAnswerTold(p, now, script);
      } else if p.incoming != [] {
        AnswerShadow(p, now, script);
        AnswerKeepsAnswerTold(p, now, script);
      }
  }

  lemma StepReflected(p: Proto, input: Input)
    requires Reflected(p)
    ensures Reflected(Step(p, input))
  {
    hide Sound, Shadow, AnswerTold, Perform, Loop;
    StepKeepsSound(p, input);
    match input
    case Call(a) => CallReflected(p, a);
    case Tick(arrived, now, writeClock, script) =>
      ArriveReflected(p, arrived);
      LoopReflected(Arrive(p, arrived), now, writeClock, script);
  }

  lemma {:induction false} RunReflected(inputs: seq<Input>)
    ensures Reflected(Run(Start(), inputs))
  {
    hide Reflected, Step;
    if inputs == [] {
      StartReflected();
    } else {
      RunReflected(inputs[..|inputs| - 1]);
      StepReflected(Run(Start(), inputs[..|inputs| - 1]), inputs[|inputs| - 1]);
    }
  }

  lemma StartReflected()
    ensures Reflected(Start())
  {
    StartIsSound();
    hide Sound;
  }

  // ----- Over every run with a clock that never goes back

  /** Everything that ties a state to its log between two steps. */
  ghost predicate Told(p: Proto, clock: Time) {
    Reflected(p) && RetryTold(p.queue, p.retryPoint, p.log, clock) && clock >= 0
  }

  /** Each step logs what the rules say. */
  lemma StepConducts(p: Proto, clock: Time, input: Input)
    requires Told(p, clock) && InputMonotone(clock, input)
    ensures Step(p, input).log == StepLog(p.log, input)
    ensures Told(Step(p, input), if input.Tick? then input.writeClock else clock)
  {
    hide Sound, Shadow, AnswerTold, RetryTold, Perform, Loop, LoopLog, AskLog;
    StepReflected(p, input);
    match input
    case Call(a) =>
      CallReflected(p, a);
      SoundBooks(p);
      PerformKeepsRetry(p, clock, a);
    case Tick(arrived, now, writeClock, script) =>
      ScriptClockLater(now, script);
      ArriveReflected(p, arrived);
      RetryLater(p, clock, arrived, now);
      LoopConducts(Arrive(p, arrived), now, writeClock, script);
  }

  lemma SoundBooks(p: Proto)
    requires Sound(p)
    ensures Books(p)
  {
  }

  lemma RetryLater(p: Proto, clock: Time, frames: seq<Frame>, now: Time)
    requires RetryTold(p.queue, p.retryPoint, p.log, clock) && clock <= now
    ensures RetryTold(p.queue, p.retryPoint, Arrive(p, frames).log, now)
  {
    hide LastWrite;
    NoteKeepsTold(p, Arrived(frames), now);
  }

  lemma LoopConducts(p: Proto, now: Time, writeClock: Time, script: seq<Action>)
    requires Told(p, now) && now <= writeClock
    ensures Loop(p, now, writeClock, script).log == LoopLog(p.log, now, writeClock, script)
    ensures var q := Loop(p, now, writeClock, script); RetryTold(q.queue, q.retryPoint, q.log, writeClock)
  {
    hide Books, LastWrite, Awaited, HandleIncoming, SendNext, HandleTimeout, HandleAnswer, SendLog, MessageLog;
    hide TimeoutLog, AnswerLog, BeingHandled, IsAnswered, CooldownInForce, TimeoutInForce, CooldownEnd;
    match p.state
    case IDLE =>
      MessageShadow(p, script);
      MessageTold(p, now, script);
      IncomingKeepsBooks(p, script);
      SendIsRuled(HandleIncoming(p, script), now, writeClock);
      SendTold(HandleIncoming(p, script), now, writeClock);
    case WAITING_FOR_ANSWER =>
      if now > p.answerPoint {
        TimeoutShadow(p, now, script);
        TimeoutTold(p, now, script);
      } else if p.incoming != [] {
        AnswerShadow(p, now, script);
        AnswerRetryTold(p, now, script);
      }
  }

  lemma StartTold(clock: Time)
    requires clock >= 0
    ensures Told(Start(), clock)
  {
    StartReflected();
    hide Reflected;
  }

  lemma {:induction false} RunConducts(clock: Time, inputs: seq<Input>)
    requires clock >= 0 && MonotoneRun(clock, inputs)
    ensures Run(Start(), inputs).log == LogOf(inputs) && Told(Run(Start(), inputs), ClockAfter(clock, inputs))
  {
    hide Told, Step, StepLog;
    if inputs == [] {
      StartTold(clock);
      assert Start().log == [];
    } else {
      var front := inputs[..|inputs| - 1];
      RunConducts(clock, front);
      StepConducts(Run(Start(), front), ClockAfter(clock, front), inputs[|inputs| - 1]);
    }
  }

  /**
   Over every run with a clock that starts not before zero and never goes back, the protocol does what
   the rules say, in that order, and nothing else.
   */
  lemma RunFollowsRules(clock: Time, inputs: seq<Input>)
    requires clock >= 0 && MonotoneRun(clock, inputs)
    ensures Run(Start(), inputs).log == LogOf(inputs)
  {
    hide Run, LogOf, Told;
    RunConducts(clock, inputs);
  }
}
