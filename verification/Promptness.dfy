/**
 Nothing is held back: when a request is due it is written by the very next loop that finds no answer
 awaited, and a wait ends with the first answer in time, or with the first loop behind its timeout.
 */
module Promptness {
  import opened Bytes
  import opened FrameCodec
  import opened Protocol
  import opened Accounting
  import opened ProtocolLaws
  import opened Timing
  import opened Conduct
  import opened Conformance
  import opened Handling
  import Provenance

  /** A run and one more step: the step follows the rules. */
  lemma NextStep(clock: Time, inputs: seq<Input>, input: Input)
    requires clock >= 0 && MonotoneRun(clock, inputs + [input])
    ensures var p := Run(Start(), inputs);
            && Told(p, ClockAfter(clock, inputs)) && Run(Start(), inputs + [input]).log == StepLog(p.log, input)
  {
    hide Told, StepLog, Step;
    Snoc(inputs, input);
    RunConducts(clock, inputs);
    StepConducts(Run(Start(), inputs), ClockAfter(clock, inputs), input);
  }

  /** However the request before it ended, one that was never written successfully is not held back. */
  lemma NeverHeldBack(clock: Time, inputs: seq<Input>)
    requires clock >= 0 && MonotoneRun(clock, inputs)
    ensures var p := Run(Start(), inputs);
            p.queue != [] && LastWrite(p.log, p.queue[0].request) == None ==> p.retryPoint <= ClockAfter(clock, inputs)
  {
    hide Run, Reflected, LastWrite, ClockAfter;
    RunConducts(clock, inputs);
  }

  /** The log when a loop has handled its messages and looks for what to send. */
  function BeforeSending(log: seq<Event>, input: Input): seq<Event>
    requires input.Tick?
  {
    MessageLog(log + [Arrived(input.arrived)], input.script)
  }

  /** With no frame there, that is the log as it was. */
  lemma NothingToHandle(log: seq<Event>, input: Input)
    requires input.Tick? && There(log, input) == []
    ensures BeforeSending(log, input) == log + [Arrived(input.arrived)]
    ensures Open(BeforeSending(log, input)) == Open(log) && CooldownEnd(BeforeSending(log, input)) == CooldownEnd(log)
    ensures forall r :: LastWrite(BeforeSending(log, input), r) == LastWrite(log, r)
    ensures forall r :: WritesOf(BeforeSending(log, input), r) == WritesOf(log, r)
  {
    hide Unhandled, EnqueuedIn, EndedIn, WritesOf, LastWrite, CooldownEnd, BeingHandled, IsAnswered;
    hide CooldownInForce, TimeoutInForce, Awaited;
    var e := Arrived(input.arrived);
    ShadowSnoc(log, e);
    forall r
      ensures LastWrite(log + [e], r) == LastWrite(log, r) && WritesOf(log + [e], r) == WritesOf(log, r)
      ensures EnqueuedIn(log + [e]) == EnqueuedIn(log) && EndedIn(log + [e]) == EndedIn(log)
    {
      WritesSnoc(log, e, r);
      LogSnoc(log, e, r);
    }
    var some := Request(0, Message(0, []), false, false, 0, 0);
    LogSnoc(log, e, some);
  }

  /**
   Over every run with a clock that starts not before zero and never goes back: in a loop that finds no
   answer awaited, the first open request that has attempts left is written if the cooldown is over and
   its retry interval has passed since it was last written successfully; and only then.
   */
  lemma WrittenWhenDue(clock: Time, inputs: seq<Input>, input: Input)
    requires clock >= 0 && MonotoneRun(clock, inputs + [input]) && input.Tick?
    requires Awaited(Run(Start(), inputs).log) == None
    ensures var log, next := Run(Start(), inputs).log, Run(Start(), inputs + [input]).log;
            var now := BeforeSending(log, input);
            && now <= next
            && if Open(now) == [] || !Due(now, Open(now)[0], input.now) then next == now
               else
                 var r := Open(now)[0];
                 && |next| > |now|
                 && (if HasAttempts(now, r) then
                       && next[|now|].RequestWrite? && next[|now|].request == r
                       && next[|now|].loopTime == input.now && next[|now|].writeTime == input.writeClock
                       && next[|now|].cooldown == CooldownInForce(now) && next[|now|].timeout == TimeoutInForce(now)
                     else next[|now|] == Ended(r, GivenUp))
  {
    hide MessageLog, Due, HasAttempts, Open, Goes, CooldownInForce, TimeoutInForce, Told, Run, Awaited, LastWrite;
    NextStep(clock, inputs, input);
    var log := Run(Start(), inputs).log;
    StillAwaited(log, input.arrived);
  }

  lemma StillAwaited(log: seq<Event>, frames: seq<Frame>)
    ensures Awaited(log + [Arrived(frames)]) == Awaited(log)
    ensures Unhandled(log + [Arrived(frames)]) == Unhandled(log) + frames
  {
    hide Unhandled, BeingHandled, IsAnswered, CooldownInForce, TimeoutInForce, CooldownEnd, LastWrite, Awaited;
    WritesSnoc(log, Arrived(frames), Request(0, Message(0, []), false, false, 0, 0));
    ShadowSnoc(log, Arrived(frames));
  }

  /**
   So a request never written goes out with the first loop at or after the end of the cooldown, whatever
   interval the request before it had, and whether that was answered, timed out, given up or needed no
   answer.
   */
  lemma FreshRequestGoesOut(clock: Time, inputs: seq<Input>, input: Input)
    requires clock >= 0 && MonotoneRun(clock, inputs + [input]) && input.Tick?
    requires Awaited(Run(Start(), inputs).log) == None && There(Run(Start(), inputs).log, input) == []
    requires var log := Run(Start(), inputs).log;
             && Open(log) != [] && WritesOf(log, Open(log)[0]) == 0
             && (CooldownEnd(log).Some? ==> input.now >= CooldownEnd(log).value)
    ensures var log, next := Run(Start(), inputs).log, Run(Start(), inputs + [input]).log;
            && |next| > |log| + 1 && next[|log| + 1].RequestWrite?
            && next[|log| + 1].request == Open(log)[0] && next[|log| + 1].loopTime == input.now
  {
    hide MessageLog, Open, CooldownInForce, TimeoutInForce, Run, Awaited, LastWrite, WritesOf, CooldownEnd, Unhandled;
    var log := Run(Start(), inputs).log;
    var r := Open(log)[0];
    NothingToHandle(log, input);
    UnwrittenHasNoLast(log, r);
    OpenHasBudget(inputs);
    WrittenWhenDue(clock, inputs, input);
  }

  lemma {:induction false} UnwrittenHasNoLast(log: seq<Event>, r: Request)
    requires WritesOf(log, r) == 0
    ensures LastWrite(log, r) == None
  {
    if log != [] {
      UnwrittenHasNoLast(log[..|log| - 1], r);
    }
  }

  lemma OpenHasBudget(inputs: seq<Input>)
    ensures var log := Run(Start(), inputs).log; Open(log) != [] ==> Open(log)[0].budget > 0
  {
    hide Run, EnqueuedIn, EndedIn, WritesOf, AnswersAttributed, TimeoutsMatch, InOrder, EndingsAddUp, Open;
    RunIsSound(inputs);
    var p := Run(Start(), inputs);
    BooksNumber(p);
    if p.queue != [] {
      assert ItemAddsUp(p.queue[0], p.log) by { FrontAddsUp(p); }
      assert RequestsOf(p.queue)[0] == p.queue[0].request;
    }
  }

  // ----- Waiting, whatever the clock does

  lemma WaitingLoop(inputs: seq<Input>, input: Input)
    requires input.Tick? && Awaited(Run(Start(), inputs).log).Some?
    ensures var log, next := Run(Start(), inputs).log, Run(Start(), inputs + [input]).log;
            var arrived, w := log + [Arrived(input.arrived)], Awaited(log).value;
            && Awaited(arrived) == Awaited(log) && Unhandled(arrived) == There(log, input)
            && next == if input.now > w.loopTime + w.timeout then TimeoutLog(arrived, w.request, input.script)
                       else if There(log, input) == [] then arrived
                       else AnswerLog(arrived, w.request, There(log, input)[0], input.script)
  {
    hide Books, LastWrite, Awaited, HandleTimeout, HandleAnswer, TimeoutLog, AnswerLog, Run, Unhandled;
    hide BeingHandled, IsAnswered, CooldownInForce, TimeoutInForce, CooldownEnd;
    var p := Run(Start(), inputs);
    RunReflected(inputs);
    ArriveReflected(p, input.arrived);
    StillAwaited(p.log, input.arrived);
    RunOneMore(inputs, input);
    var q := Arrive(p, input.arrived);
    if input.now > q.answerPoint {
      TimeoutShadow(q, input.now, input.script);
    } else if q.incoming != [] {
      AnswerShadow(q, input.now, input.script);
    }
  }

  lemma RunOneMore(inputs: seq<Input>, input: Input)
    ensures Run(Start(), inputs + [input]) == Step(Run(Start(), inputs), input)
  {
    hide Step;
    Snoc(inputs, input);
  }

  /**
   Over every run the first loop later than a write's loop time plus its timeout ends the wait, even if an
   answer is there: no frame is handled, and the request is over if it has no attempts left.
   */
  lemma WaitEndsOnTime(inputs: seq<Input>, input: Input)
    requires Late(Run(Start(), inputs).log, input)
    ensures var log, next := Run(Start(), inputs).log, Run(Start(), inputs + [input]).log;
            var r := Awaited(log).value.request;
            var over := log + [Arrived(input.arrived)] + [WaitOver(r)];
            && Provenance.HandledIn(next) == Provenance.HandledIn(log) && Awaited(next) == None
            && (if HasAttempts(log, r) then next == over
                else over + [Ended(r, TimedOut)] + [TimeoutHandled(r, r.message.frameType)] <= next)
  {
    hide Run, Awaited, Unhandled, ScriptLog, HasAttempts, Reflected, Step, Provenance.HandledIn;
    hide ActionsIn, RepliesIn, ArrivedIn, AsAsked, Orderly;
    var p := Run(Start(), inputs);
    var r := Awaited(p.log).value.request;
    WaitingLoop(inputs, input);
    RunOneMore(inputs, input);
    RunReflected(inputs);
    TickReads(p, input);
    assert Provenance.HandledIn(p.log) + [] == Provenance.HandledIn(p.log);
    ArriveReads(p.log, input.arrived);
    var over := p.log + [Arrived(input.arrived)] + [WaitOver(r)];
    ScriptGrows(over + [Ended(r, TimedOut)] + [TimeoutHandled(r, r.message.frameType)], input.script);
    NoLongerAwaited(inputs, input);
  }

  /** After a loop that ends a wait nothing is awaited. */
  lemma NoLongerAwaited(inputs: seq<Input>, input: Input)
    requires input.Tick? && Awaited(Run(Start(), inputs).log).Some?
    requires Late(Run(Start(), inputs).log, input) || There(Run(Start(), inputs).log, input) != []
    ensures Awaited(Run(Start(), inputs + [input]).log) == None
  {
    hide Books, LastWrite, Awaited, HandleTimeout, HandleAnswer, Run, Unhandled;
    hide BeingHandled, IsAnswered, CooldownInForce, TimeoutInForce, CooldownEnd;
    var p := Run(Start(), inputs);
    RunReflected(inputs);
    ArriveReflected(p, input.arrived);
    StillAwaited(p.log, input.arrived);
    RunOneMore(inputs, input);
    var q := Arrive(p, input.arrived);
    if input.now > q.answerPoint {
      TimeoutKeepsAnswerTold(q, input.now, input.script);
    } else {
      AnswerKeepsAnswerTold(q, input.now, input.script);
    }
  }

  /** A frame there in time is taken as the answer, the first one first, and the request is over. */
  lemma AnswerIsTaken(inputs: seq<Input>, input: Input)
    requires AnswerOf(Run(Start(), inputs).log, input).Some?
    ensures var log, next := Run(Start(), inputs).log, Run(Start(), inputs + [input]).log;
            var r, f := Awaited(log).value.request, There(log, input)[0];
            && log + [Arrived(input.arrived)] + [AnswerHandled(r, r.message.frameType, f)] <= next
            && next[|next| - 1] == Ended(r, Answered) && Awaited(next) == None
            && ActionsIn(next) == ActionsIn(log) + input.script
  {
    hide Run, Awaited, Unhandled, ScriptLog, HasAttempts, Reflected, Step;
    hide ActionsIn, RepliesIn, ArrivedIn, AsAsked, Orderly, Provenance.HandledIn;
    var p := Run(Start(), inputs);
    var r, f := Awaited(p.log).value.request, There(p.log, input)[0];
    WaitingLoop(inputs, input);
    RunOneMore(inputs, input);
    RunReflected(inputs);
    TickReads(p, input);
    ScriptGrows(p.log + [Arrived(input.arrived)] + [AnswerHandled(r, r.message.frameType, f)], input.script);
    NoLongerAwaited(inputs, input);
  }

  /** With neither an answer there nor the timeout past, the wait goes on and nothing else happens. */
  lemma WaitGoesOn(inputs: seq<Input>, input: Input)
    requires input.Tick? && Awaited(Run(Start(), inputs).log).Some?
    requires !Late(Run(Start(), inputs).log, input) && There(Run(Start(), inputs).log, input) == []
    ensures Run(Start(), inputs + [input]).log == Run(Start(), inputs).log + [Arrived(input.arrived)]
  {
    hide Run, Awaited, Unhandled;
    WaitingLoop(inputs, input);
  }
}
