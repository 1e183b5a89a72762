/** Pacing over whole runs: the cooldown between writes, and the wait before a request is sent again. */
module Timing {
  import opened Bytes
  import opened FrameCodec
  import opened Protocol
  import opened Accounting
  import opened ProtocolLaws

  /** When the cooldown after the last write, of a request or an answer, is over. */
  function CooldownEnd(log: seq<Event>): Option<Time> {
    if log == [] then None
    else
      var e := log[|log| - 1];
      if e.RequestWrite? || e.AnswerWrite? then Some(e.writeTime + e.cooldown) else CooldownEnd(log[..|log| - 1])
  }

  predicate PacedAt(front: seq<Event>, e: Event) {
    e.RequestWrite? ==>
      e.writeTime >= e.loopTime && (CooldownEnd(front).Some? ==> e.loopTime >= CooldownEnd(front).value)
  }

  /** Successful write w of a request leaves room before the later write e of the same request. */
  predicate SpacedFrom(w: Event, e: Event) {
    w.RequestWrite? && w.ok && e.RequestWrite? && e.request == w.request ==>
      e.loopTime > w.loopTime + w.timeout && e.loopTime >= w.loopTime + w.request.interval
  }

  predicate Timely(log: seq<Event>) {
    log != [] ==>
      var front, e := log[..|log| - 1], log[|log| - 1];
      Timely(front) && PacedAt(front, e) && (forall w | w in front :: SpacedFrom(w, e))
  }

  /** What the timers hold against the past successful write w of the request at the front. */
  predicate Owed(p: Proto, clock: Time, w: Event)
    requires w.RequestWrite?
  {
    && p.retryPoint >= w.loopTime + w.request.interval
    && (clock > w.loopTime + w.timeout || (p.state == WAITING_FOR_ANSWER && p.answerPoint >= w.loopTime + w.timeout))
  }

  predicate FrontOwed(p: Proto, clock: Time) {
    p.queue != [] ==>
      forall w | w in p.log && w.RequestWrite? && w.ok && w.request == p.queue[0].request :: Owed(p, clock, w)
  }

  predicate InThePast(log: seq<Event>, clock: Time) {
    forall w | w in log && w.RequestWrite? :: w.loopTime <= clock
  }

  predicate Timed(p: Proto, clock: Time) {
    && Timely(p.log) && InThePast(p.log, clock) && FrontOwed(p, clock)
    && (CooldownEnd(p.log).Some? ==> p.cooldownPoint == CooldownEnd(p.log).value)
  }

  // ----- One more event

  lemma TimelySnoc(log: seq<Event>, e: Event)
    ensures Timely(log + [e]) <==> Timely(log) && PacedAt(log, e) && (forall w | w in log :: SpacedFrom(w, e))
    ensures CooldownEnd(log + [e])
         == if e.RequestWrite? || e.AnswerWrite? then Some(e.writeTime + e.cooldown) else CooldownEnd(log)
  {
    Snoc(log, e);
  }

  /** An event that is no write of a request. */
  lemma QuietEvent(p: Proto, clock: Time, e: Event)
    requires Timed(p, clock) && !e.RequestWrite?
    ensures Timely(p.log + [e]) && InThePast(p.log + [e], clock)
    ensures p.queue != [] ==>
              forall w | w in p.log + [e] && w.RequestWrite? && w.ok && w.request == p.queue[0].request ::
                w in p.log && Owed(p, clock, w)
  {
    hide Timely, CooldownEnd;
    TimelySnoc(p.log, e);
  }

  /** A request never written owes nothing. */
  lemma FreshFront(queue: seq<Item>, nextId: nat, log: seq<Event>, i: nat)
    requires Accounted(queue, nextId, log) && 0 < i < |queue|
    ensures forall w | w in log && w.RequestWrite? :: w.request != queue[i].request
  {
    hide WritesOf;
    forall w | w in log && w.RequestWrite? ensures w.request != queue[i].request {
      assert ItemAddsUp(queue[i], log);
      NoWritesUnwritten(log, queue[i].request, w);
    }
  }

  /** An event that is no write and ends nothing. */
  lemma NotedKeepsTimed(p: Proto, clock: Time, e: Event)
    requires Timed(p, clock) && !e.RequestWrite? && !e.AnswerWrite?
    ensures Timed(Noted(p, e), clock)
  {
    hide Timely, CooldownEnd;
    QuietEvent(p, clock, e);
    TimelySnoc(p.log, e);
  }

  lemma PerformKeepsTimed(p: Proto, clock: Time, a: Action)
    requires Timed(p, clock) && Books(p)
    ensures Timed(Perform(p, a), clock)
  {
    hide Timed, Books, Effect;
    NotedKeepsTimed(p, clock, Asked(a));
    NotedKeepsBooks(p, Asked(a));
    EffectKeepsTimed(Noted(p, Asked(a)), clock, a);
  }

  lemma EffectKeepsTimed(p: Proto, clock: Time, a: Action)
    requires Timed(p, clock) && Books(p)
    ensures Timed(Effect(p, a), clock)
  {
    hide Timely, CooldownEnd, AnswersAttributed, TimeoutsMatch, WriteSucceeds, InOrder, ItemsAddUp, EndingsAddUp;
    var q := Effect(p, a);
    if |q.log| > |p.log| {
      var e := q.log[|p.log|];
      assert q.log == p.log + [e];
      QuietEvent(p, clock, e);
      TimelySnoc(p.log, e);
    }
  }

  lemma {:induction false} ScriptKeepsTimed(p: Proto, clock: Time, script: seq<Action>)
    requires Timed(p, clock) && Books(p)
    ensures Timed(PerformAll(p, script), clock)
  {
    hide Timed, Books, Perform;
    if script != [] {
      var front := script[..|script| - 1];
      ScriptKeepsTimed(p, clock, front);
      ScriptKeepsBooks(p, front);
      PerformKeepsTimed(PerformAll(p, front), clock, script[|script| - 1]);
    }
  }

  lemma TimedLater(p: Proto, clock: Time, later: Time)
    requires Timed(p, clock) && clock <= later
    ensures Timed(p, later)
  {
  }

  /** Popping the front: whoever is next was never written. */
  lemma PopKeepsTimed(p: Proto, clock: Time, ending: Ending, retryPoint: Time, state: ProtocolState)
    requires Timed(p, clock) && Books(p) && p.queue != []
    ensures Timed(PopFront(p, ending).(retryPoint := retryPoint, state := state), clock)
  {
    hide Timely, CooldownEnd, AnswersAttributed, TimeoutsMatch;
    var e := Ended(p.queue[0].request, ending);
    QuietEvent(p, clock, e);
    TimelySnoc(p.log, e);
    if |p.queue| > 1 {
      FreshFront(p.queue, p.nextId, p.log, 1);
    }
  }

  lemma IncomingKeepsTimed(p: Proto, clock: Time, script: seq<Action>)
    requires Timed(p, clock) && Books(p)
    ensures Timed(HandleIncoming(p, script), clock)
  {
    hide PerformAll, Timely, CooldownEnd, Accounted, AnswersAttributed, TimeoutsMatch;
    if p.incoming != [] {
      var frame := p.incoming[|p.incoming| - 1];
      HandlingKeepsBooks(p, frame);
      QuietEvent(p, clock, MessageHandled(frame));
      TimelySnoc(p.log, MessageHandled(frame));
      ScriptKeepsTimed(Handling(p, frame), clock, script);
      var q := PerformAll(Handling(p, frame), script);
      NotedKeepsTimed(q, clock, HandlerDone(q.answerSent));
    }
  }

  lemma SendKeepsTimed(p: Proto, now: Time, writeClock: Time)
    requires Timed(p, now) && Books(p) && p.state == IDLE && now <= writeClock
    ensures Timed(SendNext(p, now, writeClock), writeClock)
  {
    hide Timely, CooldownEnd, Accounted, AnswersAttributed, TimeoutsMatch, WriteSucceeds;
    if !ReadyToSend(p, now) {
      TimedLater(p, now, writeClock);
    } else if p.queue[0].retries == 0 {
      PopKeepsTimed(p, now, GivenUp, now, IDLE);
      TimedLater(PopFront(p, GivenUp).(retryPoint := now, state := IDLE), now, writeClock);
    } else {
      WriteKeepsTimed(p, now, writeClock);
    }
  }

  lemma WriteKeepsTimed(p: Proto, now: Time, writeClock: Time)
    requires Timed(p, now) && Books(p) && p.state == IDLE && now <= writeClock
    requires ReadyToSend(p, now) && p.queue[0].retries > 0
    ensures Timed(SendNext(p, now, writeClock), writeClock)
  {
    hide Timely, CooldownEnd, Accounted, AnswersAttributed, TimeoutsMatch, WriteSucceeds, Owed;
    var r := p.queue[0].request;
    var ok := WriteSucceeds(r.message, r.useCrc);
    var e := RequestWrite(r, now, writeClock, p.cooldown, p.answerTimeout, ok);
    WriteIsTimely(p, now, e);
    var q := SendNext(p, now, writeClock);
    if ok && r.noAnswer {
      var ended := Ended(r, SentWithoutAnswer);
      assert q.log == p.log + [e] + [ended];
      TimelySnoc(p.log + [e], ended);
      NextAfterWrite(p, e);
    } else {
      assert q.log == p.log + [e];
      WriteOwes(p, now, writeClock);
    }
  }

  /** The write at hand comes after the cooldown, and late enough after each earlier write of the request. */
  lemma WriteIsTimely(p: Proto, now: Time, e: Event)
    requires Timed(p, now) && ReadyToSend(p, now) && p.state == IDLE
    requires e.RequestWrite? && e.request == p.queue[0].request && e.loopTime == now <= e.writeTime
    ensures Timely(p.log + [e]) && CooldownEnd(p.log + [e]) == Some(e.writeTime + e.cooldown)
  {
    hide Timely, CooldownEnd;
    TimelySnoc(p.log, e);
  }

  /** What the timers hold against the writes of the front request, the one at hand included. */
  lemma WriteOwes(p: Proto, now: Time, writeClock: Time)
    requires Timed(p, now) && p.state == IDLE && now <= writeClock
    requires ReadyToSend(p, now) && p.queue[0].retries > 0
    requires var r := p.queue[0].request; !(WriteSucceeds(r.message, r.useCrc) && r.noAnswer)
    ensures FrontOwed(SendNext(p, now, writeClock), writeClock)
  {
    hide Timely, CooldownEnd, WriteSucceeds;
  }

  /** Behind a request that is done comes one that was never written. */
  lemma NextAfterWrite(p: Proto, e: Event)
    requires Books(p) && p.queue != [] && e.RequestWrite? && e.request == p.queue[0].request
    ensures |p.queue| > 1 ==> forall w | w in p.log + [e] && w.RequestWrite? :: w.request != p.queue[1].request
  {
    hide AnswersAttributed, TimeoutsMatch, WritesOf, ItemsAddUp, EndingsAddUp;
    if |p.queue| > 1 {
      FreshFront(p.queue, p.nextId, p.log, 1);
      QueuedIsDistinct(p.queue, p.nextId, p.log, 0);
      assert p.queue[1].request != p.queue[0].request;
    }
  }

  lemma TimeoutKeepsTimed(p: Proto, now: Time, script: seq<Action>)
    requires Timed(p, now) && Sound(p) && p.state == WAITING_FOR_ANSWER && now > p.answerPoint
    ensures Timed(HandleTimeout(p, now, script), now)
  {
    hide Timely, CooldownEnd, Books, PerformAll, LastSent, ArrivedSinceSent;
    var q := Noted(p, WaitOver(p.queue[0].request));
    NotedKeepsTimed(p, now, WaitOver(p.queue[0].request));
    NotedKeepsBooks(p, WaitOver(p.queue[0].request));
    if p.queue[0].retries == 0 {
      var r := q.queue[0].request;
      var popped := PopFront(q, TimedOut).(retryPoint := now);
      PopKeepsTimed(q, now, TimedOut, now, WAITING_FOR_ANSWER);
      NotedKeepsTimed(popped, now, TimeoutHandled(r, q.lastType));
      assert TimingOut(q, now) == Noted(popped, TimeoutHandled(r, q.lastType));
      FrontGoneBooks(q, now);
      ScriptKeepsTimed(TimingOut(q, now), now, script);
      ScriptFrontUnwritten(TimingOut(q, now), script);
    }
  }

  /** The books in the middle of a timeout, when its handler starts. */
  lemma FrontGoneBooks(p: Proto, now: Time)
    requires Books(p) && p.queue != [] && p.queue[0].retries == 0
    requires !p.queue[0].request.noAnswer && p.lastType == p.queue[0].request.message.frameType
    ensures Books(TimingOut(p, now)) && FrontUnwritten(TimingOut(p, now))
  {
    hide Accounted, AnswersAttributed, TimeoutsMatch;
    TimingOutKeepsBooks(p, now);
    if |p.queue| > 1 {
      FreshFront(p.queue, p.nextId, p.log, 1);
    }
  }

  /** The front of the queue, if any, was never written. */
  predicate FrontUnwritten(p: Proto) {
    p.queue != [] ==> forall w | w in p.log && w.RequestWrite? :: w.request != p.queue[0].request
  }

  lemma PerformFrontUnwritten(p: Proto, a: Action)
    requires Accounted(p.queue, p.nextId, p.log) && FrontUnwritten(p)
    ensures FrontUnwritten(Perform(p, a))
  {
    hide WriteSucceeds, InOrder, ItemsAddUp, EndingsAddUp;
  }

  /** A front without writes owes nothing, whatever the handler enqueues. */
  lemma {:induction false} ScriptFrontUnwritten(p: Proto, script: seq<Action>)
    requires Books(p) && FrontUnwritten(p)
    ensures FrontUnwritten(PerformAll(p, script))
  {
    hide FrontUnwritten, Accounted, Perform;
    if script != [] {
      var front := script[..|script| - 1];
      ScriptFrontUnwritten(p, front);
      ScriptKeepsBooks(p, front);
      PerformFrontUnwritten(PerformAll(p, front), script[|script| - 1]);
    }
  }

  lemma AnswerKeepsTimed(p: Proto, now: Time, script: seq<Action>)
    requires Timed(p, now) && Sound(p) && p.state == WAITING_FOR_ANSWER && p.incoming != []
    ensures Timed(HandleAnswer(p, now, script), now)
  {
    hide Timely, CooldownEnd, Accounted, AnswersAttributed, TimeoutsMatch, PerformAll, LastSent;
    var r := p.queue[0].request;
    var e := AnswerHandled(r, p.lastType, p.incoming[0]);
    var q := p.(incoming := p.incoming[1..], log := p.log + [e]);
    QuietEvent(p, now, e);
    TimelySnoc(p.log, e);
    assert Timed(q, now);
    NeutralKeepsBooks(p.queue, p.nextId, p.log, e);
    SentSnoc(p.log, e);
    TimeoutsSnoc(p.log, e);
    assert Books(q);
    ScriptKeepsTimed(q, now, script);
    ScriptKeepsBooks(q, script);
    PopKeepsTimed(PerformAll(q, script), now, Answered, now, IDLE);
  }

  lemma {:induction false} ScriptClockLater(clock: Time, script: seq<Action>)
    requires ScriptMonotone(clock, script)
    ensures clock <= ScriptClock(clock, script)
  {
    if script != [] {
      ScriptClockLater(clock, script[..|script| - 1]);
    }
  }

  lemma ArriveKeepsTimed(p: Proto, clock: Time, frames: seq<Frame>)
    requires Timed(p, clock)
    ensures Timed(Arrive(p, frames), clock)
  {
    hide Timely, CooldownEnd;
    QuietEvent(p, clock, Arrived(frames));
    TimelySnoc(p.log, Arrived(frames));
  }

  lemma StepKeepsTimed(p: Proto, clock: Time, input: Input)
    requires Timed(p, clock) && Sound(p) && InputMonotone(clock, input)
    ensures Timed(Step(p, input), if input.Tick? then input.writeClock else clock)
  {
    hide Timely, CooldownEnd, Accounted, AnswersAttributed, TimeoutsMatch, PerformAll, LastSent,
      HandleTimeout, HandleAnswer, HandleIncoming, SendNext, Perform;
    match input
    case Call(a) => PerformKeepsTimed(p, clock, a);
    case Tick(arrived, now, writeClock, script) =>
      ScriptClockLater(now, script);
      var q := Arrive(p, arrived);
      ArriveKeepsTimed(p, clock, arrived);
      ArriveKeepsSound(p, arrived);
      TimedLater(q, clock, now);
      match q.state
      case IDLE =>
        IncomingKeepsTimed(q, now, script);
        IncomingKeepsBooks(q, script);
        SendKeepsTimed(HandleIncoming(q, script), now, writeClock);
      case WAITING_FOR_ANSWER =>
        if now > q.answerPoint {
          TimeoutKeepsTimed(q, now, script);
          TimedLater(HandleTimeout(q, now, script), now, writeClock);
        } else if q.incoming != [] {
          AnswerKeepsTimed(q, now, script);
          TimedLater(HandleAnswer(q, now, script), now, writeClock);
        } else {
          TimedLater(q, now, writeClock);
        }
  }

  lemma {:induction false} RunIsTimed(clock: Time, inputs: seq<Input>)
    requires MonotoneRun(clock, inputs)
    ensures Timed(Run(Start(), inputs), ClockAfter(clock, inputs))
  {
    hide Timed, Step;
    if inputs == [] {
      StartIsTimed(clock);
    } else {
      var front := inputs[..|inputs| - 1];
      RunIsTimed(clock, front);
      RunIsSound(front);
      StepKeepsTimed(Run(Start(), front), ClockAfter(clock, front), inputs[|inputs| - 1]);
    }
  }

  lemma StartIsTimed(clock: Time)
    ensures Timed(Start(), clock)
  {
  }

  lemma {:induction false} TimelyAt(log: seq<Event>, i: nat, j: nat)
    requires Timely(log) && j < |log|
    ensures PacedAt(log[..j], log[j]) && (i < j ==> SpacedFrom(log[i], log[j]))
  {
    hide CooldownEnd;
    var front := log[..|log| - 1];
    if j < |front| {
      TimelyAt(front, i, j);
      assert front[..j] == log[..j];
    }
  }

  /**
   Over every run with a clock that never goes back, a request is never written before the previous
   write, of a request or an answer, plus the cooldown then in force.
   */
  lemma CooldownHolds(clock: Time, inputs: seq<Input>, j: nat)
    requires MonotoneRun(clock, inputs)
    requires j < |Run(Start(), inputs).log| && Run(Start(), inputs).log[j].RequestWrite?
    ensures var log := Run(Start(), inputs).log;
            CooldownEnd(log[..j]).Some? ==> log[j].writeTime >= log[j].loopTime >= CooldownEnd(log[..j]).value
  {
    hide Run, Timely, CooldownEnd;
    RunIsTimed(clock, inputs);
    TimelyAt(Run(Start(), inputs).log, 0, j);
  }

  /**
   Over every such run, a request written again after a successful write is written more than the
   answer timeout then in force and at least its retry interval later.
   */
  lemma ResendWaits(clock: Time, inputs: seq<Input>, i: nat, j: nat)
    requires MonotoneRun(clock, inputs)
    requires var log := Run(Start(), inputs).log;
             && i < j < |log| && log[i].RequestWrite? && log[i].ok
             && log[j].RequestWrite? && log[i].request == log[j].request
    ensures var log := Run(Start(), inputs).log;
            && log[j].loopTime > log[i].loopTime + log[i].timeout
            && log[j].loopTime >= log[i].loopTime + log[i].request.interval
  {
    hide Run, Timely, CooldownEnd;
    RunIsTimed(clock, inputs);
    TimelyAt(Run(Start(), inputs).log, i, j);
  }
}
