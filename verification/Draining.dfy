/** Without new messages the queue drains: a measure drops with everything the protocol does. */
module Draining {
  import opened Protocol

  function Work(queue: seq<Item>): nat {
    if queue == [] then 0 else 2 * queue[0].retries + 1 + Work(queue[1..])
  }

  /** Two for each attempt left and one for each message, and one for an answer awaited. */
  function Measure(p: Proto): nat {
    Work(p.queue) + if p.state == WAITING_FOR_ANSWER then 1 else 0
  }

  predicate Enqueues(a: Action) {
    a.SendMessage? || a.SendMessageWithoutAnswer?
  }

  predicate NoNewMessages(input: Input) {
    match input
    case Call(a) => !Enqueues(a)
    case Tick(_, _, _, script) => forall a | a in script :: !Enqueues(a)
  }

  lemma PerformKeepsQueue(p: Proto, a: Action)
    requires !Enqueues(a)
    ensures Perform(p, a).queue == p.queue && Perform(p, a).state == p.state
    ensures Perform(p, a).retryPoint == p.retryPoint && Perform(p, a).answerPoint == p.answerPoint
  {
  }

  lemma {:induction false} ScriptKeepsQueue(p: Proto, script: seq<Action>)
    requires forall a | a in script :: !Enqueues(a)
    ensures var q := PerformAll(p, script);
            q.queue == p.queue && q.state == p.state && q.retryPoint == p.retryPoint && q.answerPoint == p.answerPoint
  {
    hide Perform;
    if script != [] {
      var front := script[..|script| - 1];
      assert forall a | a in front :: a in script;
      ScriptKeepsQueue(p, front);
      PerformKeepsQueue(PerformAll(p, front), script[|script| - 1]);
    }
  }

  /** The step does something: it sends or gives up a message, takes an answer, or times out. */
  predicate Active(p: Proto, input: Input) {
    input.Tick? &&
    var q := Arrive(p, input.arrived);
    match p.state
    case IDLE => ReadyToSend(HandleIncoming(q, input.script), input.now)
    case WAITING_FOR_ANSWER => p.queue != [] && (input.now > p.answerPoint || q.incoming != [])
  }

  lemma IncomingKeepsQueue(p: Proto, script: seq<Action>)
    requires forall a | a in script :: !Enqueues(a)
    ensures HandleIncoming(p, script).queue == p.queue && HandleIncoming(p, script).state == p.state
  {
    hide PerformAll;
    if p.incoming != [] {
      ScriptKeepsQueue(Handling(p, p.incoming[|p.incoming| - 1]), script);
    }
  }

  lemma SendDrains(p: Proto, now: Time, writeClock: Time)
    requires p.state == IDLE
    ensures if ReadyToSend(p, now) then Measure(SendNext(p, now, writeClock)) < Measure(p)
            else SendNext(p, now, writeClock) == p
  {
    hide WriteSucceeds;
    if ReadyToSend(p, now) {
      var q := SendNext(p, now, writeClock);
      if q.queue != p.queue[1..] {
        assert q.queue[1..] == p.queue[1..];
      }
    }
  }

  /** The measure never grows without new messages, and drops strictly with every active step. */
  lemma StepDrains(p: Proto, input: Input)
    requires NoNewMessages(input)
    ensures Measure(Step(p, input)) <= Measure(p)
    ensures Active(p, input) ==> Measure(Step(p, input)) < Measure(p)
  {
    hide PerformAll, SendNext, HandleIncoming, Perform;
    match input
    case Call(a) => PerformKeepsQueue(p, a);
    case Tick(arrived, now, writeClock, script) =>
      var q := Arrive(p, arrived);
      match q.state
      case IDLE =>
        IncomingKeepsQueue(q, script);
        SendDrains(HandleIncoming(q, script), now, writeClock);
      case WAITING_FOR_ANSWER =>
        if q.queue != [] {
          var r := q.queue[0].request;
          if now > q.answerPoint {
            ScriptKeepsQueue(TimingOut(Noted(q, WaitOver(r)), now), script);
          } else if q.incoming != [] {
            var t := q.(incoming := q.incoming[1..], log := q.log + [AnswerHandled(r, q.lastType, q.incoming[0])]);
            ScriptKeepsQueue(t, script);
          }
        }
  }

  /** How many steps of a run are active. */
  function ActiveSteps(p: Proto, inputs: seq<Input>): nat {
    if inputs == [] then 0
    else
      var front := inputs[..|inputs| - 1];
      ActiveSteps(p, front) + if Active(Run(p, front), inputs[|inputs| - 1]) then 1 else 0
  }

  /** From any state, the active steps of a run without new messages are paid for by the measure. */
  lemma {:induction false} ActiveStepsBounded(p: Proto, inputs: seq<Input>)
    requires forall i | i in inputs :: NoNewMessages(i)
    ensures ActiveSteps(p, inputs) + Measure(Run(p, inputs)) <= Measure(p)
  {
    hide Measure, Step, Active, NoNewMessages;
    if inputs != [] {
      var front := inputs[..|inputs| - 1];
      assert forall i | i in front :: i in inputs;
      ActiveStepsBounded(p, front);
      StepDrains(Run(p, front), inputs[|inputs| - 1]);
    }
  }

  /** While a message is queued, every step is active: its time has come. */
  predicate AlwaysDue(p: Proto, inputs: seq<Input>) {
    inputs != [] ==>
      var front := inputs[..|inputs| - 1];
      AlwaysDue(p, front) && (Run(p, front).queue != [] ==> Active(Run(p, front), inputs[|inputs| - 1]))
  }

  lemma {:induction false} EmptyStaysEmpty(p: Proto, input: Input)
    requires NoNewMessages(input) && p.queue == []
    ensures Step(p, input).queue == []
  {
    hide PerformAll, HandleIncoming, Perform;
    match input
    case Call(a) => PerformKeepsQueue(p, a);
    case Tick(arrived, now, writeClock, script) =>
      var q := Arrive(p, arrived);
      IncomingKeepsQueue(q, script);
  }

  /** With no message to handle first, a step past all time points is active. */
  lemma DueByClock(p: Proto, now: Time, writeClock: Time, script: seq<Action>)
    requires p.queue != [] && p.incoming == []
    requires now >= p.cooldownPoint && now >= p.retryPoint && now > p.answerPoint
    ensures Active(p, Tick([], now, writeClock, script))
  {
    assert p.incoming + [] == [];
  }

  /**
   So a run without new messages in which steps come when they are due empties the queue within as
   many steps as the measure says, whatever mix of failed writes and missing answers it meets.
   */
  lemma {:induction false} QueueDrains(p: Proto, inputs: seq<Input>)
    requires forall i | i in inputs :: NoNewMessages(i)
    requires AlwaysDue(p, inputs)
    ensures Run(p, inputs).queue == [] || |inputs| + Measure(Run(p, inputs)) <= Measure(p)
    ensures |inputs| >= Measure(p) ==> Run(p, inputs).queue == []
  {
    hide Step, Active, NoNewMessages;
    if inputs != [] {
      var front, last := inputs[..|inputs| - 1], inputs[|inputs| - 1];
      assert forall i | i in front :: i in inputs;
      QueueDrains(p, front);
      var q := Run(p, front);
      StepDrains(q, last);
      if q.queue == [] {
        EmptyStaysEmpty(q, last);
      }
    }
  }

  // ----- A quiet line

  /** A handler that asks for no message and for no longer intervals. */
  predicate Calm(gap: nat, a: Action) {
    match a
    case SetAnswerTimeout(ms) => ms <= gap
    case SetCooldownInterval(ms) => ms <= gap
    case _ => !Enqueues(a)
  }

  /** Nothing arrives, and each loop comes more than the gap after the clock reading before it. */
  predicate QuietLine(clock: Time, gap: nat, inputs: seq<Input>) {
    inputs != [] ==>
      var front, last := inputs[..|inputs| - 1], inputs[|inputs| - 1];
      && QuietLine(clock, gap, front)
      && last.Tick? && last.arrived == [] && (forall a | a in last.script :: Calm(gap, a))
      && ClockAfter(clock, front) + gap < last.now <= last.writeClock
  }

  /** Nothing to handle, and no interval or time point further away than the gap. */
  predicate Within(p: Proto, clock: Time, gap: nat) {
    && p.incoming == [] && !p.processing && p.cooldown <= gap && p.answerTimeout <= gap
    && p.cooldownPoint <= clock + gap && p.retryPoint <= clock + gap && p.answerPoint <= clock + gap
    && forall i | 0 <= i < |p.queue| :: p.queue[i].request.interval <= gap
  }

  lemma {:induction false} ScriptKeepsWithin(p: Proto, clock: Time, gap: nat, script: seq<Action>)
    requires Within(p, clock, gap) && forall a | a in script :: Calm(gap, a)
    ensures Within(PerformAll(p, script), clock, gap)
  {
    hide WriteSucceeds;
    if script != [] {
      var front := script[..|script| - 1];
      assert forall a | a in front :: a in script;
      ScriptKeepsWithin(p, clock, gap, front);
      PerformKeepsWithin(PerformAll(p, front), clock, gap, script[|script| - 1]);
    }
  }

  lemma PerformKeepsWithin(p: Proto, clock: Time, gap: nat, a: Action)
    requires Within(p, clock, gap) && Calm(gap, a)
    ensures Within(Perform(p, a), clock, gap)
  {
    hide WriteSucceeds;
  }

  lemma SendKeepsWithin(p: Proto, clock: Time, gap: nat, now: Time, writeClock: Time)
    requires Within(p, clock, gap) && clock <= now <= writeClock
    ensures Within(SendNext(p, now, writeClock), writeClock, gap)
  {
    hide WriteSucceeds;
  }

  /** A loop of a quiet line is active while a message is queued, and leaves the line quiet. */
  lemma QuietStep(p: Proto, clock: Time, gap: nat, now: Time, writeClock: Time, script: seq<Action>)
    requires Within(p, clock, gap) && clock + gap < now <= writeClock
    requires forall a | a in script :: Calm(gap, a)
    ensures p.queue != [] ==> Active(p, Tick([], now, writeClock, script))
    ensures Within(Step(p, Tick([], now, writeClock, script)), writeClock, gap)
  {
    hide PerformAll, SendNext;
    if p.queue != [] {
      DueByClock(p, now, writeClock, script);
    }
    var q := Arrive(p, []);
    assert p.incoming + [] == [];
    match q.state
    case IDLE => SendKeepsWithin(q, clock, gap, now, writeClock);
    case WAITING_FOR_ANSWER =>
      if q.queue != [] && q.queue[0].retries == 0 {
        ScriptKeepsWithin(TimingOut(Noted(q, WaitOver(q.queue[0].request)), now), writeClock, gap, script);
      }
  }

  lemma {:induction false} QuietLineIsDue(p: Proto, clock: Time, gap: nat, inputs: seq<Input>)
    requires Within(p, clock, gap) && QuietLine(clock, gap, inputs)
    ensures AlwaysDue(p, inputs) && Within(Run(p, inputs), ClockAfter(clock, inputs), gap)
    ensures forall i | i in inputs :: NoNewMessages(i)
  {
    hide Within, Active, Step;
    if inputs != [] {
      var front, last := inputs[..|inputs| - 1], inputs[|inputs| - 1];
      QuietLineIsDue(p, clock, gap, front);
      QuietStep(Run(p, front), ClockAfter(clock, front), gap, last.now, last.writeClock, last.script);
      assert last == Tick([], last.now, last.writeClock, last.script);
      assert forall i | i in inputs :: i in front || i == last;
    }
  }

  /**
   On a quiet line the clock alone empties the queue: with loops further apart than any interval in
   force, as many of them as the measure says, every message is sent, given up or timed out.
   */
  lemma QuietLineDrains(p: Proto, clock: Time, gap: nat, inputs: seq<Input>)
    requires Within(p, clock, gap) && QuietLine(clock, gap, inputs)
    requires |inputs| >= Measure(p)
    ensures Run(p, inputs).queue == []
  {
    hide Run, Measure, AlwaysDue, QuietLine, Within;
    QuietLineIsDue(p, clock, gap, inputs);
    QueueDrains(p, inputs);
  }
}
