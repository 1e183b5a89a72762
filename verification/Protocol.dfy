/**
 The request/answer protocol as a state machine: one step per call of loop, with whatever frames have
 arrived, whatever the clock shows and whatever the handler that runs decides to do. The log records
 what a step does; nothing in the protocol reads it.
 */
module Protocol {
  import opened Bytes
  import opened FrameCodec
  import opened Transport

  type Time = int

  const MAX_PACKET_RETRIES: nat := 9
  const DEFAULT_ANSWER_TIMEOUT: int := 200
  const DEFAULT_COOLDOWN_INTERVAL: int := 400
  const UNKNOWN_FRAME_TYPE: byte := 0

  /** A message as it goes into a frame: its type and its payload with the subcommand in front. */
  datatype Message = Message(frameType: byte, payload: seq<byte>)

  /** What was asked for, with the number of write attempts it is good for. */
  datatype Request = Request(id: nat, message: Message, useCrc: bool, noAnswer: bool, budget: nat, interval: int)

  datatype Item = Item(request: Request, retries: nat)

  datatype ProtocolState = IDLE | WAITING_FOR_ANSWER

  datatype Ending = Answered | TimedOut | SentWithoutAnswer | GivenUp

  datatype Event =
    | Arrived(frames: seq<Frame>)
    | Asked(action: Action)
    | Enqueued(request: Request)
    | RequestWrite(request: Request, loopTime: Time, writeTime: Time, cooldown: int, timeout: int, ok: bool)
    | AnswerWrite(answer: Message, useCrc: bool, writeTime: Time, cooldown: int)
    | MessageHandled(frame: Frame)
    | HandlerDone(answered: bool)
    | AnswerHandled(request: Request, requestType: byte, frame: Frame)
    | WaitOver(request: Request)
    | TimeoutHandled(request: Request, requestType: byte)
    | Ended(request: Request, ending: Ending)

  datatype Proto = Proto(
    state: ProtocolState,
    queue: seq<Item>,
    incoming: seq<Frame>,
    processing: bool,
    crcStatus: bool,
    answerSent: bool,
    lastType: byte,
    answerTimeout: int,
    cooldown: int,
    cooldownPoint: Time,
    answerPoint: Time,
    retryPoint: Time,
    nextId: nat,
    log: seq<Event>)

  /** What an application or one of its handlers can ask for; answers carry the clock of their write. */
  datatype Action =
    | SendMessage(message: Message, useCrc: bool, numRepeats: byte, interval: int)
    | SendMessageWithoutAnswer(message: Message, useCrc: bool)
    | SendAnswer(answer: Message, crc: Option<bool>, clock: Time)
    | NoAnswer
    | SetAnswerTimeout(milliseconds: int)
    | SetCooldownInterval(milliseconds: int)

  datatype Input =
    | Call(action: Action)
    | Tick(arrived: seq<Frame>, now: Time, writeClock: Time, script: seq<Action>)

  function Start(): Proto {
    Proto(IDLE, [], [], false, false, false, UNKNOWN_FRAME_TYPE, DEFAULT_ANSWER_TIMEOUT, DEFAULT_COOLDOWN_INTERVAL,
          0, 0, 0, 0, [])
  }

  // ----- Actions

  function Attempts(numRepeats: byte): nat {
    (if (numRepeats as nat) < MAX_PACKET_RETRIES then numRepeats as nat else MAX_PACKET_RETRIES) + 1
  }

  /** write_message_ counts a write as done unless send_data returns zero. */
  predicate WriteSucceeds(message: Message, useCrc: bool) {
    SendResult(message.frameType, message.payload, useCrc) > 0
  }

  function Enqueue(p: Proto, r: Request): Proto {
    p.(queue := p.queue + [Item(r, r.budget)], nextId := p.nextId + 1, log := p.log + [Enqueued(r)])
  }

  /** What an action does. */
  function Effect(p: Proto, a: Action): Proto {
    match a
    case SendMessage(message, useCrc, numRepeats, interval) =>
      Enqueue(p, Request(p.nextId, message, useCrc, false, Attempts(numRepeats), interval))
    case SendMessageWithoutAnswer(message, useCrc) =>
      Enqueue(p, Request(p.nextId, message, useCrc, true, 1, 0))
    case SendAnswer(answer, crc, clock) =>
      if !p.processing then p
      else
        var useCrc := if crc.Some? then crc.value else p.crcStatus;
        p.(answerSent := WriteSucceeds(answer, useCrc), cooldownPoint := clock + p.cooldown,
           log := p.log + [AnswerWrite(answer, useCrc, clock, p.cooldown)])
    case NoAnswer => if p.processing then p.(answerSent := true) else p
    case SetAnswerTimeout(ms) => p.(answerTimeout := ms)
    case SetCooldownInterval(ms) => p.(cooldown := ms)
  }

  /** Whatever is asked for is noted first. */
  function Perform(p: Proto, a: Action): Proto {
    Effect(Noted(p, Asked(a)), a)
  }

  function Noted(p: Proto, e: Event): Proto {
    p.(log := p.log + [e])
  }

  function PerformAll(p: Proto, script: seq<Action>): Proto {
    if script == [] then p
    else Perform(PerformAll(p, script[..|script| - 1]), script[|script| - 1])
  }

  // ----- One call of loop

  /** The message at the front of the queue is over. */
  function PopFront(p: Proto, ending: Ending): Proto
    requires p.queue != []
  {
    p.(queue := p.queue[1..], log := p.log + [Ended(p.queue[0].request, ending)])
  }

  /** Keeps only the last of several incoming messages and lets the message handler run on it. */
  function HandleIncoming(p: Proto, script: seq<Action>): Proto {
    if p.incoming == [] then p
    else
      var frame := p.incoming[|p.incoming| - 1];
      MessageDone(PerformAll(Handling(p, frame), script))
  }

  /** When the message handler is done, with or without an answer. */
  function MessageDone(p: Proto): Proto {
    Noted(p, HandlerDone(p.answerSent)).(processing := false)
  }

  /** When the message handler starts on a frame. */
  function Handling(p: Proto, frame: Frame): Proto {
    p.(incoming := [], crcStatus := frame.useCrc, processing := true, answerSent := false,
       log := p.log + [MessageHandled(frame)])
  }

  predicate ReadyToSend(p: Proto, now: Time) {
    p.queue != [] && now >= p.cooldownPoint && now >= p.retryPoint
  }

  /** Sends the front message, or gives it up when it has no attempts left. */
  function SendNext(p: Proto, now: Time, writeClock: Time): Proto {
    if !ReadyToSend(p, now) then p
    else
      var item := p.queue[0];
      if item.retries == 0 then PopFront(p, GivenUp).(retryPoint := now)
      else
        var ok := WriteSucceeds(item.request.message, item.request.useCrc);
        var w := WriteAttempt(p, now, writeClock);
        if ok && item.request.noAnswer then WithoutAnswerDone(w, now)
        else if ok then Awaiting(Attempted(w), now)
        else Attempted(w)
  }

  /** The front message is written; the cooldown starts whether that worked or not. */
  function WriteAttempt(p: Proto, now: Time, writeClock: Time): Proto
    requires p.queue != []
  {
    var r := p.queue[0].request;
    var e := RequestWrite(r, now, writeClock, p.cooldown, p.answerTimeout, WriteSucceeds(r.message, r.useCrc));
    p.(cooldownPoint := writeClock + p.cooldown, log := p.log + [e])
  }

  /** One attempt less. */
  function Attempted(p: Proto): Proto
    requires p.queue != [] && p.queue[0].retries > 0
  {
    p.(queue := [Item(p.queue[0].request, p.queue[0].retries - 1)] + p.queue[1..])
  }

  /** Written and no answer expected: that was it. */
  function WithoutAnswerDone(p: Proto, now: Time): Proto
    requires p.queue != []
  {
    PopFront(p.(lastType := p.queue[0].request.message.frameType), SentWithoutAnswer).(retryPoint := now)
  }

  /** Written and an answer expected. */
  function Awaiting(p: Proto, now: Time): Proto
    requires p.queue != []
  {
    p.(lastType := p.queue[0].request.message.frameType, state := WAITING_FOR_ANSWER,
       answerPoint := now + p.answerTimeout, retryPoint := now + p.queue[0].request.interval)
  }

  /** No answer in time: back to idle, for good if no attempt is left. */
  function HandleTimeout(p: Proto, now: Time, script: seq<Action>): Proto
    requires p.queue != []
  {
    var q := Noted(p, WaitOver(p.queue[0].request));
    if p.queue[0].retries == 0 then PerformAll(TimingOut(q, now), script).(state := IDLE)
    else q.(state := IDLE)
  }

  /** When the timeout handler starts: the message is gone already. */
  function TimingOut(p: Proto, now: Time): Proto
    requires p.queue != []
  {
    var q := PopFront(p, TimedOut);
    q.(retryPoint := now, log := q.log + [TimeoutHandled(p.queue[0].request, p.lastType)])
  }

  /** An answer: the answer handler runs, then the request is over. */
  function HandleAnswer(p: Proto, now: Time, script: seq<Action>): Proto
    requires p.queue != [] && p.incoming != []
  {
    QueueGrows(Answering(p), script);
    AnswerDone(PerformAll(Answering(p), script), now)
  }

  /** When the answer handler starts. */
  function Answering(p: Proto): Proto
    requires p.queue != [] && p.incoming != []
  {
    p.(incoming := p.incoming[1..], log := p.log + [AnswerHandled(p.queue[0].request, p.lastType, p.incoming[0])])
  }

  /** When the answer handler is done. */
  function AnswerDone(p: Proto, now: Time): Proto
    requires p.queue != []
  {
    PopFront(p, Answered).(retryPoint := now, state := IDLE)
  }

  /** Handlers only append to the queue. */
  lemma {:induction false} QueueGrows(p: Proto, script: seq<Action>)
    ensures p.queue <= PerformAll(p, script).queue
  {
    if script != [] {
      QueueGrows(p, script[..|script| - 1]);
    }
  }

  /** What a handler leaves alone: frames to come, how the message came, and when things are due. */
  lemma {:induction false} ScriptKeepsStatus(p: Proto, script: seq<Action>)
    ensures var q := PerformAll(p, script);
            && q.incoming == p.incoming && q.crcStatus == p.crcStatus && q.processing == p.processing
            && q.state == p.state && q.retryPoint == p.retryPoint && q.answerPoint == p.answerPoint && p.log <= q.log
  {
    hide Perform;
    if script != [] {
      ScriptKeepsStatus(p, script[..|script| - 1]);
      PerformKeepsStatus(PerformAll(p, script[..|script| - 1]), script[|script| - 1]);
    }
  }

  lemma PerformKeepsStatus(p: Proto, a: Action)
    ensures var q := Perform(p, a);
            && q.incoming == p.incoming && q.crcStatus == p.crcStatus && q.processing == p.processing
            && q.state == p.state && q.retryPoint == p.retryPoint && q.answerPoint == p.answerPoint && p.log <= q.log
  {
    hide WriteSucceeds;
  }

  function Loop(p: Proto, now: Time, writeClock: Time, script: seq<Action>): Proto {
    match p.state
    case IDLE => SendNext(HandleIncoming(p, script), now, writeClock)
    case WAITING_FOR_ANSWER =>
      if p.queue == [] then p
      else if now > p.answerPoint then HandleTimeout(p, now, script)
      else if p.incoming != [] then HandleAnswer(p, now, script)
      else p
  }

  /** The receiver delivers frames, at the start of a call of loop. */
  function Arrive(p: Proto, frames: seq<Frame>): Proto {
    p.(incoming := p.incoming + frames, log := p.log + [Arrived(frames)])
  }

  function Step(p: Proto, input: Input): Proto {
    match input
    case Call(a) => Perform(p, a)
    case Tick(arrived, now, writeClock, script) => Loop(Arrive(p, arrived), now, writeClock, script)
  }

  function Run(p: Proto, inputs: seq<Input>): Proto {
    if inputs == [] then p else Step(Run(p, inputs[..|inputs| - 1]), inputs[|inputs| - 1])
  }

  // ----- The clock

  /** The clock after the answers of a script. */
  function ScriptClock(clock: Time, script: seq<Action>): Time {
    if script == [] then clock
    else
      var a := script[|script| - 1];
      if a.SendAnswer? then a.clock else ScriptClock(clock, script[..|script| - 1])
  }

  predicate ScriptMonotone(clock: Time, script: seq<Action>) {
    script != [] ==>
      && ScriptMonotone(clock, script[..|script| - 1])
      && (script[|script| - 1].SendAnswer? ==> ScriptClock(clock, script[..|script| - 1]) <= script[|script| - 1].clock)
  }

  function ClockAfter(clock: Time, inputs: seq<Input>): Time {
    if inputs == [] then clock
    else
      var i := inputs[|inputs| - 1];
      if i.Tick? then i.writeClock else ClockAfter(clock, inputs[..|inputs| - 1])
  }

  predicate InputMonotone(clock: Time, input: Input) {
    input.Tick? ==>
      && clock <= input.now && ScriptMonotone(input.now, input.script)
      && ScriptClock(input.now, input.script) <= input.writeClock
  }

  /** All clock readings of a run, in the order they are taken, never go back. */
  predicate MonotoneRun(clock: Time, inputs: seq<Input>) {
    inputs != [] ==>
      && MonotoneRun(clock, inputs[..|inputs| - 1])
      && InputMonotone(ClockAfter(clock, inputs[..|inputs| - 1]), inputs[|inputs| - 1])
  }
}
