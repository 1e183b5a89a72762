/**
 What the protocol does, read off its log alone. The rules here know no timers, flags, counters or
 queues: which request is next, how many attempts it has left, whether an answer is awaited and until
 when, how the message at hand came and which intervals are in force all follow from what has happened.
 */
module Conduct {
  import opened Bytes
  import opened FrameCodec
  import opened Protocol
  import opened Accounting
  import opened Timing

  // ----- What a log tells

  /** The requests that have been enqueued and have not ended, first come first. */
  function Open(log: seq<Event>): seq<Request> {
    if |EndedIn(log)| <= |EnqueuedIn(log)| then EnqueuedIn(log)[|EndedIn(log)|..] else []
  }

  /** Frames that have arrived and were neither handled nor passed over. */
  function Unhandled(log: seq<Event>): seq<Frame> {
    if log == [] then []
    else
      var e := log[|log| - 1];
      var waiting := Unhandled(log[..|log| - 1]);
      if e.Arrived? then waiting + e.frames
      else if e.MessageHandled? then []
      else if e.AnswerHandled? && waiting != [] then waiting[1..]
      else waiting
  }

  /** The write whose answer is awaited. */
  function Awaited(log: seq<Event>): (w: Option<Event>)
    ensures w.Some? ==> w.value.RequestWrite?
  {
    if log == [] then None
    else
      var e := log[|log| - 1];
      if e.RequestWrite? && e.ok && !e.request.noAnswer then Some(e)
      else if e.AnswerHandled? || e.WaitOver? then None
      else Awaited(log[..|log| - 1])
  }

  /** The last successful write of a request. */
  function LastWrite(log: seq<Event>, r: Request): (w: Option<Event>)
    ensures w.Some? ==> w.value.RequestWrite? && w.value.request == r
  {
    if log == [] then None
    else
      var e := log[|log| - 1];
      if e.RequestWrite? && e.ok && e.request == r then Some(e) else LastWrite(log[..|log| - 1], r)
  }

  /** The message whose handler is running. */
  function BeingHandled(log: seq<Event>): Option<Frame> {
    if log == [] then None
    else
      var e := log[|log| - 1];
      if e.MessageHandled? then Some(e.frame)
      else if e.HandlerDone? then None
      else BeingHandled(log[..|log| - 1])
  }

  /** Writing the message is taken for a success. */
  predicate Goes(m: Message, useCrc: bool) {
    |m.payload| <= 233 && |Encode(MakeFrame(m.frameType, m.payload, useCrc))| != 256
  }

  /** The message at hand counts as answered. */
  predicate IsAnswered(log: seq<Event>) {
    if log == [] then false
    else
      var front, e := log[..|log| - 1], log[|log| - 1];
      if e.MessageHandled? then false
      else if e.AnswerWrite? then Goes(e.answer, e.useCrc)
      else (e == Asked(NoAnswer) && BeingHandled(front).Some?) || IsAnswered(front)
  }

  function CooldownInForce(log: seq<Event>): int {
    if log == [] then 400
    else
      var e := log[|log| - 1];
      if e.Asked? && e.action.SetCooldownInterval? then e.action.milliseconds
      else CooldownInForce(log[..|log| - 1])
  }

  function TimeoutInForce(log: seq<Event>): int {
    if log == [] then 200
    else
      var e := log[|log| - 1];
      if e.Asked? && e.action.SetAnswerTimeout? then e.action.milliseconds
      else TimeoutInForce(log[..|log| - 1])
  }

  // ----- The rules

  /** What is enqueued for a send action. */
  function RequestFor(a: Action, id: nat): Option<Request> {
    match a
    case SendMessage(message, useCrc, repeats, interval) =>
      Some(Request(id, message, useCrc, false, if repeats < 9 then repeats as nat + 1 else 10, interval))
    case SendMessageWithoutAnswer(message, useCrc) => Some(Request(id, message, useCrc, true, 1, 0))
    case _ => None
  }

  /** An answer goes out as the message came, unless the handler chooses otherwise. */
  function AnswerFor(log: seq<Event>, a: Action): Option<Event> {
    if a.SendAnswer? && BeingHandled(log).Some? then
      var withCrc := if a.crc.Some? then a.crc.value else BeingHandled(log).value.useCrc;
      Some(AnswerWrite(a.answer, withCrc, a.clock, CooldownInForce(log)))
    else None
  }

  function AskLog(log: seq<Event>, a: Action): seq<Event> {
    var asked := log + [Asked(a)];
    if RequestFor(a, |EnqueuedIn(log)|).Some? then asked + [Enqueued(RequestFor(a, |EnqueuedIn(log)|).value)]
    else if AnswerFor(log, a).Some? then asked + [AnswerFor(log, a).value]
    else asked
  }

  function ScriptLog(log: seq<Event>, script: seq<Action>): seq<Event> {
    if script == [] then log else AskLog(ScriptLog(log, script[..|script| - 1]), script[|script| - 1])
  }

  /** Of several messages only the last is handled. */
  function MessageLog(log: seq<Event>, script: seq<Action>): seq<Event> {
    var waiting := Unhandled(log);
    if waiting == [] then log
    else
      var done := ScriptLog(log + [MessageHandled(waiting[|waiting| - 1])], script);
      done + [HandlerDone(IsAnswered(done))]
  }

  /** The cooldown is over, and the retry interval since the request was last written successfully. */
  predicate Due(log: seq<Event>, r: Request, now: Time) {
    && (CooldownEnd(log).Some? ==> now >= CooldownEnd(log).value)
    && (LastWrite(log, r).Some? ==> now >= LastWrite(log, r).value.loopTime + r.interval)
  }

  predicate HasAttempts(log: seq<Event>, r: Request) {
    WritesOf(log, r) < r.budget
  }

  function SendLog(log: seq<Event>, now: Time, writeClock: Time): seq<Event> {
    if Open(log) == [] || !Due(log, Open(log)[0], now) then log
    else
      var r := Open(log)[0];
      if !HasAttempts(log, r) then log + [Ended(r, GivenUp)]
      else
        var ok := Goes(r.message, r.useCrc);
        var sent := log + [RequestWrite(r, now, writeClock, CooldownInForce(log), TimeoutInForce(log), ok)];
        if ok && r.noAnswer then sent + [Ended(r, SentWithoutAnswer)] else sent
  }

  /** The wait is over; the request is too, if it has no attempts left. */
  function TimeoutLog(log: seq<Event>, r: Request, script: seq<Action>): seq<Event> {
    var over := log + [WaitOver(r)];
    if HasAttempts(log, r) then over
    else ScriptLog(over + [Ended(r, TimedOut)] + [TimeoutHandled(r, r.message.frameType)], script)
  }

  function AnswerLog(log: seq<Event>, r: Request, answer: Frame, script: seq<Action>): seq<Event> {
    ScriptLog(log + [AnswerHandled(r, r.message.frameType, answer)], script) + [Ended(r, Answered)]
  }

  /** One loop. An answer is awaited, or messages are handled and the next request is sent. */
  function LoopLog(log: seq<Event>, now: Time, writeClock: Time, script: seq<Action>): seq<Event> {
    match Awaited(log)
    case None => SendLog(MessageLog(log, script), now, writeClock)
    case Some(w) =>
      if now > w.loopTime + w.timeout then TimeoutLog(log, w.request, script)
      else if Unhandled(log) != [] then AnswerLog(log, w.request, Unhandled(log)[0], script)
      else log
  }

  function StepLog(log: seq<Event>, input: Input): seq<Event> {
    match input
    case Call(a) => AskLog(log, a)
    case Tick(arrived, now, writeClock, script) => LoopLog(log + [Arrived(arrived)], now, writeClock, script)
  }

  /** The log of a run. */
  function LogOf(inputs: seq<Input>): seq<Event> {
    if inputs == [] then [] else StepLog(LogOf(inputs[..|inputs| - 1]), inputs[|inputs| - 1])
  }
}
