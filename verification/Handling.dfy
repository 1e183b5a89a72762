/**
 What becomes of the frames that arrive and of what is asked for, over every run: which frames are
 handled, which handlers run, and that requests and answers are exactly those asked for.
 */
module Handling {
  import opened Bytes
  import opened FrameCodec
  import opened Protocol
  import opened Accounting
  import opened ProtocolLaws
  import opened Timing
  import opened Provenance
  import opened Conduct
  import opened Conformance

  // ----- More readings of a log

  function ActionsIn(log: seq<Event>): seq<Action> {
    if log == [] then []
    else
      var e := log[|log| - 1];
      ActionsIn(log[..|log| - 1]) + if e.Asked? then [e.action] else []
  }

  datatype Reply = Reply(answer: Message, useCrc: bool, clock: Time)

  function RepliesIn(log: seq<Event>): seq<Reply> {
    if log == [] then []
    else
      var e := log[|log| - 1];
      RepliesIn(log[..|log| - 1]) + if e.AnswerWrite? then [Reply(e.answer, e.useCrc, e.writeTime)] else []
  }

  /** Frames that gave way to a later one. */
  function PassedOver(log: seq<Event>): seq<Frame> {
    if log == [] then []
    else
      var front, e := log[..|log| - 1], log[|log| - 1];
      var waiting := Unhandled(front);
      PassedOver(front) + if e.MessageHandled? && waiting != [] then waiting[..|waiting| - 1] else []
  }

  function ArrivedIn(log: seq<Event>): seq<Frame> {
    if log == [] then []
    else
      var e := log[|log| - 1];
      ArrivedIn(log[..|log| - 1]) + if e.Arrived? then e.frames else []
  }

  /** Messages are handled last first, answers first first. */
  predicate HandledNow(front: seq<Event>, e: Event) {
    && (e.MessageHandled? ==> Unhandled(front) != [] && e.frame == Unhandled(front)[|Unhandled(front)| - 1])
    && (e.AnswerHandled? ==> Unhandled(front) != [] && e.frame == Unhandled(front)[0])
  }

  predicate Orderly(log: seq<Event>) {
    log != [] ==> Orderly(log[..|log| - 1]) && HandledNow(log[..|log| - 1], log[|log| - 1])
  }

  /** An answer goes out right when its action is performed, while a message is handled. */
  predicate JustifiedNow(front: seq<Event>, e: Event) {
    e.AnswerWrite? ==>
      && front != [] && front[|front| - 1].Asked?
      && AnswerFor(front[..|front| - 1], front[|front| - 1].action) == Some(e)
  }

  predicate Justified(log: seq<Event>) {
    log != [] ==> Justified(log[..|log| - 1]) && JustifiedNow(log[..|log| - 1], log[|log| - 1])
  }

  // ----- What was asked for

  /** The requests that go with a sequence of actions. */
  function RequestsFor(actions: seq<Action>): seq<Request> {
    if actions == [] then []
    else
      var before := RequestsFor(actions[..|actions| - 1]);
      var r := RequestFor(actions[|actions| - 1], |before|);
      before + if r.Some? then [r.value] else []
  }

  /** The answers that go with a handler's script for a message that came with or without CRC. */
  function RepliesFor(script: seq<Action>, withCrc: bool): seq<Reply> {
    if script == [] then []
    else
      var a := script[|script| - 1];
      RepliesFor(script[..|script| - 1], withCrc)
      + if a.SendAnswer? then [Reply(a.answer, if a.crc.Some? then a.crc.value else withCrc, a.clock)] else []
  }

  // ----- One more event, and events that only write

  lemma ReadingsSnoc(log: seq<Event>, e: Event)
    ensures ActionsIn(log + [e]) == if e.Asked? then ActionsIn(log) + [e.action] else ActionsIn(log)
    ensures RepliesIn(log + [e])
         == if e.AnswerWrite? then RepliesIn(log) + [Reply(e.answer, e.useCrc, e.writeTime)] else RepliesIn(log)
    ensures ArrivedIn(log + [e]) == if e.Arrived? then ArrivedIn(log) + e.frames else ArrivedIn(log)
    ensures EnqueuedIn(log + [e]) == if e.Enqueued? then EnqueuedIn(log) + [e.request] else EnqueuedIn(log)
    ensures Orderly(log + [e]) <==> Orderly(log) && HandledNow(log, e)
    ensures Justified(log + [e]) <==> Justified(log) && JustifiedNow(log, e)
    ensures PassedOver(log + [e])
         == if e.MessageHandled? && Unhandled(log) != [] then PassedOver(log) + Unhandled(log)[..|Unhandled(log)| - 1]
            else PassedOver(log)
  {
    Snoc(log, e);
  }

  /** Neither asks for anything, nor enqueues, answers, handles or brings anything. */
  predicate Mute(e: Event) {
    e.RequestWrite? || e.Ended? || e.WaitOver? || e.HandlerDone? || e.TimeoutHandled?
  }

  lemma MuteSnoc(log: seq<Event>, e: Event)
    requires Mute(e)
    ensures ActionsIn(log + [e]) == ActionsIn(log) && RepliesIn(log + [e]) == RepliesIn(log)
    ensures ArrivedIn(log + [e]) == ArrivedIn(log) && EnqueuedIn(log + [e]) == EnqueuedIn(log)
    ensures Orderly(log + [e]) == Orderly(log) && PassedOver(log + [e]) == PassedOver(log)
    ensures Justified(log + [e]) == Justified(log)
    ensures HandledIn(log + [e]) == HandledIn(log) && Unhandled(log + [e]) == Unhandled(log)
  {
    ReadingsSnoc(log, e);
    HandledSnoc(log, e);
    ShadowSnoc(log, e);
  }

  // ----- Scripts

  lemma AskReadings(log: seq<Event>, a: Action)
    ensures var next := AskLog(log, a);
            && log <= next && ActionsIn(next) == ActionsIn(log) + [a]
            && HandledIn(next) == HandledIn(log) && Unhandled(next) == Unhandled(log)
            && ArrivedIn(next) == ArrivedIn(log) && PassedOver(next) == PassedOver(log)
            && (Orderly(log) ==> Orderly(next)) && BeingHandled(next) == BeingHandled(log)
            && (Justified(log) ==> Justified(next))
            && EnqueuedIn(next)
               == EnqueuedIn(log) + (if RequestFor(a, |EnqueuedIn(log)|).Some?
                                     then [RequestFor(a, |EnqueuedIn(log)|).value] else [])
            && RepliesIn(next)
               == RepliesIn(log) + (if BeingHandled(log).Some?
                                    then RepliesFor([a], BeingHandled(log).value.useCrc) else [])
  {
    hide ActionsIn, RepliesIn, ArrivedIn, EnqueuedIn, Orderly, Justified, PassedOver, HandledIn, Unhandled;
    hide BeingHandled;
    hide CooldownInForce;
    Snoc(log, Asked(a));
    ReplyOfOne(a, BeingHandled(log).Some? && BeingHandled(log).value.useCrc);
    var asked := log + [Asked(a)];
    ReadingsSnoc(log, Asked(a));
    HandledSnoc(log, Asked(a));
    ShadowSnoc(log, Asked(a));
    if RequestFor(a, |EnqueuedIn(log)|).Some? {
      var e := Enqueued(RequestFor(a, |EnqueuedIn(log)|).value);
      ReadingsSnoc(asked, e);
      HandledSnoc(asked, e);
      ShadowSnoc(asked, e);
    } else if AnswerFor(log, a).Some? {
      var e := AnswerFor(log, a).value;
      ReadingsSnoc(asked, e);
      HandledSnoc(asked, e);
      ShadowSnoc(asked, e);
    }
  }

  lemma ReplyOfOne(a: Action, withCrc: bool)
    ensures RepliesFor([a], withCrc)
         == if a.SendAnswer? then [Reply(a.answer, if a.crc.Some? then a.crc.value else withCrc, a.clock)] else []
  {
    assert [a][..0] == [];
  }

  /** Every request in the log goes with an action in the log, in order, and so does every answer. */
  predicate AsAsked(log: seq<Event>) {
    EnqueuedIn(log) == RequestsFor(ActionsIn(log)) && Justified(log)
  }

  lemma AskKeepsAsAsked(log: seq<Event>, a: Action)
    requires AsAsked(log)
    ensures AsAsked(AskLog(log, a))
  {
    hide ActionsIn, EnqueuedIn, Justified, AskLog;
    AskReadings(log, a);
    Snoc(ActionsIn(log), a);
  }

  lemma {:induction false} ScriptReadings(log: seq<Event>, script: seq<Action>)
    ensures var next := ScriptLog(log, script);
            && log <= next && ActionsIn(next) == ActionsIn(log) + script
            && HandledIn(next) == HandledIn(log) && Unhandled(next) == Unhandled(log)
            && ArrivedIn(next) == ArrivedIn(log) && PassedOver(next) == PassedOver(log)
            && (Orderly(log) ==> Orderly(next)) && (AsAsked(log) ==> AsAsked(next))
            && BeingHandled(next) == BeingHandled(log)
            && RepliesIn(next)
               == RepliesIn(log)
                  + (if BeingHandled(log).Some? then RepliesFor(script, BeingHandled(log).value.useCrc) else [])
  {
    hide ActionsIn, RepliesIn, ArrivedIn, EnqueuedIn, Orderly, Justified, PassedOver, HandledIn, Unhandled;
    hide BeingHandled;
    hide AskLog, AsAsked;
    if script == [] {
      assert ActionsIn(log) + [] == ActionsIn(log) && RepliesIn(log) + [] == RepliesIn(log);
    } else {
      var front, a := script[..|script| - 1], script[|script| - 1];
      ScriptReadings(log, front);
      var before := ScriptLog(log, front);
      AskReadings(before, a);
      if AsAsked(before) {
        AskKeepsAsAsked(before, a);
      }
      assert script == front + [a];
      assert ActionsIn(log) + front + [a] == ActionsIn(log) + script;
      ReplyOfOne(a, BeingHandled(log).Some? && BeingHandled(log).value.useCrc);
    }
  }

  // ----- What a step does, told from the log before it and its input

  /** The frames there to be handled in a loop. */
  function There(log: seq<Event>, input: Input): seq<Frame>
    requires input.Tick?
  {
    Unhandled(log) + input.arrived
  }

  /** The message a loop hands to the message handler: the last one there, if no answer is awaited. */
  function MessageOf(log: seq<Event>, input: Input): Option<Frame> {
    if input.Tick? && Awaited(log) == None && There(log, input) != [] then
      Some(There(log, input)[|There(log, input)| - 1])
    else None
  }

  /** A loop finds the wait for an answer over. */
  predicate Late(log: seq<Event>, input: Input) {
    input.Tick? && Awaited(log).Some? && input.now > Awaited(log).value.loopTime + Awaited(log).value.timeout
  }

  /** The frame a loop hands to the answer handler: the first one there, if it comes in time. */
  function AnswerOf(log: seq<Event>, input: Input): Option<Frame> {
    if input.Tick? && Awaited(log).Some? && !Late(log, input) && There(log, input) != [] then
      Some(There(log, input)[0])
    else None
  }

  /** What is asked for in a step: the call itself, or whatever the handler that runs asks for. */
  function Performed(log: seq<Event>, input: Input): seq<Action> {
    match input
    case Call(a) => [a]
    case Tick(_, _, _, script) =>
      if || MessageOf(log, input).Some? || AnswerOf(log, input).Some?
         || (Late(log, input) && !HasAttempts(log, Awaited(log).value.request))
      then script else []
  }

  /** The answers written in a step. */
  function Replies(log: seq<Event>, input: Input): seq<Reply> {
    if MessageOf(log, input).Some? then RepliesFor(input.script, MessageOf(log, input).value.useCrc) else []
  }

  /** What the step leaves to be read. */
  predicate StepReads(log: seq<Event>, input: Input, next: seq<Event>) {
    && log <= next
    && ActionsIn(next) == ActionsIn(log) + Performed(log, input)
    && RepliesIn(next) == RepliesIn(log) + Replies(log, input)
    && HandledIn(next)
       == HandledIn(log) + (if MessageOf(log, input).Some? then [MessageOf(log, input).value]
                            else if AnswerOf(log, input).Some? then [AnswerOf(log, input).value] else [])
    && ArrivedIn(next) == ArrivedIn(log) + (if input.Tick? then input.arrived else [])
    && (Orderly(log) ==> Orderly(next)) && (AsAsked(log) ==> AsAsked(next))
  }

  lemma CallReads(p: Proto, a: Action)
    requires Reflected(p)
    ensures StepReads(p.log, Call(a), Perform(p, a).log)
  {
    hide ActionsIn, RepliesIn, ArrivedIn, EnqueuedIn, Orderly, Justified, PassedOver, HandledIn, Sound, AnswerTold;
    hide AskLog, AsAsked;
    hide Unhandled, BeingHandled, IsAnswered, CooldownInForce, TimeoutInForce, Perform, CooldownEnd;
    NotHandling(p);
    CallReflected(p, a);
    AskReadings(p.log, a);
    if AsAsked(p.log) {
      AskKeepsAsAsked(p.log, a);
    }
  }

  lemma NotHandling(p: Proto)
    requires Reflected(p)
    ensures BeingHandled(p.log) == None && p.incoming == Unhandled(p.log)
    ensures p.state == IDLE <==> Awaited(p.log) == None
  {
    hide Books, WaitingSound, Unhandled, BeingHandled, IsAnswered, CooldownInForce, TimeoutInForce, CooldownEnd;
    hide LastWrite, Awaited;
  }

  /** The same readings of a loop once its frames have arrived. */
  predicate LoopReads(log: seq<Event>, asked: seq<Action>, replies: seq<Reply>, handled: seq<Frame>, next: seq<Event>) {
    && log <= next && ActionsIn(next) == ActionsIn(log) + asked && RepliesIn(next) == RepliesIn(log) + replies
    && HandledIn(next) == HandledIn(log) + handled && ArrivedIn(next) == ArrivedIn(log)
    && (Orderly(log) ==> Orderly(next)) && (AsAsked(log) ==> AsAsked(next))
  }

  lemma MuteLoop(log: seq<Event>, asked: seq<Action>, replies: seq<Reply>, handled: seq<Frame>, next: seq<Event>,
                 e: Event)
    requires LoopReads(log, asked, replies, handled, next) && Mute(e)
    ensures LoopReads(log, asked, replies, handled, next + [e])
  {
    hide ActionsIn, RepliesIn, ArrivedIn, EnqueuedIn, Orderly, Justified, HandledIn;
    MuteSnoc(next, e);
  }

  lemma ThenNothing(log: seq<Event>, asked: seq<Action>, replies: seq<Reply>, handled: seq<Frame>,
                    mid: seq<Event>, next: seq<Event>)
    requires LoopReads(log, asked, replies, handled, mid) && LoopReads(mid, [], [], [], next)
    ensures LoopReads(log, asked, replies, handled, next)
  {
    hide ActionsIn, RepliesIn, ArrivedIn, AsAsked, Orderly, HandledIn;
  }

  /** Sending only adds writes and endings. */
  lemma SendReads(p: Proto, now: Time, writeClock: Time)
    ensures LoopReads(p.log, [], [], [], SendNext(p, now, writeClock).log)
  {
    hide LoopReads, WriteSucceeds;
    NothingRead(p.log);
    if ReadyToSend(p, now) {
      var r := p.queue[0].request;
      MuteLoop(p.log, [], [], [], p.log, Ended(r, GivenUp));
      var ok := WriteSucceeds(r.message, r.useCrc);
      var e := RequestWrite(r, now, writeClock, p.cooldown, p.answerTimeout, ok);
      MuteLoop(p.log, [], [], [], p.log, e);
      MuteLoop(p.log, [], [], [], p.log + [e], Ended(r, SentWithoutAnswer));
    }
  }

  lemma NothingRead(log: seq<Event>)
    ensures LoopReads(log, [], [], [], log)
  {
    hide ActionsIn, RepliesIn, ArrivedIn, AsAsked, Orderly, HandledIn;
    assert ActionsIn(log) + [] == ActionsIn(log) && RepliesIn(log) + [] == RepliesIn(log);
    assert HandledIn(log) + [] == HandledIn(log);
  }

  /** A handler runs on a frame, or on none, and asks for what its script says. */
  lemma HandlerReads(log: seq<Event>, e: Event, script: seq<Action>)
    requires e.MessageHandled? || e.AnswerHandled? ==> HandledNow(log, e)
    requires e.MessageHandled? || (BeingHandled(log) == None && (e.AnswerHandled? || Mute(e)))
    ensures LoopReads(log, script, if e.MessageHandled? then RepliesFor(script, e.frame.useCrc) else [],
                      if e.MessageHandled? || e.AnswerHandled? then [e.frame] else [], ScriptLog(log + [e], script))
  {
    hide ActionsIn, RepliesIn, ArrivedIn, EnqueuedIn, Orderly, Justified, PassedOver, HandledIn, Unhandled;
    hide BeingHandled, ScriptLog;
    hide IsAnswered, CooldownInForce, TimeoutInForce, CooldownEnd;
    ReadingsSnoc(log, e);
    HandledSnoc(log, e);
    ShadowSnoc(log, e);
    ScriptReadings(log + [e], script);
    assert HandledIn(log) + [] == HandledIn(log) && RepliesIn(log) + [] == RepliesIn(log);
  }

  lemma MessageReads(log: seq<Event>, script: seq<Action>)
    ensures var waiting := Unhandled(log);
            if waiting == [] then LoopReads(log, [], [], [], MessageLog(log, script))
            else
              var f := waiting[|waiting| - 1];
              LoopReads(log, script, RepliesFor(script, f.useCrc), [f], MessageLog(log, script))
  {
    hide ActionsIn, RepliesIn, ArrivedIn, EnqueuedIn, Orderly, Justified, HandledIn, Unhandled, ScriptLog, LoopReads;
    var waiting := Unhandled(log);
    if waiting == [] {
      NothingRead(log);
    } else {
      var f := waiting[|waiting| - 1];
      HandlerReads(log, MessageHandled(f), script);
      var done := ScriptLog(log + [MessageHandled(f)], script);
      MuteLoop(log, script, RepliesFor(script, f.useCrc), [f], done, HandlerDone(IsAnswered(done)));
    }
  }

  lemma TimeoutReads(log: seq<Event>, r: Request, script: seq<Action>)
    requires BeingHandled(log) == None
    ensures LoopReads(log, if HasAttempts(log, r) then [] else script, [], [], TimeoutLog(log, r, script))
  {
    hide ActionsIn, RepliesIn, ArrivedIn, EnqueuedIn, Orderly, Justified, HandledIn, Unhandled, BeingHandled, ScriptLog;
    hide HasAttempts;
    hide IsAnswered, CooldownInForce, TimeoutInForce, CooldownEnd;
    var over := log + [WaitOver(r)];
    NothingRead(log);
    MuteLoop(log, [], [], [], log, WaitOver(r));
    if !HasAttempts(log, r) {
      MuteLoop(log, [], [], [], over, Ended(r, TimedOut));
      ShadowSnoc(log, WaitOver(r));
      ShadowSnoc(over, Ended(r, TimedOut));
      HandlerReads(over + [Ended(r, TimedOut)], TimeoutHandled(r, r.message.frameType), script);
      assert ActionsIn(log) + [] == ActionsIn(log) && RepliesIn(log) + [] == RepliesIn(log);
      assert HandledIn(log) + [] == HandledIn(log);
    }
  }

  lemma AnswerReads(log: seq<Event>, r: Request, script: seq<Action>)
    requires BeingHandled(log) == None && Unhandled(log) != []
    ensures LoopReads(log, script, [], [Unhandled(log)[0]], AnswerLog(log, r, Unhandled(log)[0], script))
  {
    hide ActionsIn, RepliesIn, ArrivedIn, EnqueuedIn, Orderly, Justified, HandledIn, Unhandled, BeingHandled, ScriptLog;
    hide LoopReads;
    var f := Unhandled(log)[0];
    var e := AnswerHandled(r, r.message.frameType, f);
    HandlerReads(log, e, script);
    MuteLoop(log, script, [], [f], ScriptLog(log + [e], script), Ended(r, Answered));
  }

  /** What arrives in a loop. */
  lemma ArriveReads(log: seq<Event>, frames: seq<Frame>)
    ensures var next := log + [Arrived(frames)];
            && ActionsIn(next) == ActionsIn(log) && RepliesIn(next) == RepliesIn(log)
            && HandledIn(next) == HandledIn(log) && ArrivedIn(next) == ArrivedIn(log) + frames
            && Orderly(next) == Orderly(log) && AsAsked(next) == AsAsked(log)
            && Unhandled(next) == Unhandled(log) + frames && Awaited(next) == Awaited(log)
            && (forall r :: HasAttempts(next, r) == HasAttempts(log, r))
  {
    hide ActionsIn, RepliesIn, ArrivedIn, EnqueuedIn, Orderly, Justified, HandledIn, Unhandled, BeingHandled, WritesOf;
    hide Awaited;
    hide IsAnswered, CooldownInForce, TimeoutInForce, CooldownEnd, LastWrite;
    var e := Arrived(frames);
    ReadingsSnoc(log, e);
    HandledSnoc(log, e);
    ShadowSnoc(log, e);
    WritesSnoc(log, e, Request(0, Message(0, []), false, false, 0, 0));
    forall r ensures HasAttempts(log + [e], r) == HasAttempts(log, r) {
      LogSnoc(log, e, r);
    }
  }

  /** A loop's readings with the frames that arrive in it. */
  lemma LoopIsStep(log: seq<Event>, input: Input, next: seq<Event>)
    requires input.Tick?
    requires LoopReads(log + [Arrived(input.arrived)], Performed(log, input), Replies(log, input),
                       if MessageOf(log, input).Some? then [MessageOf(log, input).value]
                       else if AnswerOf(log, input).Some? then [AnswerOf(log, input).value] else [], next)
    ensures StepReads(log, input, next)
  {
    hide ActionsIn, RepliesIn, ArrivedIn, AsAsked, Orderly, HandledIn, MessageOf, AnswerOf, Performed, Replies;
    ArriveReads(log, input.arrived);
  }

  /** One loop. */
  lemma TickReads(p: Proto, input: Input)
    requires Reflected(p) && input.Tick?
    ensures StepReads(p.log, input, Step(p, input).log)
    ensures MessageOf(p.log, input).Some? ==>
              var log := p.log + [Arrived(input.arrived)];
              log + [MessageHandled(MessageOf(p.log, input).value)] <= MessageLog(log, input.script)
              <= Step(p, input).log
  {
    hide LoopReads, StepReads, Unhandled, Sound, Shadow, AnswerTold, Awaited, Loop, MessageLog, HasAttempts;
    hide ActionsIn, RepliesIn, ArrivedIn, AsAsked, Orderly, HandledIn;
    var q := Arrive(p, input.arrived);
    ArriveReads(p.log, input.arrived);
    ArriveReflected(p, input.arrived);
    NotHandling(p);
    NotHandling(q);
    if q.state == IDLE {
      IdleReads(q, input.now, input.writeClock, input.script);
    } else {
      WaitingReads(q, input.now, input.writeClock, input.script);
    }
    LoopIsStep(p.log, input, Step(p, input).log);
  }

  lemma ReadsGrow(log: seq<Event>, asked: seq<Action>, replies: seq<Reply>, handled: seq<Frame>, next: seq<Event>)
    requires LoopReads(log, asked, replies, handled, next)
    ensures log <= next
  {
  }

  lemma ScriptGrows(log: seq<Event>, script: seq<Action>)
    ensures log <= ScriptLog(log, script)
  {
    hide ScriptLog;
    ScriptReadings(log, script);
  }

  lemma IdleReads(q: Proto, now: Time, writeClock: Time, script: seq<Action>)
    requires Reflected(q) && q.state == IDLE
    ensures var next := Loop(q, now, writeClock, script).log;
            var waiting := Unhandled(q.log);
            && MessageLog(q.log, script) <= next
            && (if waiting == [] then LoopReads(q.log, [], [], [], next)
                else
                  var f := waiting[|waiting| - 1];
                  && q.log + [MessageHandled(f)] <= MessageLog(q.log, script)
                  && LoopReads(q.log, script, RepliesFor(script, f.useCrc), [f], next))
  {
    hide LoopReads, Unhandled, Books, Shadow, AnswerTold, HandleIncoming, SendNext, ScriptLog;
    var mid, next := MessageLog(q.log, script), Loop(q, now, writeClock, script).log;
    MessageShadow(q, script);
    MessageReads(q.log, script);
    SendReads(HandleIncoming(q, script), now, writeClock);
    assert mid <= next by { ReadsGrow(mid, [], [], [], next); }
    if Unhandled(q.log) == [] {
      ThenNothing(q.log, [], [], [], mid, next);
    } else {
      var f := Unhandled(q.log)[|Unhandled(q.log)| - 1];
      ThenNothing(q.log, script, RepliesFor(script, f.useCrc), [f], mid, next);
      ScriptGrows(q.log + [MessageHandled(f)], script);
    }
  }

  lemma WaitingReads(q: Proto, now: Time, writeClock: Time, script: seq<Action>)
    requires Reflected(q) && q.state == WAITING_FOR_ANSWER
    ensures Awaited(q.log).Some?
    ensures var next, w := Loop(q, now, writeClock, script).log, Awaited(q.log).value;
            if now > w.loopTime + w.timeout then
              LoopReads(q.log, if HasAttempts(q.log, w.request) then [] else script, [], [], next)
            else if Unhandled(q.log) != [] then LoopReads(q.log, script, [], [Unhandled(q.log)[0]], next)
            else LoopReads(q.log, [], [], [], next)
  {
    hide ActionsIn, RepliesIn, ArrivedIn, EnqueuedIn, Orderly, Justified, HandledIn, Unhandled, AsAsked, Books;
    hide LastWrite, Awaited;
    hide HandleTimeout, HandleAnswer, TimeoutLog, AnswerLog, HasAttempts, LoopReads, BeingHandled;
    hide IsAnswered, CooldownInForce, TimeoutInForce, CooldownEnd;
    NotHandling(q);
    if now > q.answerPoint {
      TimeoutShadow(q, now, script);
      TimeoutReads(q.log, q.queue[0].request, script);
    } else if q.incoming != [] {
      AnswerShadow(q, now, script);
      AnswerReads(q.log, q.queue[0].request, script);
    } else {
      NothingRead(q.log);
    }
  }

  // ----- Over every run

  /** What was asked for in a run: calls, and the scripts of the handlers that ran. */
  function PerformedIn(inputs: seq<Input>): seq<Action> {
    if inputs == [] then []
    else
      var front := inputs[..|inputs| - 1];
      PerformedIn(front) + Performed(Run(Start(), front).log, inputs[|inputs| - 1])
  }

  /** The answers a run gives to the messages it handles. */
  function RepliesOf(inputs: seq<Input>): seq<Reply> {
    if inputs == [] then []
    else
      var front := inputs[..|inputs| - 1];
      RepliesOf(front) + Replies(Run(Start(), front).log, inputs[|inputs| - 1])
  }

  lemma StepReadings(p: Proto, input: Input)
    requires Reflected(p)
    ensures StepReads(p.log, input, Step(p, input).log)
  {
    hide StepReads, Reflected, Perform, Loop;
    match input
    case Call(a) => CallReads(p, a);
    case Tick(_, _, _, _) => TickReads(p, input);
  }

  lemma {:induction false} RunReads(inputs: seq<Input>)
    ensures var log := Run(Start(), inputs).log;
            && ActionsIn(log) == PerformedIn(inputs) && RepliesIn(log) == RepliesOf(inputs)
            && ArrivedIn(log) == Received(inputs) && Orderly(log) && AsAsked(log)
  {
    hide ActionsIn, RepliesIn, ArrivedIn, Orderly, AsAsked, HandledIn, Step, Reflected, Performed, Replies;
    if inputs == [] {
      StartReads();
    } else {
      var front := inputs[..|inputs| - 1];
      RunReads(front);
      RunReflected(front);
      StepReadings(Run(Start(), front), inputs[|inputs| - 1]);
    }
  }

  lemma StartReads()
    ensures ActionsIn([]) == [] && RepliesIn([]) == [] && ArrivedIn([]) == [] && Orderly([]) && AsAsked([])
    ensures Start().log == []
  {
  }

  /**
   Over every run the requests enqueued are, one for one and in order, those asked for by calls and by
   the handlers that ran: with that message, CRC choice and interval, one attempt without answer, and
   otherwise one more than the repeats asked for, but at most ten.
   */
  lemma RequestsAsAsked(inputs: seq<Input>)
    ensures EnqueuedIn(Run(Start(), inputs).log) == RequestsFor(PerformedIn(inputs))
  {
    hide Run, ActionsIn, RepliesIn, ArrivedIn, Orderly, EnqueuedIn, Justified, PerformedIn, RepliesOf, Received;
    RunReads(inputs);
  }

  /**
   Over every run the answers written are, one for one and in order, those asked for by the handlers of
   the messages handled: each with the CRC choice made, or else as its message came.
   */
  lemma AnswersAsAsked(inputs: seq<Input>)
    ensures RepliesIn(Run(Start(), inputs).log) == RepliesOf(inputs)
  {
    hide Run, ActionsIn, RepliesIn, ArrivedIn, Orderly, AsAsked, PerformedIn, RepliesOf, Received;
    RunReads(inputs);
  }

  lemma {:induction false} JustifiedAt(log: seq<Event>, j: nat)
    requires Justified(log) && j < |log|
    ensures JustifiedNow(log[..j], log[j])
  {
    hide JustifiedNow;
    var front := log[..|log| - 1];
    if j < |front| {
      JustifiedAt(front, j);
      assert front[..j] == log[..j];
    }
  }

  lemma {:induction false} FindMessage(log: seq<Event>) returns (i: nat)
    requires BeingHandled(log).Some?
    ensures i < |log| && log[i] == MessageHandled(BeingHandled(log).value)
    ensures forall n | i < n < |log| :: !log[n].HandlerDone? && !log[n].MessageHandled?
  {
    i := |log| - 1;
    if !log[i].MessageHandled? {
      i := FindMessage(log[..|log| - 1]);
    }
  }

  /** Each answer stands behind its message, whose handler is still running, right behind its action. */
  lemma AnswerInsideHandler(inputs: seq<Input>, j: nat)
    requires j < |Run(Start(), inputs).log| && Run(Start(), inputs).log[j].AnswerWrite?
    ensures var log := Run(Start(), inputs).log;
            && j > 0 && log[j - 1].Asked? && log[j - 1].action.SendAnswer?
            && var a := log[j - 1].action;
               && log[j].answer == a.answer && log[j].writeTime == a.clock
               && exists i: nat ::
                    && i < j - 1 && log[i].MessageHandled? && (forall n | i < n < j :: !log[n].HandlerDone?)
                    && log[j].useCrc == if a.crc.Some? then a.crc.value else log[i].frame.useCrc
  {
    hide Run, ActionsIn, RepliesIn, ArrivedIn, Orderly, EnqueuedIn, Justified, PerformedIn, RepliesOf, Received;
    hide BeingHandled, CooldownInForce;
    RunReads(inputs);
    var log := Run(Start(), inputs).log;
    JustifiedAt(log, j);
    assert log[..j][..j - 1] == log[..j - 1] && log[..j][j - 1] == log[j - 1];
    var i := FindMessage(log[..j - 1]);
    assert forall n | i < n < j - 1 :: log[..j - 1][n] == log[n];
  }

  /**
   Over every run: in a loop in which no answer is awaited and frames are there, the message handler runs
   on the last of them. What its script asks for follows, and nothing else is asked for, answered or
   handled in that loop.
   */
  lemma LastMessageIsHandled(inputs: seq<Input>, input: Input)
    requires input.Tick? && Awaited(Run(Start(), inputs).log) == None
    requires There(Run(Start(), inputs).log, input) != []
    ensures var log, next := Run(Start(), inputs).log, Run(Start(), inputs + [input]).log;
            var waiting := There(log, input);
            var f := waiting[|waiting| - 1];
            && log + [Arrived(input.arrived)] + [MessageHandled(f)] <= next
            && HandledIn(next) == HandledIn(log) + [f]
            && ActionsIn(next) == ActionsIn(log) + input.script
            && RepliesIn(next) == RepliesIn(log) + RepliesFor(input.script, f.useCrc)
  {
    hide ActionsIn, RepliesIn, ArrivedIn, Orderly, AsAsked, HandledIn, Step, Reflected, MessageLog, Awaited, Unhandled;
    RunReflected(inputs);
    Snoc(inputs, input);
    TickReads(Run(Start(), inputs), input);
  }

  lemma MultisetOfBoth<T>(a: seq<T>, b: seq<T>)
    ensures multiset(a + b) == multiset(a) + multiset(b)
  {
  }

  /** Of all frames that have arrived, each was handled, gave way to a later one, or still waits. */
  lemma {:induction false} FatesAddUp(log: seq<Event>)
    requires Orderly(log)
    ensures multiset(ArrivedIn(log))
         == multiset(HandledIn(log)) + multiset(PassedOver(log)) + multiset(Unhandled(log))
  {
    hide ArrivedIn, HandledIn, PassedOver, Unhandled, BeingHandled, IsAnswered, CooldownInForce, TimeoutInForce;
    hide ActionsIn, RepliesIn, EnqueuedIn, Justified, CooldownEnd;
    if log == [] {
      NothingArrived();
    } else {
      var front, e := log[..|log| - 1], log[|log| - 1];
      FatesAddUp(front);
      assert log == front + [e];
      ReadingsSnoc(front, e);
      HandledSnoc(front, e);
      ShadowSnoc(front, e);
      var all, done, past, waiting := ArrivedIn(front), HandledIn(front), PassedOver(front), Unhandled(front);
      if e.Arrived? {
        FateOfArrival(all, done, past, waiting, e.frames);
      } else if e.MessageHandled? {
        FateOfMessage(all, done, past, waiting);
      } else if e.AnswerHandled? {
        FateOfAnswer(all, done, past, waiting);
      }
    }
  }

  lemma FateOfArrival<T>(all: seq<T>, done: seq<T>, past: seq<T>, waiting: seq<T>, more: seq<T>)
    requires multiset(all) == multiset(done) + multiset(past) + multiset(waiting)
    ensures multiset(all + more) == multiset(done) + multiset(past) + multiset(waiting + more)
  {
    MultisetOfBoth(all, more);
    MultisetOfBoth(waiting, more);
  }

  lemma FateOfMessage<T>(all: seq<T>, done: seq<T>, past: seq<T>, waiting: seq<T>)
    requires multiset(all) == multiset(done) + multiset(past) + multiset(waiting) && waiting != []
    ensures var n := |waiting| - 1;
            multiset(all) == multiset(done + [waiting[n]]) + multiset(past + waiting[..n]) + multiset([])
  {
    var n := |waiting| - 1;
    assert waiting == waiting[..n] + [waiting[n]];
    MultisetOfBoth(waiting[..n], [waiting[n]]);
    MultisetOfBoth(done, [waiting[n]]);
    MultisetOfBoth(past, waiting[..n]);
  }

  lemma FateOfAnswer<T>(all: seq<T>, done: seq<T>, past: seq<T>, waiting: seq<T>)
    requires multiset(all) == multiset(done) + multiset(past) + multiset(waiting) && waiting != []
    ensures multiset(all) == multiset(done + [waiting[0]]) + multiset(past) + multiset(waiting[1..])
  {
    assert waiting == [waiting[0]] + waiting[1..];
    MultisetOfBoth([waiting[0]], waiting[1..]);
    MultisetOfBoth(done, [waiting[0]]);
  }

  lemma NothingArrived()
    ensures ArrivedIn([]) == [] && HandledIn([]) == [] && PassedOver([]) == [] && Unhandled([]) == []
  {
  }

  /**
   Over every run no frame is lost unseen: each frame that arrived was handed to a handler, was passed
   over for a later one that was handled in the same loop, or is still there.
   */
  lemma NoFrameUnseen(inputs: seq<Input>)
    ensures var p := Run(Start(), inputs);
            && multiset(Received(inputs))
               == multiset(HandledIn(p.log)) + multiset(PassedOver(p.log)) + multiset(p.incoming)
            && Orderly(p.log)
  {
    hide Run, ActionsIn, RepliesIn, ArrivedIn, Orderly, AsAsked, HandledIn, PassedOver, Unhandled, PerformedIn;
    hide RepliesOf;
    hide Received, Reflected;
    RunReads(inputs);
    RunReflected(inputs);
    NotHandling(Run(Start(), inputs));
    FatesAddUp(Run(Start(), inputs).log);
  }
}
