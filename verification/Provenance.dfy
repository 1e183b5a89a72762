/**
 Where handled frames come from: over every run the frames handed to the message and answer handlers
 are a subsequence of those that arrived. None is made up, handled twice or out of order.
 */
module Provenance {
  import opened Bytes
  import opened FrameCodec
  import opened Protocol

  /** The frames that have arrived over a run. */
  function Received(inputs: seq<Input>): seq<Frame> {
    if inputs == [] then []
    else
      var i := inputs[|inputs| - 1];
      Received(inputs[..|inputs| - 1]) + if i.Tick? then i.arrived else []
  }

  /** The frames handed to a message or answer handler, in order. */
  function HandledIn(log: seq<Event>): seq<Frame> {
    if log == [] then []
    else
      var e := log[|log| - 1];
      HandledIn(log[..|log| - 1]) + if e.MessageHandled? || e.AnswerHandled? then [e.frame] else []
  }

  lemma HandledSnoc(log: seq<Event>, e: Event)
    ensures HandledIn(log + [e])
         == if e.MessageHandled? || e.AnswerHandled? then HandledIn(log) + [e.frame] else HandledIn(log)
  {
    Snoc(log, e);
  }

  /** Of all frames that have arrived, the last wait to be handled, and the handled ones are among the others. */
  predicate Handled(p: Proto, all: seq<Frame>) {
    |p.incoming| <= |all| &&
    var n := |all| - |p.incoming|;
    p.incoming == all[n..] && Subsequence(HandledIn(p.log), all[..n])
  }

  lemma ArriveKeepsHandled(p: Proto, all: seq<Frame>, frames: seq<Frame>)
    requires Handled(p, all)
    ensures Handled(Arrive(p, frames), all + frames)
  {
    hide HandledIn, Subsequence;
    HandledSnoc(p.log, Arrived(frames));
    var n := |all| - |p.incoming|;
    assert (all + frames)[n..] == all[n..] + frames && (all + frames)[..n] == all[..n];
  }

  lemma PerformHandlesNothing(p: Proto, a: Action)
    ensures HandledIn(Perform(p, a).log) == HandledIn(p.log) && Perform(p, a).incoming == p.incoming
  {
    hide HandledIn, WriteSucceeds;
    var n := Noted(p, Asked(a));
    HandledSnoc(p.log, Asked(a));
    var q := Effect(n, a);
    if |q.log| > |n.log| {
      assert q.log == n.log + [q.log[|n.log|]];
      HandledSnoc(n.log, q.log[|n.log|]);
    }
  }

  lemma {:induction false} ScriptHandlesNothing(p: Proto, script: seq<Action>)
    ensures HandledIn(PerformAll(p, script).log) == HandledIn(p.log) && PerformAll(p, script).incoming == p.incoming
  {
    hide HandledIn, Perform;
    if script != [] {
      ScriptHandlesNothing(p, script[..|script| - 1]);
      PerformHandlesNothing(PerformAll(p, script[..|script| - 1]), script[|script| - 1]);
    }
  }

  /** The last frame is handled, and the ones before it are left out. */
  lemma LastIsHandled(p: Proto, all: seq<Frame>)
    requires Handled(p, all) && p.incoming != []
    ensures var frame := p.incoming[|p.incoming| - 1];
            Subsequence(HandledIn(p.log + [MessageHandled(frame)]), all)
  {
    hide HandledIn, Subsequence;
    var frame := p.incoming[|p.incoming| - 1];
    var n := |all| - |p.incoming|;
    var front := all[..|all| - 1];
    assert all == front + [frame] && front == all[..n] + all[n..|all| - 1];
    SubsequenceOfLonger(HandledIn(p.log), all[..n], all[n..|all| - 1]);
    SubsequenceSnoc(HandledIn(p.log), front, frame);
    HandledSnoc(p.log, MessageHandled(frame));
  }

  lemma IncomingKeepsHandled(p: Proto, all: seq<Frame>, script: seq<Action>)
    requires Handled(p, all)
    ensures Handled(HandleIncoming(p, script), all)
  {
    hide HandledIn, Subsequence, PerformAll;
    if p.incoming != [] {
      var frame := p.incoming[|p.incoming| - 1];
      LastIsHandled(p, all);
      var q := PerformAll(Handling(p, frame), script);
      ScriptHandlesNothing(Handling(p, frame), script);
      HandledSnoc(q.log, HandlerDone(q.answerSent));
      assert all[|all|..] == [] && all[..|all|] == all;
    }
  }

  lemma SendHandlesNothing(p: Proto, now: Time, writeClock: Time)
    ensures HandledIn(SendNext(p, now, writeClock).log) == HandledIn(p.log)
    ensures SendNext(p, now, writeClock).incoming == p.incoming
  {
    hide HandledIn, WriteSucceeds;
    if ReadyToSend(p, now) {
      var r := p.queue[0].request;
      var ok := WriteSucceeds(r.message, r.useCrc);
      var e := RequestWrite(r, now, writeClock, p.cooldown, p.answerTimeout, ok);
      HandledSnoc(p.log, Ended(r, GivenUp));
      HandledSnoc(p.log, e);
      HandledSnoc(p.log + [e], Ended(r, SentWithoutAnswer));
    }
  }

  lemma TimeoutHandlesNothing(p: Proto, now: Time, script: seq<Action>)
    requires p.queue != []
    ensures HandledIn(HandleTimeout(p, now, script).log) == HandledIn(p.log)
    ensures HandleTimeout(p, now, script).incoming == p.incoming
  {
    hide HandledIn, PerformAll;
    var r := p.queue[0].request;
    var q := Noted(p, WaitOver(r));
    HandledSnoc(p.log, WaitOver(r));
    if p.queue[0].retries == 0 {
      HandledSnoc(q.log, Ended(r, TimedOut));
      HandledSnoc(q.log + [Ended(r, TimedOut)], TimeoutHandled(r, p.lastType));
      ScriptHandlesNothing(TimingOut(q, now), script);
    }
  }

  lemma AnswerKeepsHandled(p: Proto, all: seq<Frame>, now: Time, script: seq<Action>)
    requires Handled(p, all) && p.queue != [] && p.incoming != []
    ensures Handled(HandleAnswer(p, now, script), all)
  {
    hide HandledIn, Subsequence, PerformAll;
    var n := |all| - |p.incoming|;
    var q := Answering(p);
    SubsequenceSnoc(HandledIn(p.log), all[..n], p.incoming[0]);
    assert all[n] == p.incoming[0];
    PrefixStep(all, n);
    assert all[n + 1..] == p.incoming[1..];
    HandledSnoc(p.log, AnswerHandled(p.queue[0].request, p.lastType, p.incoming[0]));
    ScriptHandlesNothing(q, script);
    QueueGrows(q, script);
    var h := PerformAll(q, script);
    HandledSnoc(h.log, Ended(h.queue[0].request, Answered));
  }

  lemma StepKeepsHandled(p: Proto, all: seq<Frame>, input: Input)
    requires Handled(p, all)
    ensures Handled(Step(p, input), all + if input.Tick? then input.arrived else [])
  {
    hide HandledIn, Subsequence, Perform, HandleIncoming, SendNext, HandleTimeout, HandleAnswer;
    match input
    case Call(a) =>
      PerformHandlesNothing(p, a);
      assert all + [] == all;
    case Tick(arrived, now, writeClock, script) =>
      var q := Arrive(p, arrived);
      ArriveKeepsHandled(p, all, arrived);
      match q.state
      case IDLE =>
        IncomingKeepsHandled(q, all + arrived, script);
        SendHandlesNothing(HandleIncoming(q, script), now, writeClock);
      case WAITING_FOR_ANSWER =>
        if q.queue != [] {
          if now > q.answerPoint {
            TimeoutHandlesNothing(q, now, script);
          } else if q.incoming != [] {
            AnswerKeepsHandled(q, all + arrived, now, script);
          }
        }
  }

  lemma {:induction false} RunKeepsHandled(inputs: seq<Input>)
    ensures Handled(Run(Start(), inputs), Received(inputs))
  {
    hide HandledIn, Subsequence, Step;
    if inputs == [] {
      NothingHandled();
    } else {
      RunKeepsHandled(inputs[..|inputs| - 1]);
      StepKeepsHandled(Run(Start(), inputs[..|inputs| - 1]), Received(inputs[..|inputs| - 1]), inputs[|inputs| - 1]);
    }
  }

  lemma NothingHandled()
    ensures Handled(Start(), [])
  {
  }

  /** Over every run: handled frames are a subsequence of those that arrived. */
  lemma HandledHaveArrived(inputs: seq<Input>)
    ensures Subsequence(HandledIn(Run(Start(), inputs).log), Received(inputs))
  {
    hide HandledIn, Subsequence, Run, Received;
    RunKeepsHandled(inputs);
    var p, all := Run(Start(), inputs), Received(inputs);
    var n := |all| - |p.incoming|;
    SubsequenceOfLonger(HandledIn(p.log), all[..n], all[n..]);
    assert all[..n] + all[n..] == all;
  }
}
