/** The protocol handler over the transport: each operation is the state machine's step. */
module ProtocolHandlers {
  import opened Bytes
  import opened FrameCodec
  import opened CircularBuffers
  import opened StreamParser
  import opened StreamLaws
  import opened Ledger
  import opened Overflow
  import opened Reception
  import opened RingLedger
  import opened Transport
  import opened Protocol
  import opened ProtocolLaws
  import opened Provenance
  import opened Wire

  /** What a handler's ring holds unless another size is asked for. */
  const DEFAULT_BUFFER_SIZE: nat := MAX_FRAME_SIZE + 10

  /** The steps a handler has made, the chunks it has read and the bytes it has written. */
  datatype Past = Past(inputs: seq<Input>, chunks: seq<seq<byte>>, written: seq<byte>)

  lemma InputsSnoc(inputs: seq<Input>, i: Input)
    ensures Received(inputs + [i]) == Received(inputs) + if i.Tick? then i.arrived else []
    ensures Run(Start(), inputs + [i]) == Step(Run(Start(), inputs), i)
  {
    hide Step;
    Snoc(inputs, i);
  }

  lemma NothingPast(capacity: nat)
    ensures Run(Start(), []) == Start() && Received([]) == [] && ReadAll(capacity, FRESH, []) == FRESH && OnWire([], [])
  {
  }

  /** What was on the wire, and what is added to it. */
  lemma WroteOn(before: seq<byte>, w0: seq<byte>, w1: seq<byte>, l0: seq<Event>, l1: seq<Event>)
    requires OnWire(before, l0) && Wrote(w0, w1, l0, l1)
    ensures w0 <= w1 && OnWire(before + w1[|w0|..], l1)
  {
    hide OnWire;
    OnWireConcat(before, l0, w1[|w0|..], l1[|l0|..]);
    assert l0 + l1[|l0|..] == l1;
  }

  class ProtocolHandler {
    const transport: TransportLevelHandler
    var outgoingMessages: seq<Item>
    var state: ProtocolState
    var processingMessage: bool
    var incomingMessageCrcStatus: bool
    var answerSent: bool
    var lastMessageType: byte
    var answerTimeoutInterval: int
    var cooldownInterval: int
    var cooldownTimePoint: Time
    var answerTimePoint: Time
    var retryTimePoint: Time
    var nextId: nat
    ghost var log: seq<Event>
    ghost var past: Past

    /** The state of the state machine that the fields stand for. */
    ghost function View(): Proto
      reads this, transport
    {
      Proto(state, outgoingMessages, transport.incomingQueue, processingMessage, incomingMessageCrcStatus, answerSent,
            lastMessageType, answerTimeoutInterval, cooldownInterval, cooldownTimePoint, answerTimePoint,
            retryTimePoint, nextId, log)
    }

    /**
     The whole past of a handler: the steps it has made, the chunks it has read and the bytes it has
     written. Its state is that of the state machine after these steps, its buffer that of the receiver
     after these past.chunks, and the frames that have arrived are those the receiver delivered.
     */
    ghost predicate Valid()
      reads this, transport, transport.buffer, transport.buffer.buffer, transport.currentFrame
    {
      && transport.Scanned() && Sound(View()) && View() == Run(Start(), past.inputs)
      && Fit(transport.buffer.capacity, past.chunks)
      && transport.Receiver().(frames := Received(past.inputs))
         == ReadAll(transport.buffer.capacity, FRESH, past.chunks)
      && OnWire(past.written, log)
    }

    constructor (stream: ProtocolStream, bufferSize: nat := DEFAULT_BUFFER_SIZE)
      ensures Valid() && View() == Start() && transport.stream == stream
      ensures past == Past([], [], [])
      ensures transport.buffer.capacity == if bufferSize < 128 then 128 else bufferSize
      ensures fresh(transport) && fresh(transport.buffer) && fresh(transport.buffer.buffer)
      ensures fresh(transport.currentFrame)
    {
      hide Sound, TransportLevelHandler.Scanned, Run, Received, ReadAll, OnWire;
      transport := new TransportLevelHandler(stream, bufferSize);
      outgoingMessages, state, processingMessage, incomingMessageCrcStatus, answerSent := [], IDLE, false, false, false;
      lastMessageType := UNKNOWN_FRAME_TYPE;
      answerTimeoutInterval, cooldownInterval := DEFAULT_ANSWER_TIMEOUT, DEFAULT_COOLDOWN_INTERVAL;
      cooldownTimePoint, answerTimePoint, retryTimePoint := 0, 0, 0;
      nextId, log, past := 0, [], Past([], [], []);
      new;
      StartIsSound();
      NothingPast(transport.buffer.capacity);
    }

    /** Hands a message to the transport; the cooldown starts whether that worked or not. */
    method WriteMessage(message: Message, useCrc: bool, clock: Time, ghost note: Event) returns (isSuccess: bool)
      requires IsWrite(note) && WrittenMessage(note) == message && WrittenWithCrc(note) == useCrc
      modifies this`cooldownTimePoint, this`log, transport.stream`written
      ensures isSuccess == WriteSucceeds(message, useCrc)
      ensures cooldownTimePoint == clock + cooldownInterval && log == old(log) + [note]
      ensures Wrote(old(transport.stream.written), transport.stream.written, old(log), log)
    {
      hide SendResult, Sends, Wrote;
      var sent := transport.SendData(message.frameType, message.payload, useCrc);
      WroteMessage(old(transport.stream.written), transport.stream.written, log, note);
      log := log + [note];
      isSuccess := sent > 0;
      cooldownTimePoint := clock + cooldownInterval;
    }

    method SendMessage(message: Message, useCrc: bool, numRepeats: byte, interval: int)
      modifies this`outgoingMessages, this`nextId, this`log
      ensures View() == Effect(old(View()), Action.SendMessage(message, useCrc, numRepeats, interval))
      ensures var attempts := if numRepeats < 9 then numRepeats as nat + 1 else 10;
              outgoingMessages == old(outgoingMessages)
                                  + [Item(Request(old(nextId), message, useCrc, false, attempts, interval), attempts)]
      ensures Wrote(old(transport.stream.written), transport.stream.written, old(log), log)
    {
      hide Wrote;
      var r := Request(nextId, message, useCrc, false, Attempts(numRepeats), interval);
      WroteNothing(transport.stream.written, log);
      WroteQuietly(transport.stream.written, transport.stream.written, log, log, Enqueued(r));
      outgoingMessages := outgoingMessages + [Item(r, Attempts(numRepeats))];
      nextId := nextId + 1;
      log := log + [Enqueued(r)];
    }

    method SendMessageWithoutAnswer(message: Message, useCrc: bool)
      modifies this`outgoingMessages, this`nextId, this`log
      ensures View() == Effect(old(View()), Action.SendMessageWithoutAnswer(message, useCrc))
      ensures outgoingMessages == old(outgoingMessages) + [Item(Request(old(nextId), message, useCrc, true, 1, 0), 1)]
      ensures Wrote(old(transport.stream.written), transport.stream.written, old(log), log)
    {
      hide Wrote;
      var r := Request(nextId, message, useCrc, true, 1, 0);
      WroteNothing(transport.stream.written, log);
      WroteQuietly(transport.stream.written, transport.stream.written, log, log, Enqueued(r));
      outgoingMessages := outgoingMessages + [Item(r, 1)];
      nextId := nextId + 1;
      log := log + [Enqueued(r)];
    }

    /** Answers can be sent only from a message handler; without a CRC choice, as the message came. */
    method SendAnswer(answer: Message, crc: Option<bool>, clock: Time)
      modifies this`answerSent, this`cooldownTimePoint, this`log, transport.stream`written
      ensures View() == Effect(old(View()), Action.SendAnswer(answer, crc, clock))
      ensures !processingMessage ==>
                unchanged(this) && transport.stream.written == old(transport.stream.written)
      ensures processingMessage ==>
                var withCrc := if crc.Some? then crc.value else incomingMessageCrcStatus;
                && log == old(log) + [AnswerWrite(answer, withCrc, clock, cooldownInterval)]
                && cooldownTimePoint == clock + cooldownInterval
                && answerSent == (SendResult(answer.frameType, answer.payload, withCrc) != 0)
      ensures Wrote(old(transport.stream.written), transport.stream.written, old(log), log)
    {
      hide SendResult, Wrote;
      WroteNothing(transport.stream.written, log);
      if processingMessage {
        var useCrc := if crc.Some? then crc.value else incomingMessageCrcStatus;
        answerSent := WriteMessage(answer, useCrc, clock, AnswerWrite(answer, useCrc, clock, cooldownInterval));
      }
    }

    method NoAnswer()
      modifies this`answerSent
      ensures View() == Effect(old(View()), Action.NoAnswer)
      ensures answerSent == (processingMessage || old(answerSent))
    {
      if processingMessage {
        answerSent := true;
      }
    }

    method PerformAction(a: Action)
      modifies this, transport.stream`written
      ensures View() == Perform(old(View()), a)
      ensures past == old(past)
      ensures Wrote(old(transport.stream.written), transport.stream.written, old(log), log)
    {
      hide WriteSucceeds, Wrote;
      ghost var w, l0 := transport.stream.written, log;
      WroteNothing(w, l0);
      WroteQuietly(w, w, l0, l0, Asked(a));
      log := log + [Asked(a)];
      ghost var l := log;
      WroteNothing(w, l);
      match a {
        case SendMessage(message, useCrc, numRepeats, interval) => SendMessage(message, useCrc, numRepeats, interval);
        case SendMessageWithoutAnswer(message, useCrc) => SendMessageWithoutAnswer(message, useCrc);
        case SendAnswer(answer, crc, clock) => SendAnswer(answer, crc, clock);
        case NoAnswer => NoAnswer();
        case SetAnswerTimeout(milliseconds) => answerTimeoutInterval := milliseconds;
        case SetCooldownInterval(milliseconds) => cooldownInterval := milliseconds;
      }
      WroteThen(w, w, transport.stream.written, l0, l, log);
    }

    /** An application's call between two calls of loop. */
    method CallAction(a: Action)
      requires Valid()
      modifies this, transport.stream`written
      ensures Valid() && View() == Step(old(View()), Call(a))
      ensures past.inputs == old(past.inputs) + [Call(a)] && past.chunks == old(past.chunks)
      ensures Wrote(old(transport.stream.written), transport.stream.written, old(log), log)
      ensures old(past.written) <= past.written
      ensures transport.stream.written == old(transport.stream.written) + past.written[|old(past.written)|..]
    {
      hide Perform, Sound, Wrote, OnWire, Run, Received, ReadAll, TransportLevelHandler.Scanned;
      ghost var p, w0, l0 := View(), transport.stream.written, log;
      PerformAction(a);
      InputsSnoc(past.inputs, Call(a));
      Record(p, Call(a), w0, l0);
    }

    /** Adds a step to the past. */
    ghost method Record(p: Proto, input: Input, w0: seq<byte>, l0: seq<Event>)
      requires transport.Scanned() && Sound(p) && p == Run(Start(), past.inputs) && View() == Step(p, input)
      requires Fit(transport.buffer.capacity, past.chunks)
      requires transport.Receiver().(frames := Received(past.inputs + [input]))
            == ReadAll(transport.buffer.capacity, FRESH, past.chunks)
      requires OnWire(past.written, l0) && Wrote(w0, transport.stream.written, l0, log)
      modifies this`past
      ensures Valid() && w0 <= transport.stream.written
      ensures past == Past(old(past.inputs) + [input], old(past.chunks),
                           old(past.written) + transport.stream.written[|w0|..])
    {
      hide Step, Sound, Wrote, OnWire, Run, Received, ReadAll, TransportLevelHandler.Scanned;
      StepKeepsSound(p, input);
      InputsSnoc(past.inputs, input);
      WroteOn(past.written, w0, transport.stream.written, l0, log);
      past := Past(past.inputs + [input], past.chunks, past.written + transport.stream.written[|w0|..]);
    }

    /** A handler: whatever it asks for, one thing after the other. */
    method RunScript(script: seq<Action>)
      modifies this, transport.stream`written
      ensures View() == PerformAll(old(View()), script)
      ensures past == old(past)
      ensures Wrote(old(transport.stream.written), transport.stream.written, old(log), log)
    {
      hide Perform, Wrote;
      WroteNothing(transport.stream.written, log);
      ghost var w0, l0 := transport.stream.written, log;
      for i := 0 to |script|
        invariant View() == PerformAll(old(View()), script[..i])
        invariant past == old(past)
        invariant Wrote(w0, transport.stream.written, l0, log)
      {
        ghost var w, l := transport.stream.written, log;
        PerformAction(script[i]);
        WroteThen(w0, w, transport.stream.written, l0, l, log);
        assert script[..i + 1][..i] == script[..i];
      }
      assert script[..|script|] == script;
    }

    /**
     One call of loop: read, scan, and take one step of the state machine on the frames that arrived.
     They, the receiver's mode and what is left in its buffer are those of the reference receiver.
     */
    method Loop(now: Time, writeClock: Time, script: seq<Action>) returns (ghost arrived: seq<Frame>)
      requires Valid()
      modifies this, transport, transport.buffer, transport.buffer.buffer, transport.currentFrame, transport.stream
      ensures Valid()
      ensures Drained(transport.ModeNow(), transport.buffer.Contents(), arrived)
           == ReadInto(transport.buffer.capacity, old(transport.Receiver()), old(transport.Chunk()))
           == Drain(old(transport.ModeAfterRead()), old(transport.ContentsAfterRead()))
      ensures transport.stream.pending == old(transport.stream.pending)[|old(transport.Chunk())|..]
      ensures View() == Step(old(View()), Tick(arrived, now, writeClock, script))
      ensures past.inputs == old(past.inputs) + [Tick(arrived, now, writeClock, script)]
      ensures past.chunks == old(past.chunks) + [old(transport.Chunk())]
      ensures Wrote(old(transport.stream.written), transport.stream.written, old(log), log)
      ensures old(past.written) <= past.written
      ensures transport.stream.written == old(transport.stream.written) + past.written[|old(past.written)|..]
    {
      hide Sound, Drain, Step, Wrote, OnWire, Run, Received, ReadInto, ReadAll, TransportLevelHandler.Scanned;
      ghost var p, w0, l0 := View(), transport.stream.written, log;
      arrived := ReceiveNext();
      ghost var l := log;
      ghost var input := Tick(arrived, now, writeClock, script);
      InputsSnoc(past.inputs, input);
      TakeStep(p, arrived, now, writeClock, script);
      WroteThen(w0, w0, transport.stream.written, l0, l, log);
      Record(p, input, w0, l0);
    }

    /** The second half of loop. */
    method TakeStep(ghost p: Proto, ghost arrived: seq<Frame>, now: Time, writeClock: Time, script: seq<Action>)
      requires transport.Scanned() && Sound(p) && View() == Arrive(p, arrived)
      modifies this, transport`incomingQueue, transport.stream`written
      ensures transport.Scanned() && transport.Receiver() == old(transport.Receiver())
      ensures View() == Step(p, Tick(arrived, now, writeClock, script)) && past == old(past)
      ensures Wrote(old(transport.stream.written), transport.stream.written, old(log), log)
    {
      hide Sound, Wrote, Protocol.Loop, CursorsAt;
      ArriveKeepsSound(p, arrived);
      Act(now, writeClock, script);
      transport.OnlyQueueChanged();
    }

    /** The first half of loop, with the frames noted as arrived. */
    method ReceiveNext() returns (ghost arrived: seq<Frame>)
      requires Valid()
      modifies this`past, this`log, transport, transport.buffer, transport.buffer.buffer, transport.currentFrame,
        transport.stream
      ensures transport.Scanned() && transport.stream.written == old(transport.stream.written)
      ensures transport.Receiver().(frames := arrived)
           == ReadInto(transport.buffer.capacity, old(transport.Receiver()), old(transport.Chunk()))
           == Drain(old(transport.ModeAfterRead()), old(transport.ContentsAfterRead()))
      ensures transport.stream.pending == old(transport.stream.pending)[|old(transport.Chunk())|..]
      ensures past == old(past).(chunks := old(past.chunks) + [old(transport.Chunk())])
      ensures Fit(transport.buffer.capacity, past.chunks)
      ensures transport.Receiver().(frames := Received(past.inputs) + arrived)
           == ReadAll(transport.buffer.capacity, FRESH, past.chunks)
      ensures View() == Arrive(old(View()), arrived)
      ensures Wrote(old(transport.stream.written), transport.stream.written, old(log), log)
    {
      hide Sound, Drain, Run, OnWire, Wrote, Received, ReadInto, ReadAll, CursorsAt;
      WroteNothing(transport.stream.written, log);
      transport.ScannedRead();
      ReadAllSnoc(transport.buffer.capacity, FRESH, past.chunks, transport.Chunk());
      ghost var capacity := transport.buffer.capacity;
      AboutReadInto(capacity, ReadAll(capacity, FRESH, past.chunks), transport.Chunk());
      past := past.(chunks := past.chunks + [transport.Chunk()]);
      arrived := Receive();
      WroteQuietly(transport.stream.written, transport.stream.written, log, log, Arrived(arrived));
      log := log + [Arrived(arrived)];
    }

    /** The frames delivered before come first. */
    lemma AboutReadInto(capacity: nat, d: Drained, chunk: seq<byte>)
      requires |chunk| <= capacity
      ensures ReadInto(capacity, d, chunk) == After(d.frames, ReadInto(capacity, d.(frames := []), chunk))
    {
      hide Drain;
      var m := ModeAfterLoss(d, Lost(capacity, |d.rest|, |chunk|));
      AfterAfter(d.frames, [], Drain(m, BufferAfter(capacity, d, chunk)));
      assert d.frames + [] == d.frames;
    }

    /** Reads from the stream and scans what is in the buffer then. */
    method Receive() returns (ghost arrived: seq<Frame>)
      requires transport.Valid()
      modifies transport, transport.buffer, transport.buffer.buffer, transport.currentFrame, transport.stream
      ensures transport.Scanned() && transport.stream.written == old(transport.stream.written)
      ensures Drained(transport.ModeNow(), transport.buffer.Contents(), arrived)
           == Drain(old(transport.ModeAfterRead()), old(transport.ContentsAfterRead()))
      ensures transport.stream.pending == old(transport.stream.pending)[|old(transport.Chunk())|..]
      ensures transport.incomingQueue == old(transport.incomingQueue) + arrived
    {
      hide Drain, CursorsAt;
      arrived := Drain(transport.ModeAfterRead(), transport.ContentsAfterRead()).frames;
      var _ := transport.ReadData();
      transport.ProcessData();
    }

    /** The switch over the protocol state. */
    method Act(now: Time, writeClock: Time, script: seq<Action>)
      requires transport.Valid() && Sound(View())
      modifies this, transport`incomingQueue, transport.stream`written
      ensures past == old(past)
      ensures transport.Valid() && View() == Protocol.Loop(old(View()), now, writeClock, script)
      ensures Wrote(old(transport.stream.written), transport.stream.written, old(log), log)
    {
      hide Sound, HandleIncoming, SendNext, HandleTimeout, HandleAnswer, Wrote, TransportLevelHandler.Valid;
      ghost var w0, l0 := transport.stream.written, log;
      WroteNothing(w0, l0);
      match state {
        case IDLE =>
          TakeMessage(script);
          ghost var w, l := transport.stream.written, log;
          SendFront(now, writeClock);
          WroteThen(w0, w, transport.stream.written, l0, l, log);
        case WAITING_FOR_ANSWER =>
          WaitingHasFront(View());
          if now > answerTimePoint {
            AnswerTimeout(now, script);
          } else if transport.Available() > 0 {
            TakeAnswer(now, script);
          }
      }
    }

    lemma WaitingHasFront(p: Proto)
      requires Sound(p) && p.state == WAITING_FOR_ANSWER
      ensures p.queue != []
    {
    }

    /** The last incoming message; the others are dropped. */
    method LastMessage() returns (frame: Option<Frame>)
      requires transport.Valid()
      modifies transport`incomingQueue
      ensures transport.Valid() && transport.incomingQueue == []
      ensures var q := old(transport.incomingQueue); frame == if q == [] then None else Some(q[|q| - 1])
    {
      var messagesCount := transport.Available();
      if messagesCount > 1 {
        transport.DropFrames(messagesCount - 1);
        messagesCount := 1;
      }
      frame := None;
      if messagesCount > 0 {
        frame := transport.PopFrame();
      }
    }

    /** Idle: the handler runs on the last incoming message. */
    method TakeMessage(script: seq<Action>)
      requires transport.Valid()
      modifies this, transport`incomingQueue, transport.stream`written
      ensures transport.Valid() && View() == HandleIncoming(old(View()), script)
      ensures transport.incomingQueue == []
      ensures var q := old(transport.incomingQueue);
              if q == [] then View() == old(View())
              else
                && old(log) + [MessageHandled(q[|q| - 1])] <= log && log[|log| - 1] == HandlerDone(answerSent)
                && incomingMessageCrcStatus == q[|q| - 1].useCrc && !processingMessage
      ensures past == old(past)
      ensures Wrote(old(transport.stream.written), transport.stream.written, old(log), log)
    {
      hide PerformAll, Handling, MessageDone, TransportLevelHandler.Valid, Wrote;
      ghost var p := View();
      WroteNothing(transport.stream.written, log);
      var frame := LastMessage();
      if frame.Some? {
        RunMessageHandler(frame.value, p, script);
      }
    }

    /** The message handler, from its start to its end. */
    method RunMessageHandler(frame: Frame, ghost p: Proto, script: seq<Action>)
      requires View() == p.(incoming := [])
      modifies this, transport.stream`written
      ensures View() == MessageDone(PerformAll(Handling(p, frame), script))
      ensures past == old(past) && transport.incomingQueue == []
      ensures old(log) + [MessageHandled(frame)] <= log && log[|log| - 1] == HandlerDone(answerSent)
      ensures incomingMessageCrcStatus == frame.useCrc && !processingMessage
      ensures Wrote(old(transport.stream.written), transport.stream.written, old(log), log)
    {
      hide PerformAll, Wrote;
      ghost var w0, l0 := transport.stream.written, log;
      BeginMessage(frame, p);
      ghost var l := log;
      RunScript(script);
      WroteThen(w0, w0, transport.stream.written, l0, l, log);
      ScriptKeepsStatus(Handling(p, frame), script);
      ghost var w, l' := transport.stream.written, log;
      EndMessage();
      WroteThen(w0, w, w, l0, l', log);
    }

    /** The handler is done, with or without an answer. */
    method EndMessage()
      modifies this`processingMessage, this`log
      ensures View() == MessageDone(old(View())) && log == old(log) + [HandlerDone(answerSent)]
      ensures Wrote(old(transport.stream.written), transport.stream.written, old(log), log)
    {
      hide Wrote;
      WroteNothing(transport.stream.written, log);
      WroteQuietly(transport.stream.written, transport.stream.written, log, log, HandlerDone(answerSent));
      log := log + [HandlerDone(answerSent)];
      processingMessage := false;
    }

    method BeginMessage(frame: Frame, ghost p: Proto)
      requires View() == p.(incoming := [])
      modifies this`incomingMessageCrcStatus, this`processingMessage, this`answerSent, this`log
      ensures View() == Handling(p, frame)
      ensures Wrote(old(transport.stream.written), transport.stream.written, old(log), log)
    {
      hide Wrote;
      WroteNothing(transport.stream.written, log);
      WroteQuietly(transport.stream.written, transport.stream.written, log, log, MessageHandled(frame));
      incomingMessageCrcStatus := frame.useCrc;
      processingMessage := true;
      answerSent := false;
      log := log + [MessageHandled(frame)];
    }

    /** Idle: send or give up the front message if its time has come. */
    method SendFront(now: Time, writeClock: Time)
      requires transport.Valid()
      modifies this, transport.stream`written
      ensures transport.Valid() && View() == SendNext(old(View()), now, writeClock)
      ensures past == old(past)
      ensures Wrote(old(transport.stream.written), transport.stream.written, old(log), log)
    {
      hide WriteSucceeds, TransportLevelHandler.Valid, Wrote;
      WroteNothing(transport.stream.written, log);
      if outgoingMessages != [] && now >= cooldownTimePoint && now >= retryTimePoint {
        if outgoingMessages[0].retries > 0 {
          WriteFront(now, writeClock);
        } else {
          ghost var w, e := transport.stream.written, Ended(outgoingMessages[0].request, GivenUp);
          WroteQuietly(w, w, log, log, e);
          log := log + [e];
          outgoingMessages := outgoingMessages[1..];
          retryTimePoint := now;
        }
      }
    }

    /** One write attempt for the front message. */
    method WriteFront(now: Time, writeClock: Time)
      requires ReadyToSend(View(), now) && outgoingMessages[0].retries > 0
      modifies this, transport.stream`written
      ensures View() == SendNext(old(View()), now, writeClock)
      ensures past == old(past)
      ensures Wrote(old(transport.stream.written), transport.stream.written, old(log), log)
    {
      hide WriteSucceeds, WriteAttempt, WithoutAnswerDone, Attempted, Awaiting, Wrote;
      ghost var p, w0, l0 := View(), transport.stream.written, log;
      var msg := outgoingMessages[0];
      AboutWriteAttempt(p, now, writeClock);
      var ok := WriteRequest(now, writeClock);
      ghost var w, l := transport.stream.written, log;
      if ok && msg.request.noAnswer {
        RetireSent(now);
        WroteThen(w0, w, w, l0, l, log);
      } else {
        CountAttempt();
        if ok {
          AboutAttempted(WriteAttempt(p, now, writeClock));
          AwaitAnswer(now);
        }
      }
    }

    lemma AboutWriteAttempt(p: Proto, now: Time, writeClock: Time)
      requires p.queue != []
      ensures WriteAttempt(p, now, writeClock).queue == p.queue
    {
    }

    lemma AboutAttempted(p: Proto)
      requires p.queue != [] && p.queue[0].retries > 0
      ensures Attempted(p).queue != []
    {
    }

    method WriteRequest(now: Time, writeClock: Time) returns (ok: bool)
      requires outgoingMessages != []
      modifies this`cooldownTimePoint, this`log, transport.stream`written
      ensures ok == WriteSucceeds(outgoingMessages[0].request.message, outgoingMessages[0].request.useCrc)
      ensures View() == WriteAttempt(old(View()), now, writeClock)
      ensures Wrote(old(transport.stream.written), transport.stream.written, old(log), log)
    {
      hide WriteSucceeds, Wrote;
      var r := outgoingMessages[0].request;
      ok := WriteMessage(r.message, r.useCrc, writeClock,
                         RequestWrite(r, now, writeClock, cooldownInterval, answerTimeoutInterval,
                                      WriteSucceeds(r.message, r.useCrc)));
    }

    method RetireSent(now: Time)
      requires outgoingMessages != []
      modifies this`outgoingMessages, this`lastMessageType, this`retryTimePoint, this`log
      ensures View() == WithoutAnswerDone(old(View()), now)
      ensures Wrote(old(transport.stream.written), transport.stream.written, old(log), log)
    {
      hide Wrote;
      ghost var w, e := transport.stream.written, Ended(outgoingMessages[0].request, SentWithoutAnswer);
      WroteNothing(w, log);
      WroteQuietly(w, w, log, log, e);
      lastMessageType := outgoingMessages[0].request.message.frameType;
      log := log + [e];
      outgoingMessages := outgoingMessages[1..];
      retryTimePoint := now;
    }

    method CountAttempt()
      requires outgoingMessages != [] && outgoingMessages[0].retries > 0
      modifies this`outgoingMessages
      ensures View() == Attempted(old(View()))
    {
      outgoingMessages := [Item(outgoingMessages[0].request, outgoingMessages[0].retries - 1)] + outgoingMessages[1..];
    }

    method AwaitAnswer(now: Time)
      requires outgoingMessages != []
      modifies this`lastMessageType, this`state, this`answerTimePoint, this`retryTimePoint
      ensures View() == Awaiting(old(View()), now)
    {
      lastMessageType := outgoingMessages[0].request.message.frameType;
      state := WAITING_FOR_ANSWER;
      answerTimePoint := now + answerTimeoutInterval;
      retryTimePoint := now + outgoingMessages[0].request.interval;
    }

    /** Waiting: the answer did not come in time. */
    method AnswerTimeout(now: Time, script: seq<Action>)
      requires transport.Valid() && outgoingMessages != []
      modifies this, transport.stream`written
      ensures transport.Valid() && View() == HandleTimeout(old(View()), now, script)
      ensures state == IDLE
      ensures past == old(past)
      ensures Wrote(old(transport.stream.written), transport.stream.written, old(log), log)
    {
      hide PerformAll, TimingOut, TransportLevelHandler.Valid, Wrote;
      ghost var w0, l0 := transport.stream.written, log;
      WroteNothing(w0, l0);
      WroteQuietly(w0, w0, l0, l0, WaitOver(outgoingMessages[0].request));
      log := log + [WaitOver(outgoingMessages[0].request)];
      if outgoingMessages[0].retries == 0 {
        ghost var l := log;
        DropTimedOut(now);
        ghost var l' := log;
        WroteThen(w0, w0, w0, l0, l, l');
        RunScript(script);
        WroteThen(w0, w0, transport.stream.written, l0, l', log);
      }
      state := IDLE;
    }

    /** No attempt is left: the message is removed before its timeout handler runs. */
    method DropTimedOut(now: Time)
      requires outgoingMessages != []
      modifies this`outgoingMessages, this`retryTimePoint, this`log
      ensures View() == TimingOut(old(View()), now)
      ensures retryTimePoint == now && outgoingMessages == old(outgoingMessages)[1..]
      ensures Wrote(old(transport.stream.written), transport.stream.written, old(log), log)
    {
      hide Wrote;
      ghost var w, l0, r := transport.stream.written, log, outgoingMessages[0].request;
      WroteNothing(w, l0);
      WroteQuietly(w, w, l0, l0, Ended(r, TimedOut));
      WroteQuietly(w, w, l0, l0 + [Ended(r, TimedOut)], TimeoutHandled(r, lastMessageType));
      log := log + [Ended(r, TimedOut)] + [TimeoutHandled(r, lastMessageType)];
      outgoingMessages := outgoingMessages[1..];
      retryTimePoint := now;
    }

    /** Waiting: an answer is there; its handler runs and the request is over. */
    method TakeAnswer(now: Time, script: seq<Action>)
      requires transport.Valid() && outgoingMessages != [] && transport.incomingQueue != []
      modifies this, transport`incomingQueue, transport.stream`written
      ensures transport.Valid() && View() == HandleAnswer(old(View()), now, script)
      ensures state == IDLE && retryTimePoint == now
      ensures transport.incomingQueue == old(transport.incomingQueue)[1..]
      ensures past == old(past)
      ensures Wrote(old(transport.stream.written), transport.stream.written, old(log), log)
    {
      hide PerformAll, Answering, AnswerDone, TransportLevelHandler.Valid, Wrote;
      ghost var w0, l0 := transport.stream.written, log;
      PopAnswer();
      ghost var q, l := View(), log;
      AnsweringKeepsFront(old(View()));
      RunScript(script);
      QueueGrows(q, script);
      ScriptKeepsStatus(q, script);
      ghost var w, l' := transport.stream.written, log;
      WroteThen(w0, w0, w, l0, l, l');
      FinishRequest(now);
      WroteThen(w0, w, w, l0, l', log);
    }

    lemma AnsweringKeepsFront(p: Proto)
      requires p.queue != [] && p.incoming != []
      ensures Answering(p).queue == p.queue && Answering(p).incoming == p.incoming[1..]
    {
    }

    method PopAnswer()
      requires transport.Valid() && outgoingMessages != [] && transport.incomingQueue != []
      modifies this`log, transport`incomingQueue
      ensures transport.Valid() && View() == Answering(old(View()))
      ensures Wrote(old(transport.stream.written), transport.stream.written, old(log), log)
    {
      hide Wrote, TransportLevelHandler.Valid;
      var frame := transport.PopFrame();
      ghost var w := transport.stream.written;
      ghost var e := AnswerHandled(outgoingMessages[0].request, lastMessageType, frame.value);
      WroteNothing(w, log);
      WroteQuietly(w, w, log, log, e);
      log := log + [e];
    }

    method FinishRequest(now: Time)
      requires outgoingMessages != []
      modifies this`outgoingMessages, this`retryTimePoint, this`state, this`log
      ensures View() == AnswerDone(old(View()), now)
      ensures state == IDLE && retryTimePoint == now && outgoingMessages == old(outgoingMessages)[1..]
      ensures Wrote(old(transport.stream.written), transport.stream.written, old(log), log)
    {
      hide Wrote;
      ghost var w, e := transport.stream.written, Ended(outgoingMessages[0].request, Answered);
      WroteNothing(w, log);
      WroteQuietly(w, w, log, log, e);
      log := log + [e];
      outgoingMessages := outgoingMessages[1..];
      retryTimePoint := now;
      state := IDLE;
    }
  }

  /**
   What a handler has received over its whole past, overflows included: its chunks are made up of the
   pieces it has consumed and what is left in its buffer, and each frame that has arrived has its own
   genuine image among them. A receiver that starts its search over at each overflow would have
   delivered the same. While no read overflows, frames, mode and buffer are those of the chunks as fed
   to the reference receiver. Bytes counted as marker bytes are separators as long as overflows of a
   search put separators in the place of separators, and so always without overflow.
   */
  lemma WholeRun(h: ProtocolHandler)
    requires h.Valid()
    ensures Fit(h.transport.buffer.capacity, h.past.chunks)
    ensures var p := RunPieces(h.transport.buffer.capacity, h.past.chunks);
            && BytesOf(p) + h.transport.buffer.Contents() == Concat(h.past.chunks)
            && FramesOf(p) == Received(h.past.inputs) && Paired(p)
    ensures Received(h.past.inputs) == RepairedReadAll(h.transport.buffer.capacity, h.past.chunks).frames
    ensures NoOverflow(h.transport.buffer.capacity, FRESH, h.past.chunks) ==>
              && h.transport.Receiver().(frames := Received(h.past.inputs)) == Feed(h.past.chunks)
              && MarkersKept(h.transport.buffer.capacity, h.past.chunks)
    ensures MarkersKept(h.transport.buffer.capacity, h.past.chunks) ==>
              MarkersGenuine(h.transport.ModeNow(), h.transport.buffer.Contents())
  {
    hide OnWire, Sound, Run, Received, ReadAll, RepairedReadAll, NoOverflow, CursorsAt, Feed;
    hide RunPieces, BytesOf, FramesOf, Paired, MarkersKept, MarkersGenuine;
    var capacity, chunks := h.transport.buffer.capacity, h.past.chunks;
    OverflowKeepsFrames(capacity, chunks);
    RingIsAccountedFor(capacity, chunks);
    if NoOverflow(capacity, FRESH, chunks) {
      RingIsFeed(capacity, chunks);
      NoOverflowKeepsMarkers(capacity, chunks);
    }
    if MarkersKept(capacity, chunks) {
      RunKeepsMarkers(capacity, chunks);
    }
  }

  /** One direction of a line: what b has read is what a has written, or the beginning of it. */
  ghost predicate Connected(a: ProtocolHandler, b: ProtocolHandler)
    reads a, b
  {
    Concat(b.past.chunks) <= a.past.written
  }

  /** Where images have at most `limit` bytes, reads that leave room for what may wait do not overflow. */
  lemma SmallReadsSuffice(a: ProtocolHandler, b: ProtocolHandler, limit: nat)
    requires a.Valid() && b.Valid() && Connected(a, b) && SentUpTo(limit, a.log) && limit <= 256
    requires forall c | c in b.past.chunks :: |c| + Pending(limit) <= b.transport.buffer.capacity
    ensures NoOverflow(b.transport.buffer.capacity, FRESH, b.past.chunks)
  {
    hide OnWire, Sound, Run, Received, ReadAll, NoOverflow, SentUpTo, CursorsAt;
    SmallReadsOfWire(b.transport.buffer.capacity, b.past.chunks, a.past.written, limit, a.log);
  }

  /** With the default ring: reads of up to six bytes for any image the sender gets right. */
  lemma DefaultRing(a: ProtocolHandler, b: ProtocolHandler)
    requires a.Valid() && b.Valid() && Connected(a, b) && AllShort(a.log)
    requires b.transport.buffer.capacity == DEFAULT_BUFFER_SIZE && forall c | c in b.past.chunks :: |c| <= 6
    ensures b.transport.buffer.capacity == 251
    ensures NoOverflow(b.transport.buffer.capacity, FRESH, b.past.chunks)
  {
    hide OnWire, Sound, Run, Received, ReadAll, NoOverflow, SentUpTo, CursorsAt;
    SmallReadsSuffice(a, b, 256);
  }

  /**
   From one handler to another, over any pair of runs in which no image written exceeds 256 bytes. The
   frames that have arrived at b, and those its handlers have seen, are subsequences of the frames of
   the messages and answers a has written, whatever reads overflow. If none does, all have arrived,
   in order, as far as their bytes have come.
   */
  lemma EndToEnd(a: ProtocolHandler, b: ProtocolHandler)
    requires a.Valid() && b.Valid() && Connected(a, b) && AllShort(a.log)
    ensures Subsequence(Received(b.past.inputs), FramesIn(a.log))
    ensures Subsequence(HandledIn(b.log), FramesIn(a.log))
    ensures Fit(b.transport.buffer.capacity, b.past.chunks)
    ensures NoOverflow(b.transport.buffer.capacity, FRESH, b.past.chunks) ==>
              && Received(b.past.inputs) <= FramesIn(a.log)
              && (Concat(b.past.chunks) == a.past.written ==> Received(b.past.inputs) == FramesIn(a.log))
  {
    hide OnWire, Sound, Run, Received, ReadAll, NoOverflow, AllShort, FramesIn, Subsequence, HandledIn, CursorsAt;
    var capacity, chunks := b.transport.buffer.capacity, b.past.chunks;
    OnlyWrittenFrames(capacity, chunks, a.past.written, a.log);
    HandledHaveArrived(b.past.inputs);
    SubsequenceTransitive(HandledIn(b.log), Received(b.past.inputs), FramesIn(a.log));
    if NoOverflow(capacity, FRESH, chunks) {
      RingEndToEnd(capacity, chunks, a.past.written, a.log);
    }
  }
}
