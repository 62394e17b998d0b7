/**
 The radio session as the program runs it: one object, updated in place by handlers that call
 each other (`src/flex.c`).  Every method is proved to extend an accepted trace of the machine
 in `Session`, with the fields always equal to the machine's state.

 Time, the stop signal and the success of `send` are nondeterministic; the socket's input is an
 arbitrary finite sequence of wakeups.
 */
module Connection {
  import opened Text
  import opened Policy
  import opened Responses
  import opened Framing
  import opened Session
  import opened SessionSafety
  import opened AntennaList
  import opened StopSignal
  import opened MonotonicClock

  /** The code looks at a value cut to its buffer; for the antenna and the interlock state the
      cut never changes the outcome. */
  lemma TruncationIsHarmless(c: Context, v: string, state: string)
    ensures var cut := Clip(v, 127);
      (if SameText(cut, "INVALID") then c.(hasFrequency := false, antenna := "")
       else if |cut| > MAX_ANTENNA_ID then c.(antenna := "")
       else c.(antenna := cut))
      == (if SameText(v, "INVALID") then c.(hasFrequency := false, antenna := "")
          else if |v| > MAX_ANTENNA_ID then c.(antenna := "")
          else c.(antenna := v))
    ensures forall word :: word in ["PTT_REQUESTED", "UNKEY_REQUESTED", "TRANSMITTING"] ==>
      (Clip(state, 63) == word <==> state == word)
  {
    assert |LowerAll(v)| == |v| && |LowerAll("INVALID")| == 7;
    assert |LowerAll(Clip(v, 127))| == |Clip(v, 127)|;
    forall word | word in ["PTT_REQUESTED", "UNKEY_REQUESTED", "TRANSMITTING"]
      ensures Clip(state, 63) == word <==> state == word
    {
      ClipKeepsShortWord(state, 63, word);
    }
  }

  /** The session is set up: subscribed when observing; when protecting, armed with `not_ready`. */
  predicate SetUp(setup: Setup, s: Client) {
    InService(setup, s) && (setup.observeOnly || (|s.commands| >= 6 && s.commands[5] == Interlock(false, s.id)))
  }

  lemma NextFrame(s: Client, c: Command, frame: string)
    requires frame == FrameText(Low32(s.sequence + 1), c)
    ensures frame == FrameText(Next(s.sequence), c)
    ensures Oversized(s, c) <==> |frame| >= COMMAND_SIZE
  {
  }

  lemma CleanupBeginsOnce(setup: Setup, s: Client)
    requires Enabled(setup, s, Closing)
    ensures !s.closing
  {
  }

  lemma SameRemoved(s: Client, t: Client)
    requires s.commands == t.commands
    ensures Removed(s) == Removed(t)
  {
  }

  /** The settlements have grown by one: this command was answered with success. */
  predicate Success(before: seq<Settlement>, after: seq<Settlement>, issued: Issued) {
    && |after| == |before| + 1 && after[..|before|] == before
    && Last(after).issued == issued && Last(after).response.code == 0
  }

  /** The wait for an answer ended: with success exactly if `ok`, else with another answer or none. */
  predicate Ended(before: seq<Settlement>, after: seq<Settlement>, issued: Issued, ok: bool) {
    if ok then Success(before, after, issued)
    else after == before
         || (|after| == |before| + 1 && after[..|before|] == before && Last(after).response.code != 0)
  }

  class Connection {
    const setup: Setup
    const stop: StopFlag
    const clock: Clock
    const reader: LineReader
    const savedResponses: array<Slot>

    var sequence: nat
    var interlockId: string
    var hasFrequency: bool
    var frequencyMhz: Double
    var txAntenna: string
    var commandInProgress: bool
    var interlockUpdatePending: bool
    var pendingInterlockReady: bool
    var wire: seq<string>           // the frames handed to send, complete or not

    ghost var trace: seq<Event>     // what has happened so far
    ghost var client: Client        // the machine's state after it
    ghost var nestedCommands: nat   // how often the nested-command refusal was reached

    /** The trace is accepted, and tells what was written and whether the stop flag was seen. */
    ghost predicate Traced()
      reads this`trace, this`client, this`wire, stop
    {
      && Accepted(setup, trace) && client == Run(setup, trace)
      && wire == WireTexts(setup, trace)
      && (client.stopped ==> stop.requested)
    }

    /** The fields are the machine's state. */
    ghost predicate Linked()
      reads this, stop, clock, reader, reader.buffer, savedResponses
    {
      && reader.Valid() && Traced()
      && sequence == client.sequence < 0x1_0000_0000
      && interlockId == client.id && |interlockId| < INTERLOCK_ID
      && (interlockId != "" ==> !setup.observeOnly)
      && savedResponses[..] == client.cache
    }

    ghost function FieldContext(): Context
      reads this
    {
      Context(hasFrequency, frequencyMhz, txAntenna)
    }

    /** Every line read has been dealt with. */
    ghost predicate InStep()
      reads this, reader
    {
      client.context == FieldContext() && client.heard == reader.delivered
    }

    /** `line` has been read and not dealt with yet. */
    ghost predicate Holding(line: string)
      reads this, reader
    {
      client.context == FieldContext() && client.heard + [line] == reader.delivered
    }

    /** The pending flag and its value say what the client owes. */
    ghost predicate Synced()
      reads this
    {
      && (interlockUpdatePending <==> client.owed.Some?)
      && (interlockUpdatePending ==> client.owed == Some(pendingInterlockReady))
    }

    /** Between commands, with nothing deferred. */
    ghost predicate AtRest()
      reads this
    {
      && !commandInProgress && client.waiting.None? && !client.broken && !client.closing
      && !interlockUpdatePending
    }

    /** Look at the stop flag, and note it when it is set. */
    method CheckStop() returns (stopping: bool)
      requires Traced() && !client.closing
      modifies this`trace, this`client, stop
      ensures Traced() && old(trace) <= trace && (old(stop.requested) ==> stop.requested)
      ensures client == old(client).(stopped := client.stopped) && client.stopped == stopping
      ensures stopping == stop.requested
    {
      hide LineReader.Valid, WireTexts, Accepted, Run;
      stopping := stop.Poll();
      if stopping {
        Record(StopSeen);
      }
    }

    /** Between commands; only a stop request leaves an update deferred. */
    ghost predicate Drained()
      reads this
    {
      && !commandInProgress && client.waiting.None? && !client.broken && !client.closing
      && Synced() && (interlockUpdatePending ==> client.stopped)
    }

    constructor (setup: Setup, input: seq<Wakeup>)
      ensures Linked() && InStep() && AtRest() && trace == [] && wire == [] && client == START && nestedCommands == 0
      ensures this.setup == setup && reader.input == input && reader.Open()
      ensures fresh(stop) && fresh(clock) && fresh(reader) && fresh(reader.buffer) && fresh(savedResponses)
    {
      hide Step, Enabled, LinesOf, Stream, TooLong, Arriving;
      this.setup := setup;
      stop := new StopFlag();
      clock := new Clock();
      reader := new LineReader(input);
      savedResponses := new Slot[SAVED_RESPONSES](_ => NO_SLOT);
      sequence, interlockId := 0, "";
      hasFrequency, frequencyMhz, txAntenna := false, Finite(0.0), "";
      commandInProgress, interlockUpdatePending, pendingInterlockReady := false, false, false;
      trace, client, nestedCommands, wire := [], START, 0, [];
    }

    /** What the client owes the radio is what this command delivers. */
    ghost predicate OwesOnly(command: Command)
      reads this
    {
      client.owed == if command.Interlock? then Some(command.ready) else None
    }

    /** Note an event in the trace. */
    ghost method Record(e: Event)
      requires Accepted(setup, trace) && client == Run(setup, trace) && Enabled(setup, client, e)
      modifies this`trace, this`client
      ensures Accepted(setup, trace) && client == Run(setup, trace)
      ensures trace == old(trace) + [e] && client == Step(setup, old(client), e)
      ensures WireTexts(setup, trace)
           == old(WireTexts(setup, trace)) + if e.Wrote? then [FrameText(client.sequence, e.command)] else []
    {
      hide WireTexts, FrameText;
      RunSnoc(setup, trace, e);
      WireSnoc(setup, trace, e);
      trace := trace + [e];
      client := Step(setup, client, e);
    }

    /** `accept_response`. */
    method AcceptResponse(response: Response) returns (ok: bool, body: string)
      ensures ok <==> response.code == 0
      ensures ok ==> body == Clip(response.body, RESPONSE_BODY)
    {
      if response.code != 0 {
        return false, "";
      }
      return true, Clip(response.body, RESPONSE_BODY);
    }

    // What every handler leaves behind.  While a command is in progress it only updates fields;
    // between commands it may run commands, and afterwards nothing is deferred unless stopping.
    twostate predicate Reacted(ok: bool)
      reads this, stop, clock, reader, reader.buffer, savedResponses
    {
      && Linked() && InStep()
      && commandInProgress == old(commandInProgress)
      && nestedCommands == old(nestedCommands) && old(trace) <= trace
      && client.id == old(client.id)
      && (old(stop.requested) ==> stop.requested)
      && (!commandInProgress && ok ==> Drained())
      && (!commandInProgress && !ok ==> client.broken && client.waiting.None? && !client.closing)
      && (setup.observeOnly ==> client.commands == old(client.commands))
      && (old(reader.Open()) && ok ==> reader.Open())
    }

    method HandleStatus(line: string) returns (ok: bool)
      requires Linked() && Holding(line)
      requires client.waiting.Some? ==> ParseResponse(CText(line)).None?
      requires Enabled(setup, client, Heard(line))
      requires commandInProgress == client.waiting.Some?
      requires !commandInProgress ==> AtRest()
      modifies this, stop, clock, reader, reader.buffer, savedResponses
      decreases if commandInProgress then 0 else 1, 5
      ensures Reacted(ok) && reader.Budget() <= old(reader.Budget())
      ensures old(commandInProgress) ==> ok && client == HearStatus(setup, old(client).(heard := reader.delivered), CText(line))
      ensures old(commandInProgress) && old(Synced()) ==> Synced()
      ensures old(commandInProgress) ==> unchanged(clock) && unchanged(reader) && unchanged(reader.buffer) && unchanged(savedResponses)
    {
      hide Traced, LineReader.Valid, WireTexts, Accepted, Run, ParseResponse, CText, Classify;
      match Classify(CText(line)) {
        case Transmit(fields) => ok := HandleTransmit(fields, line);
        case InterlockState(fields) => ok := HandleInterlock(fields, line);
        case Other =>
          NoteStatus(line);
          ok := true;
      }
    }

    /** The wait for an answer is given up. */
    ghost method NoteAbandoned(reason: Excuse)
      requires Linked() && InStep() && client.waiting.Some? && MayAbandon(client, reason)
      modifies this`trace, this`client
      ensures trace == old(trace) + [Abandoned(reason)]
      ensures Linked() && InStep()
      ensures client == old(client).(waiting := None, broken := true) && old(trace) <= trace
    {
      hide LineReader.Valid, WireTexts, Accepted, Run;
      Record(Abandoned(reason));
    }

    /** A status line has been applied to the fields; note it in the trace. */
    ghost method NoteStatus(line: string)
      requires Linked() && client.heard + [line] == reader.delivered
      requires FieldContext() == NextContext(setup, client.context, CText(line))
      requires client.waiting.Some? ==> ParseResponse(CText(line)).None?
      requires Enabled(setup, client, Heard(line))
      modifies this`trace, this`client
      ensures Linked() && InStep() && old(trace) <= trace
      ensures client == HearStatus(setup, old(client).(heard := reader.delivered), CText(line))
    {
      hide LineReader.Valid, WireTexts, Accepted, Run, ParseResponse, CText, NextContext, Asked;
      Record(Heard(line));
    }

    method HandleTransmit(fields: string, ghost line: string) returns (ok: bool)
      requires Linked() && Holding(line) && Classify(CText(line)) == Transmit(fields)
      requires client.waiting.Some? ==> ParseResponse(CText(line)).None?
      requires Enabled(setup, client, Heard(line))
      requires commandInProgress == client.waiting.Some?
      requires !commandInProgress ==> AtRest()
      modifies this, stop, clock, reader, reader.buffer, savedResponses
      decreases if commandInProgress then 0 else 1, 4
      ensures Reacted(ok) && reader.Budget() <= old(reader.Budget())
      ensures old(commandInProgress) ==> ok && client == HearStatus(setup, old(client).(heard := reader.delivered), CText(line))
      ensures old(commandInProgress) && old(Synced()) ==> Synced()
      ensures old(commandInProgress) ==> unchanged(clock) && unchanged(reader) && unchanged(reader.buffer) && unchanged(savedResponses)
    {
      hide Traced, LineReader.Valid, WireTexts, Accepted, Run, ParseResponse, CText, Classify, Permits, AfterTransmit;
      UpdateContext(fields);
      var decision := Evaluate(setup.policy, hasFrequency, frequencyMhz, txAntenna);
      NoteStatus(line);
      if !decision.allowed && interlockId != "" {
        ok := SetInterlock(false);
      } else {
        ok := true;
      }
    }

    /** The first part of `handle_transmit`. */
    method UpdateContext(fields: string)
      modifies this`hasFrequency, this`frequencyMhz, this`txAntenna
      ensures FieldContext() == AfterTransmit(setup, old(FieldContext()), fields)
    {
      var value := LenientField(fields, "freq", 128);
      if value.Some? {
        var number := setup.strtod(value.value);
        frequencyMhz := number.value;
        hasFrequency := number.complete;
      }
      ghost var between := FieldContext();
      value := LenientField(fields, "tx_antenna", 128);
      if value.Some? {
        TruncationIsHarmless(between, Lookup(fields, "tx_antenna").value, "");
        if SameText(value.value, "INVALID") {
          hasFrequency := false;
          txAntenna := "";
        } else if |value.value| > MAX_ANTENNA_ID {
          txAntenna := "";
        } else {
          txAntenna := value.value;
        }
      }
    }

    method HandleInterlock(fields: string, ghost line: string) returns (ok: bool)
      requires Linked() && Holding(line) && Classify(CText(line)) == InterlockState(fields)
      requires client.waiting.Some? ==> ParseResponse(CText(line)).None?
      requires Enabled(setup, client, Heard(line))
      requires commandInProgress == client.waiting.Some?
      requires !commandInProgress ==> AtRest()
      modifies this, stop, clock, reader, reader.buffer, savedResponses
      decreases if commandInProgress then 0 else 1, 4
      ensures Reacted(ok) && reader.Budget() <= old(reader.Budget())
      ensures old(commandInProgress) ==> ok && client == HearStatus(setup, old(client).(heard := reader.delivered), CText(line))
      ensures old(commandInProgress) && old(Synced()) ==> Synced()
      ensures old(commandInProgress) ==> unchanged(clock) && unchanged(reader) && unchanged(reader.buffer) && unchanged(savedResponses)
    {
      hide Traced, LineReader.Valid, WireTexts, Accepted, Run, ParseResponse, CText, Classify, StateAsk;
      var request := InterlockRequest(fields);
      NoteStatus(line);
      if request.Some? {
        ok := SetInterlock(request.value);
      } else {
        ok := true;
      }
    }

    /** The branches of `handle_interlock`: the state that the line asks for. */
    method InterlockRequest(fields: string) returns (request: Option<bool>)
      ensures request == match StateAsk(setup, FieldContext(), fields)
                         case Some(ask) =>
                           if setup.observeOnly && !ask.cause.PttRequested? then None else Some(ask.ready)
                         case None => None
    {
      hide Lookup, Permits;
      var state := LenientField(fields, "state", 64);
      if state.None? {
        return None;
      }
      TruncationIsHarmless(FieldContext(), "", Lookup(fields, "state").value);
      if state.value == "PTT_REQUESTED" {
        var decision := Evaluate(setup.policy, hasFrequency, frequencyMhz, txAntenna);
        return Some(decision.allowed);
      }
      if state.value == "UNKEY_REQUESTED" {
        return if setup.observeOnly then None else Some(false);
      }
      if state.value == "TRANSMITTING" {
        var decision := Evaluate(setup.policy, hasFrequency, frequencyMhz, txAntenna);
        if !decision.allowed {
          return if setup.observeOnly then None else Some(false);
        }
      }
      return None;
    }

    /** Either the update is deferred, or it is sent at once. */
    method SetInterlock(ready: bool) returns (ok: bool)
      requires Linked() && InStep()
      requires interlockId != "" ==> client.owed == Some(ready)
      requires commandInProgress == client.waiting.Some?
      requires !commandInProgress ==> AtRest() && (interlockId == "" ==> client.owed.None?)
      modifies this, stop, clock, reader, reader.buffer, savedResponses
      decreases if commandInProgress then 0 else 1, 3
      ensures Reacted(ok) && reader.Budget() <= old(reader.Budget())
      ensures old(commandInProgress) ==> ok && client == old(client) && trace == old(trace)
      ensures !old(commandInProgress) && ok && client.id != "" ==>
        old(client.commands) + [Interlock(ready, client.id)] <= client.commands
      ensures old(commandInProgress) && (interlockId != "" || old(Synced())) ==> Synced()
      ensures old(commandInProgress) ==> unchanged(clock) && unchanged(reader) && unchanged(reader.buffer) && unchanged(savedResponses)
    {
      hide Traced, LineReader.Valid, WireTexts, Accepted, Run;
      if setup.observeOnly || interlockId == "" {
        return true;
      }
      if commandInProgress {
        interlockUpdatePending := true;
        pendingInterlockReady := ready;
        return true;
      }
      var body;
      ok, body := SendCommand(Interlock(ready, interlockId), false);
    }

    /** The first half of `send_command_once`: take the next number and write the frame. */
    method Issue(command: Command, cleanup: bool) returns (sent: bool)
      requires Linked() && InStep() && MayIssue(setup, client, command)
      requires cleanup == command.Remove? == client.closing
      requires !cleanup ==> !client.broken && OwesOnly(command)
      modifies this`sequence, this`wire, this`trace, this`client, stop
      ensures Linked() && InStep()
      ensures sequence == Low32(old(sequence) + 1) && client.settled == old(client.settled)
      ensures wire == old(wire)
        + if cleanup || (!stop.requested && |FrameText(sequence, command)| < COMMAND_SIZE)
          then [FrameText(sequence, command)] else []
      ensures client.id == old(client.id) && client.closing == old(client.closing)
      ensures old(stop.requested) ==> stop.requested
      ensures client.commands == old(client.commands) + [command] || (!sent && !cleanup && client.commands == old(client.commands))
      ensures client.grant == old(client.grant) && old(trace) <= trace
      ensures sent ==> client.waiting == Some(Issued(sequence, command))
      ensures sent && !cleanup ==> !client.broken && client.owed.None?
      ensures !sent ==> client.waiting.None? && client.broken
      ensures !sent ==> trace != [] && Last(trace) in [Wrote(command, false), Refused(command)]
      ensures !sent && Last(trace).Refused? ==> stop.requested || |FrameText(sequence, command)| >= COMMAND_SIZE
    {
      hide LineReader.Valid, LineReader.Open, Traced, FrameText, MayIssue, Oversized;
      sequence := Low32(sequence + 1);
      ghost var before := client;
      StopKeepsNext(setup, before, client, command);
      if !cleanup {
        var stopping := CheckStop();
        StopKeepsNext(setup, before, client, command);
        if stopping {
          NoteRefused(command);
          return false;
        }
      }
      var frame := FrameText(sequence, command);
      NextFrame(client, command, frame);
      if |frame| >= COMMAND_SIZE {
        if cleanup {
          InterlockFrameFits(sequence, command);
          assert false;
        }
        NoteRefused(command);
        return false;
      }
      sent := Send(command, frame);
    }

    /** The frame is not written. */
    ghost method NoteRefused(command: Command)
      requires Traced() && MayIssue(setup, client, command) && !command.Remove?
      requires client.stopped || Oversized(client, command)
      modifies this`trace, this`client
      ensures Traced() && trace == old(trace) + [Refused(command)]
      ensures client == old(client).(sequence := Next(old(client).sequence), broken := true)
    {
      hide Accepted, Run, WireTexts, MayIssue, Oversized, FrameText;
      Record(Refused(command));
    }

    /** `send_all`: the frame is handed to the socket, which may fail. */
    method Send(command: Command, frame: string) returns (sent: bool)
      requires Traced() && MayIssue(setup, client, command) && !Oversized(client, command)
      requires client.stopped ==> command.Remove?
      requires frame == FrameText(Next(client.sequence), command)
      modifies this`wire, this`trace, this`client
      ensures Traced() && trace == old(trace) + [Wrote(command, sent)] && wire == old(wire) + [frame]
      ensures client == Write(old(client), command, sent)
    {
      hide Accepted, Run, WireTexts, MayIssue, Oversized, FrameText;
      wire := wire + [frame];
      sent := *;
      Record(Wrote(command, sent));
    }

    // What one turn of the waiting loop leaves behind: the wait is over and `ok` says how it
    // ended, or it goes on.
    twostate predicate Turned(command: Command, done: bool, ok: bool, body: string)
      reads this, stop, clock, reader, reader.buffer, savedResponses
    {
      && Linked() && InStep() && commandInProgress && nestedCommands == old(nestedCommands) && old(trace) <= trace
      && client.id == old(client.id) && client.closing == old(client.closing)
      && client.commands == old(client.commands)
      && (old(stop.requested) ==> stop.requested)
      && (old(Synced()) ==> Synced())
      && (if done then client.waiting.None?
          else client.waiting == Some(Issued(sequence, command)) && client.broken == old(client.broken))
      && (done && !old(client.broken) ==> (ok <==> !client.broken))
      && (done && ok && command.Create? ==> body == client.grant)
      && (done ==> interlockUpdatePending == old(interlockUpdatePending))
      && (!command.Create? ==> client.grant == old(client.grant))
      && sequence == old(sequence) && client.stopped == old(client.stopped)
      && (if done then Ended(old(client.settled), client.settled, Issued(sequence, command), ok)
          else client.settled == old(client.settled))
      && (old(reader.Open()) && (!done || ok) ==> reader.Open())
    }

    /** The answer may already be in the cache. */
    method TakeCached(command: Command) returns (found: bool, ok: bool, body: string)
      requires Linked() && InStep() && commandInProgress
      requires client.waiting == Some(Issued(sequence, command)) && (client.stopped ==> client.closing)
      modifies this`trace, this`client, savedResponses
      ensures Turned(command, found, ok, body)
      ensures !found ==> client == old(client) && !Cached(client)
      ensures found ==> |client.settled| == |old(client.settled)| + 1
      ensures found <==> FirstMatch(old(savedResponses[..]), sequence) < savedResponses.Length
      ensures savedResponses[..] == Taken(old(savedResponses[..]), sequence)
    {
      hide LineReader.Valid, WireTexts, Accepted, Run, Clip, FirstMatch, MayIssue, CText, ParseResponse;
      var taken := TakeResponse(savedResponses, sequence);
      if taken.None? {
        return false, false, "";
      }
      Record(Recalled);
      ok, body := AcceptResponse(taken.value);
      return true, ok, body;
    }

    /** One turn of the waiting loop: the cached answer, a timeout, a lost connection, or a line. */
    method TakeTurn(command: Command, issued: int) returns (done: bool, ok: bool, body: string)
      requires Linked() && InStep() && commandInProgress
      requires client.waiting == Some(Issued(sequence, command)) && (client.stopped ==> client.closing)
      modifies this, stop, clock, reader, reader.buffer, savedResponses
      decreases 0, 8
      ensures Turned(command, done, ok, body) && old(clock.now) <= clock.now
      ensures reader.Budget() <= old(reader.Budget())
      ensures !done ==> reader.Budget() < old(reader.Budget())
      // Without an answer the wait ends only when its time is over, or the reader has no line to give.
      ensures done && client.settled == old(client.settled) ==>
        trace != []
        && ((Last(trace) == Abandoned(DeadlinePassed(issued, clock.now)) && clock.now >= issued + COMMAND_TIMEOUT)
            || Last(trace) == Abandoned(NothingRead))
      ensures done && client.settled == old(client.settled) && Last(trace) == Abandoned(NothingRead) ==> GaveNothing()
    {
      hide Traced, LineReader.Valid, LineReader.Open, WireTexts, Accepted, Run, FirstMatch, MayIssue, Success;
      var now := clock.Read();
      done, ok, body := TakeCached(command);
      if done {
        return;
      }
      if now >= issued + COMMAND_TIMEOUT {
        NoteAbandoned(DeadlinePassed(issued, now));
        return true, false, "";
      }
      done, ok, body := TakeRead(command);
    }

    /** The reader was asked, and has no line to give: the input holds none, or the connection is
        lost, or the buffer is full. */
    twostate predicate GaveNothing()
      reads this, reader, reader.buffer
    {
      && reader.buffer.Length == LINE_BUFFER && reader.length <= LINE_BUFFER
      && reader.delivered == old(reader.delivered) && '\n' !in reader.buffer[..reader.length]
      && (reader.Budget() < old(reader.Budget()) || Closes(Woken(old(reader.incoming))) || reader.length == LINE_BUFFER)
    }

    /** Read a line, if there is one. */
    method TakeRead(command: Command) returns (done: bool, ok: bool, body: string)
      requires Linked() && InStep() && commandInProgress && !Cached(client)
      requires client.waiting == Some(Issued(sequence, command)) && (client.stopped ==> client.closing)
      modifies this, stop, clock, reader, reader.buffer, savedResponses
      decreases 0, 7
      ensures Turned(command, done, ok, body) && clock.now == old(clock.now)
      ensures reader.Budget() <= old(reader.Budget())
      ensures !done ==> reader.Budget() < old(reader.Budget())
      ensures done && client.settled == old(client.settled) ==>
        trace != [] && Last(trace) == Abandoned(NothingRead) && GaveNothing()
    {
      hide Traced, LineReader.Open, LinesOf, Stream, Weight, WireTexts, Accepted, Run, ParseResponse, CText, Clip, FirstMatch, MayIssue, Success;
      var result := reader.ReadLine(LINE_BUFFER);
      if !result.Line? {
        assert result.Lost? ==> result.loss.BufferFull? || result.loss.Disconnected? || result.loss.LineTooLarge?;
        NoteAbandoned(NothingRead);
        return true, false, "";
      }
      done, ok, body := TakeLine(command, result.text);
    }

    /** A line read while a command is waiting: a response or a status. */
    method TakeLine(command: Command, line: string) returns (done: bool, ok: bool, body: string)
      requires Linked() && Holding(line) && commandInProgress
      requires client.waiting == Some(Issued(sequence, command)) && !Cached(client) && (client.stopped ==> client.closing)
      modifies this, stop, clock, reader, reader.buffer, savedResponses
      decreases 0, 6
      ensures Turned(command, done, ok, body)
      ensures reader.Budget() == old(reader.Budget()) && clock.now == old(clock.now)
      ensures done ==> |client.settled| == |old(client.settled)| + 1
    {
      hide Traced, LineReader.Valid, WireTexts, Accepted, Run, ParseResponse, CText, Classify, Asked, NextContext, MayIssue;
      var response := ParseResponse(CText(line));
      if response.Some? {
        done, ok, body := TakeResponseLine(command, line, response.value);
        return;
      }
      var handled := HandleStatus(line);
      // While a command is in progress a status line cannot fail, so the early return that the
      // source has for that case is never taken.
      assert handled;
      return false, false, "";
    }

    /** A response has been read; note it in the trace. */
    ghost method NoteResponse(line: string, response: Response)
      requires Traced()
      requires client.waiting.Some? && Enabled(setup, client, Heard(line))
      requires client.heard + [line] == reader.delivered && ParseResponse(CText(line)) == Some(response)
      modifies this`trace, this`client
      ensures Traced() && old(trace) <= trace && client == HearResponse(old(client).(heard := reader.delivered), response)
    {
      hide WireTexts, Accepted, Run, ParseResponse, CText, FirstFree, Saved, Clip;
      Record(Heard(line));
    }

    /** The answer ends the wait; any other response goes to the cache. */
    method TakeResponseLine(command: Command, line: string, response: Response) returns (done: bool, ok: bool, body: string)
      requires Linked() && Holding(line) && commandInProgress
      requires client.waiting == Some(Issued(sequence, command)) && !Cached(client) && (client.stopped ==> client.closing)
      requires ParseResponse(CText(line)) == Some(response)
      modifies this`trace, this`client, savedResponses
      ensures Turned(command, done, ok, body)
      ensures done <==> response.sequence == sequence
      ensures done ==> (ok <==> response.code == 0) && |client.settled| == |old(client.settled)| + 1
      ensures savedResponses[..] == if done then old(savedResponses[..]) else Saved(old(savedResponses[..]), response)
    {
      hide Traced, LineReader.Valid, LineReader.Open, WireTexts, Accepted, Run, ParseResponse, CText, Clip, HearResponse, FirstFree, FirstMatch, MayIssue;
      HearResponseCases(client.(heard := reader.delivered), response);
      if response.sequence != sequence {
        SaveResponse(savedResponses, response);
        NoteResponse(line, response);
        return false, false, "";
      }
      NoteResponse(line, response);
      ok, body := AcceptResponse(response);
      return true, ok, body;
    }

    /** Why a command has failed that was not answered: the last event tells. */
    ghost predicate GivenUp(command: Command, start: int)
      reads this, stop, clock
    {
      trace != []
      && match Last(trace)
         case Refused(c) => c == command && (stop.requested || |FrameText(sequence, c)| >= COMMAND_SIZE)
         case Wrote(c, complete) => c == command && !complete
         case Abandoned(StopRequested) => stop.requested
         case Abandoned(DeadlinePassed(issued, now)) => start <= issued && issued + COMMAND_TIMEOUT <= now == clock.now
         case Abandoned(NothingRead) => true
         case _ => false
    }

    method SendCommandOnce(command: Command, cleanup: bool) returns (ok: bool, body: string)
      requires Linked() && InStep() && commandInProgress && MayIssue(setup, client, command)
      requires cleanup == command.Remove? == client.closing
      requires !cleanup ==> !interlockUpdatePending && !client.broken && OwesOnly(command)
      modifies this, stop, clock, reader, reader.buffer, savedResponses
      decreases 0, 10
      ensures Linked() && InStep() && commandInProgress && client.waiting.None?
      ensures client.id == old(client.id) && client.closing == old(client.closing)
      ensures nestedCommands == old(nestedCommands) && old(trace) <= trace
      ensures old(stop.requested) ==> stop.requested
      ensures client.commands == old(client.commands) + [command] || (!ok && !cleanup && client.commands == old(client.commands))
      ensures !cleanup ==> (ok <==> !client.broken)
      ensures !cleanup && ok ==> Synced()
      ensures ok && command.Create? ==> body == client.grant
      ensures !command.Create? ==> client.grant == old(client.grant)
      ensures reader.Budget() <= old(reader.Budget())
      ensures !cleanup && ok && interlockUpdatePending ==> reader.Budget() < old(reader.Budget())
      ensures sequence == Low32(old(sequence) + 1)
      ensures Ended(old(client.settled), client.settled, Issued(sequence, command), ok)
      ensures old(reader.Open()) && ok ==> reader.Open()
      ensures old(clock.now) <= clock.now
      ensures !ok && client.settled == old(client.settled) ==> GivenUp(command, old(clock.now))
    {
      hide Traced, LineReader.Valid, LineReader.Open, WireTexts, Accepted, Run, MayIssue, FrameText, Oversized, NoUsableId, Cached, Success, GaveNothing, Drained, AtRest, Starting, Idle;
      var issued := clock.Read();
      var sent := Issue(command, cleanup);
      if !sent {
        return false, "";
      }
      ok, body := AwaitAnswer(command, cleanup, issued);
    }

    /** The waiting loop of `send_command_once`. */
    method AwaitAnswer(command: Command, cleanup: bool, issued: int) returns (ok: bool, body: string)
      requires Linked() && InStep() && commandInProgress && client.waiting == Some(Issued(sequence, command))
      requires cleanup == command.Remove? == client.closing
      requires !cleanup ==> !interlockUpdatePending && !client.broken && client.owed.None?
      requires issued <= clock.now
      modifies this, stop, clock, reader, reader.buffer, savedResponses
      decreases 0, 9
      ensures Linked() && InStep() && commandInProgress && client.waiting.None?
      ensures client.id == old(client.id) && client.closing == old(client.closing) && sequence == old(sequence)
      ensures nestedCommands == old(nestedCommands) && old(trace) <= trace
      ensures old(stop.requested) ==> stop.requested
      ensures client.commands == old(client.commands)
      ensures !cleanup ==> (ok <==> !client.broken)
      ensures !cleanup && ok ==> Synced()
      ensures ok && command.Create? ==> body == client.grant
      ensures !command.Create? ==> client.grant == old(client.grant)
      ensures reader.Budget() <= old(reader.Budget())
      ensures !cleanup && ok && interlockUpdatePending ==> reader.Budget() < old(reader.Budget())
      ensures Ended(old(client.settled), client.settled, Issued(sequence, command), ok)
      ensures old(reader.Open()) && ok ==> reader.Open()
      ensures old(clock.now) <= clock.now
      ensures !ok && client.settled == old(client.settled) ==> GivenUp(command, issued)
    {
      hide Traced, LineReader.Valid, LineReader.Open, WireTexts, Accepted, Run, MayIssue, FrameText, NoUsableId, Cached, Success, GaveNothing;
      while true
        invariant Linked() && InStep() && commandInProgress
        invariant client.waiting == Some(Issued(sequence, command))
        invariant client.commands == old(client.commands) && client.settled == old(client.settled)
        invariant sequence == old(sequence) && old(clock.now) <= clock.now
        invariant old(reader.Open()) ==> reader.Open()
        invariant !command.Create? ==> client.grant == old(client.grant)
        invariant client.id == old(client.id) && client.closing == old(client.closing)
        invariant nestedCommands == old(nestedCommands) && old(trace) <= trace
        invariant old(stop.requested) ==> stop.requested
        invariant !cleanup ==> Synced() && !client.broken
        invariant reader.Budget() <= old(reader.Budget())
        invariant !cleanup && interlockUpdatePending ==> reader.Budget() < old(reader.Budget())
        decreases reader.Budget()
      {
        if !cleanup {
          var stopping := CheckStop();
          if stopping {
            NoteAbandoned(StopRequested);
            return false, "";
          }
        }
        var done;
        done, ok, body := TakeTurn(command, issued);
        if done {
          return;
        }
      }
    }

    /** What is owed may be issued as soon as no command is waiting. */
    lemma OwedMayBeIssued()
      requires Linked() && client.waiting.None? && !client.broken && !client.closing && client.owed.Some?
      ensures interlockId != "" && MayIssue(setup, client, Interlock(client.owed.value, interlockId))
    {
      DeferralRefinesImmediateReaction(setup, trace);
    }

    method SendCommand(command: Command, cleanup: bool) returns (ok: bool, body: string)
      requires Linked() && InStep()
      requires !commandInProgress ==> MayIssue(setup, client, command)
      requires !commandInProgress ==> cleanup == command.Remove? == client.closing
      requires !commandInProgress && !cleanup ==> !interlockUpdatePending && !client.broken && OwesOnly(command)
      modifies this, stop, clock, reader, reader.buffer, savedResponses
      decreases 1, 2
      ensures Linked() && InStep()
      ensures old(commandInProgress) ==> !ok && commandInProgress && trace == old(trace) && nestedCommands == old(nestedCommands) + 1
      ensures !old(commandInProgress) ==> !commandInProgress && client.waiting.None? && nestedCommands == old(nestedCommands)
      ensures client.id == old(client.id) && client.closing == old(client.closing)
      ensures old(stop.requested) ==> stop.requested
      ensures old(trace) <= trace
      ensures !old(commandInProgress) && cleanup ==> client.commands == old(client.commands) + [command]
      ensures !old(commandInProgress) && !cleanup ==> (ok <==> !client.broken)
      ensures !old(commandInProgress) && !cleanup && ok ==> Drained()
      ensures !old(commandInProgress) && !cleanup && ok && client.id == "" ==>
        client.commands == old(client.commands) + [command] && !interlockUpdatePending
      ensures !old(commandInProgress) && !cleanup && client.id == "" ==>
        client.commands == old(client.commands) + [command] || (!ok && client.commands == old(client.commands))
      ensures !old(commandInProgress) && ok && command.Create? ==> body == client.grant
      ensures reader.Budget() <= old(reader.Budget())
      ensures var issued := Issued(Low32(old(sequence) + 1), command);
        && (!old(commandInProgress) && cleanup ==> Ended(old(client.settled), client.settled, issued, ok))
        && (ok ==> |client.settled| > |old(client.settled)|)
        && (ok ==> Success(old(client.settled), client.settled[..|old(client.settled)| + 1], issued))
      ensures ok ==> old(client.commands) + [command] <= client.commands
      ensures old(reader.Open()) && ok ==> reader.Open()
    {
      hide Traced, LineReader.Valid, WireTexts, Accepted, Run, MayIssue;
      if commandInProgress {
        nestedCommands := nestedCommands + 1;
        return false, "";
      }
      commandInProgress := true;
      ok, body := SendCommandOnce(command, cleanup);
      commandInProgress := false;
      if !ok || cleanup {
        return;
      }
      ghost var settled := client.settled;
      ok := Drain();
      if ok {
        assert client.settled[..|settled|] == settled;
      }
    }

    /** The second half of `send_command`: write what was deferred meanwhile, until nothing is.
        Each round either reads a line or leaves nothing pending, so the loop ends. */
    method Drain() returns (ok: bool)
      requires Linked() && InStep() && !commandInProgress && client.waiting.None?
      requires !client.broken && !client.closing && Synced()
      modifies this, stop, clock, reader, reader.buffer, savedResponses
      decreases 1, 1
      ensures Linked() && InStep() && !commandInProgress && client.waiting.None?
      ensures client.id == old(client.id) && !client.closing && client.grant == old(client.grant)
      ensures nestedCommands == old(nestedCommands) && old(trace) <= trace
      ensures old(stop.requested) ==> stop.requested
      ensures if ok then Drained() else client.broken
      ensures client.id == "" ==> ok && client.commands == old(client.commands) && !interlockUpdatePending
      ensures reader.Budget() <= old(reader.Budget())
      ensures ok ==> old(client.settled) <= client.settled && old(client.commands) <= client.commands
      ensures old(reader.Open()) && ok ==> reader.Open()
    {
      hide LineReader.Valid, LineReader.Open, WireTexts, Accepted, Run, MayIssue, FrameText, Oversized, NoUsableId;
      ok := true;
      while interlockUpdatePending
        invariant Linked() && InStep() && !commandInProgress && client.waiting.None?
        invariant ok && !client.broken && !client.closing && Synced()
        invariant client.id == old(client.id) && client.grant == old(client.grant)
        invariant nestedCommands == old(nestedCommands) && old(trace) <= trace
        invariant old(stop.requested) ==> stop.requested
        invariant client.id == "" ==> client.commands == old(client.commands)
        invariant old(reader.Open()) ==> reader.Open()
        invariant reader.Budget() <= old(reader.Budget())
        decreases reader.Budget(), interlockUpdatePending
      {
        OwedMayBeIssued();
        var stopping := CheckStop();
        if stopping {
          break;
        }
        ok := SendPending();
        if !ok {
          return;
        }
      }
      HistoryGrows(setup, old(trace), trace);
    }

    /** Write the pending update, which is up to date however often it was changed. */
    method SendPending() returns (ok: bool)
      requires Linked() && InStep() && !commandInProgress && client.waiting.None?
      requires !client.broken && !client.closing && Synced() && interlockUpdatePending
      modifies this, stop, clock, reader, reader.buffer, savedResponses
      decreases 1, 0
      ensures Linked() && InStep() && !commandInProgress && client.waiting.None?
      ensures client.id == old(client.id) && client.id != "" && !client.closing && client.grant == old(client.grant)
      ensures nestedCommands == old(nestedCommands) && old(trace) <= trace
      ensures old(stop.requested) ==> stop.requested
      ensures if ok then !client.broken && Synced() else client.broken
      ensures ok ==> client.commands == old(client.commands) + [Interlock(old(client.owed).value, client.id)]
      ensures reader.Budget() <= old(reader.Budget())
      ensures ok && interlockUpdatePending ==> reader.Budget() < old(reader.Budget())
      ensures old(reader.Open()) && ok ==> reader.Open()
    {
      hide Traced, LineReader.Valid, LineReader.Open, WireTexts, Accepted, Run, MayIssue, Success;
      OwedMayBeIssued();
      var ready := pendingInterlockReady;
      interlockUpdatePending := false;
      commandInProgress := true;
      var body;
      ok, body := SendCommandOnce(Interlock(ready, interlockId), false);
      commandInProgress := false;
    }

    /** The antenna list of the create command, as `snprintf` builds it in a bounded buffer. */
    method JoinAntennas() returns (list: Option<string>)
      ensures list == if |CommaJoined(Ids(setup.policy))| < ANTENNA_LIST then Some(CommaJoined(Ids(setup.policy))) else None
    {
      var antennas := "";
      var index := 0;
      var ids := Ids(setup.policy);
      assert ids[..0] == [];
      while index < |setup.policy|
        invariant 0 <= index <= |setup.policy|
        invariant antennas == CommaJoined(ids[..index]) && |antennas| < ANTENNA_LIST
      {
        var piece := (if index == 0 then "" else ",") + setup.policy[index].id;
        JoinedGrows(ids, index);
        if |piece| >= ANTENNA_LIST - |antennas| {
          JoinedOnlyGrows(ids, index + 1);
          return None;
        }
        antennas := antennas + piece;
        index := index + 1;
      }
      assert ids[..index] == ids;
      return Some(antennas);
    }

    /** The first half of `initialize_session`: introduce the client and subscribe. */
    method Subscribe() returns (ok: bool)
      requires Linked() && InStep() && AtRest() && client == START
      modifies this, stop, clock, reader, reader.buffer, savedResponses
      ensures Linked() && InStep() && !commandInProgress && client.waiting.None? && !client.closing
      ensures nestedCommands == old(nestedCommands) && old(trace) <= trace && client.id == ""
      ensures old(stop.requested) ==> stop.requested
      ensures ok ==> AtRest() && client.owed.None? && |client.commands| == 4
      ensures old(reader.Open()) && ok ==> reader.Open()
      ensures !ok ==> client.broken && |client.commands| <= 4
    {
      hide Traced, LineReader.Valid, LineReader.Open, WireTexts, Accepted, Run, Success, Ended, FrameText, CommandText;
      var body;
      ok, body := SendCommand(Name, false);
      if ok {
        ok, body := SendCommand(SubRadio, false);
      }
      if ok {
        ok, body := SendCommand(SubSlice, false);
      }
      if ok {
        ok, body := SendCommand(SubTx, false);
      }
    }

    /** The second half: create the interlock, record its ID, and assert `not_ready`. */
    method Arm() returns (ok: bool)
      requires Linked() && InStep() && AtRest() && client.owed.None?
      requires client.id == "" && |client.commands| == 4 && !setup.observeOnly
      modifies this, stop, clock, reader, reader.buffer, savedResponses
      ensures Linked() && InStep() && !commandInProgress && client.waiting.None? && !client.closing
      ensures nestedCommands == old(nestedCommands) && old(trace) <= trace
      ensures old(stop.requested) ==> stop.requested
      ensures ok ==> Drained() && SetUp(setup, client)
      ensures old(reader.Open()) && ok ==> reader.Open()
      ensures !ok ==> client.broken || NoUsableId(setup, client)
    {
      hide LineReader.Valid, WireTexts, Accepted, Run, CommandText, CommaJoined, Ids;
      var antennas := JoinAntennas();
      if antennas.None? || |CommandText(Create(antennas.value))| >= COMMAND_SIZE {
        return false;
      }
      var body;
      ok, body := SendCommand(Create(antennas.value), false);
      if !ok {
        return;
      }
      var id := body[..IndexOf(body, '|')];
      if id == "" || |id| >= INTERLOCK_ID {
        return false;
      }
      RecordInterlock(id);
      ghost var before := trace;
      ok := SetInterlock(false);
      HistoryGrows(setup, before, trace);
    }

    /** The granted ID is stored, and from now on `not_ready` is owed. */
    method RecordInterlock(id: string)
      requires Linked() && InStep() && AtRest() && !setup.observeOnly
      requires Enabled(setup, client, Armed(id))
      modifies this`trace, this`client, this`interlockId
      ensures Linked() && InStep() && AtRest() && old(trace) <= trace
      ensures interlockId == id && client == old(client).(id := id, owed := Some(false))
    {
      hide LineReader.Valid, WireTexts, Accepted, Run;
      Record(Armed(id));
      interlockId := id;
    }

    method InitializeSession() returns (ok: bool)
      requires Linked() && InStep() && AtRest() && client == START
      modifies this, stop, clock, reader, reader.buffer, savedResponses
      ensures Linked() && InStep() && !commandInProgress && client.waiting.None? && !client.closing
      ensures nestedCommands == old(nestedCommands) && old(trace) <= trace
      ensures old(stop.requested) ==> stop.requested
      ensures ok ==> Drained() && SetUp(setup, client)
      ensures old(reader.Open()) && ok ==> reader.Open()
      ensures !ok ==> client.broken || NoUsableId(setup, client)
    {
      hide LineReader.Valid, WireTexts, Accepted, Run;
      ok := Subscribe();
      if ok && !setup.observeOnly {
        ok := Arm();
      }
    }

    /** `ag_flex_run_session` between connecting and cleaning up. */
    method Serve() returns (result: SessionResult)
      requires Linked() && InStep() && AtRest() && client == START && reader.Open()
      modifies this, stop, clock, reader, reader.buffer, savedResponses
      ensures Linked() && InStep() && !commandInProgress && client.waiting.None? && client.closing && !Removed(client)
      ensures nestedCommands == old(nestedCommands) && old(trace) <= trace
      ensures Served(setup, client, reader.input, result)
    {
      hide LineReader.Valid, LineReader.Open, WireTexts, Accepted, Run, Deliverable, Arriving, Wanted, ContextOf;
      hide SessionGrammar, ListFits, GrantedId, Oversized, MayIssue;
      var ok := InitializeSession();
      if !ok {
        var stopping := CheckStop();
        result := if stopping then Stopped else Error;
      } else {
        result := MainLoop();
      }
      NoteClosing();
    }

    /** Cleanup begins. */
    ghost method NoteClosing()
      requires Linked() && InStep() && Enabled(setup, client, Closing)
      modifies this`trace, this`client
      ensures Linked() && InStep() && old(trace) <= trace
      ensures client == old(client).(closing := true) && !Removed(client)
      ensures client.id == "" ==> client.owed.None?
    {
      hide LineReader.Valid, LineReader.Open, WireTexts, Accepted, Run, Removed, Enabled;
      NotRemovedBeforeCleanup(setup, trace) by {
        assert !client.closing by {
          CleanupBeginsOnce(setup, client);
        }
      }
      if client.id == "" {
        NothingOwedWithoutId(setup, trace);
      }
      ghost var before := client;
      Record(Closing);
      assert client.commands == before.commands;
      SameRemoved(before, client);
    }

    method MainLoop() returns (result: SessionResult)
      requires Linked() && InStep() && Drained() && SetUp(setup, client) && reader.Open()
      modifies this, stop, clock, reader, reader.buffer, savedResponses
      ensures Linked() && InStep() && !commandInProgress && client.waiting.None? && !client.closing && SetUp(setup, client)
      ensures nestedCommands == old(nestedCommands) && old(trace) <= trace
      ensures result == Stopped ==> client.stopped
      ensures result == Error <==> client.broken
      ensures result == SessionResult.Disconnected ==> reader.delivered == Deliverable(Arriving(reader.input))
      ensures result != Unavailable
      ensures !client.broken ==> Drained()
    {
      hide LineReader.Valid, WireTexts, Accepted, Run, CText, ParseResponse, Deliverable, Arriving, LinesOf;
      while true
        invariant Linked() && InStep() && Drained() && SetUp(setup, client) && reader.Open()
        invariant nestedCommands == old(nestedCommands) && old(trace) <= trace
        decreases reader.Budget()
      {
        var stopping := CheckStop();
        if stopping {
          return Stopped;
        }
        var read := reader.ReadLine(LINE_BUFFER);
        if read.Lost? {
          reader.AtTheEnd(read.loss);
          return SessionResult.Disconnected;
        }
        if read.NoLine? {
          continue;
        }
        ghost var before := trace;
        var ok := HandleStatus(read.text);
        HistoryGrows(setup, before, trace);
        if !ok {
          return Error;
        }
      }
    }

    /** The result is what the log reports: whether the radio confirmed the removal. */
    method RemoveInterlock() returns (confirmed: bool)
      requires Linked() && InStep() && !commandInProgress && client.waiting.None? && client.closing && !Removed(client)
      modifies this, stop, clock, reader, reader.buffer, savedResponses
      ensures reader.Valid() && Traced()
      ensures client.heard == reader.delivered
      ensures old(stop.requested) ==> stop.requested
      ensures client.closing && client.waiting.None?
      ensures client.id == old(client.id)
      ensures if client.id != "" then client.commands == old(client.commands) + [Remove(client.id)] else client == old(client)
      ensures nestedCommands == old(nestedCommands) && old(trace) <= trace
      ensures confirmed <==> Confirmed(client)
    {
      hide LineReader.Valid, WireTexts, Accepted, Run;
      EverySessionIsCorrelated(setup, trace);
      if setup.observeOnly || interlockId == "" {
        return false;
      }
      var body;
      confirmed, body := SendCommand(Remove(interlockId), true);
      interlockId := "";
    }
  }

  // ------------------------------------------------------------------
  // A whole session
  // ------------------------------------------------------------------

  datatype SessionResult = Stopped | Unavailable | Disconnected | Error

  /** What a finished session has done on every exit path: it closed with no command waiting,
      and if an interlock ID was ever recorded, the last frame attempted was its removal. */
  ghost predicate Finished(s: Client) {
    && s.closing && s.waiting.None?
    && (s.id != "" ==> s.commands != [] && s.commands[|s.commands| - 1] == Remove(s.id))
    && (s.id == "" ==> !Removed(s))
  }

  /** How the session came to its end, when cleanup began. */
  ghost predicate Served(setup: Setup, s: Client, input: seq<Wakeup>, result: SessionResult) {
    && result != Unavailable
    && (result == Stopped ==> s.stopped)
    // A loss is reported after the setup, and after every line that arrived and fits the buffer.
    && (result == SessionResult.Disconnected ==>
          !s.broken && s.heard == Deliverable(Arriving(input)) && SetUp(setup, s))
    // An error is a command that failed, or an interlock that cannot be set up.
    && (result == Error ==> s.broken || NoUsableId(setup, s))
    // An update is still pending only after a failed command or a stop request.
    && (s.owed.Some? ==> s.broken || s.stopped)
  }

  /** The last frame removes the interlock that the radio granted. */
  predicate GrantRemoved(s: Client)
    requires |s.settled| > 4
  {
    s.commands != [] && Last(s.commands) == Remove(GrantedId(s.settled[4].response.body))
  }

  lemma HeardIsPlain(heard: seq<string>, stream: string)
    requires heard <= LinesOf(stream)
    ensures AllPlain(heard)
  {
    forall k | 0 <= k < |heard| ensures '\n' !in heard[k] {
      LinesArePlain(stream, k);
      assert heard[k] == LinesOf(stream)[k];
    }
  }

  /** `ag_flex_run_session`.  For every policy, every input and every timing, a connected session
      performs an accepted trace, never reaches the nested-command refusal, and finishes cleanly.
      A granted interlock is removed, under the ID that was granted, and frames are single lines.
      It has dealt with an initial stretch of the lines in the bytes that arrived, with all of
      them if it reports a lost connection, and it reports the removal as confirmed exactly if the
      radio has confirmed it. */
  method RunSession(setup: Setup, connected: bool, input: seq<Wakeup>)
    returns (result: SessionResult, confirmed: bool, wire: seq<string>,
             ghost trace: seq<Event>, ghost closedAt: nat, ghost nestedCommands: nat, ghost stopped: bool)
    ensures Accepted(setup, trace) && wire == WireTexts(setup, trace) && closedAt <= |trace|
    ensures !connected ==> trace == [] && (result == Stopped || result == Unavailable)
    ensures connected ==> Finished(Run(setup, trace)) && Served(setup, Run(setup, trace[..closedAt]), input, result)
    ensures Run(setup, trace).heard <= LinesOf(Stream(input))
    ensures confirmed <==> Confirmed(Run(setup, trace))
    ensures connected && Granted(Run(setup, trace)) ==> GrantRemoved(Run(setup, trace))
    ensures '\n' !in AntennaText(setup) ==> AllOneLine(wire)
    ensures Run(setup, trace).stopped ==> stopped
    ensures nestedCommands == 0
    ensures result == Stopped ==> stopped
  {
    hide LineReader.Valid, LinesOf, Stream, Deliverable, Arriving, WireTexts, Accepted, Run, AllPlain, AllOneLine, AntennaText;
    hide GrantedId;
    var connection := new Connection(setup, input);
    confirmed, wire, trace, closedAt, nestedCommands := false, [], [], 0, 0;
    if !connected {
      connection.reader.DeliveredFromInput();
      var stopping := connection.stop.Poll();
      result := if stopping then Stopped else Unavailable;
      stopped := connection.stop.requested;
      if '\n' !in AntennaText(setup) {
        HeardIsPlain(Run(setup, trace).heard, Stream(input));
        EveryFrameIsOneLine(setup, trace);
      }
      return;
    }
    result := connection.Serve();
    closedAt := |connection.trace|;
    ghost var before := connection.trace;
    confirmed := connection.RemoveInterlock();
    connection.reader.DeliveredFromInput();
    wire := connection.wire;
    trace, nestedCommands, stopped := connection.trace, connection.nestedCommands, connection.stop.requested;
    assert trace[..closedAt] == before;
    if Granted(Run(setup, trace)) {
      UsableGrantIsArmed(setup, trace);
    }
    if '\n' !in AntennaText(setup) {
      HeardIsPlain(Run(setup, trace).heard, Stream(input));
      EveryFrameIsOneLine(setup, trace);
    }
  }
}
