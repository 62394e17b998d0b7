/**
 The client of `Session` together with a radio, over two FIFO channels.

 The radio takes the client's frames in order.  It may obey or reject a command, answers the frames
 it has taken at any later time and in any order, each at most once and only with that frame's
 number, claims success only for a command it obeyed, and may report any status line at any time.
 Frames whose write failed never arrive.
 */
module Radio {
  import opened Text
  import opened Responses
  import opened Session
  import opened SessionSafety

  /** A frame that the radio has taken and not answered. */
  datatype Held = Held(frame: Issued, obeyed: bool)

  datatype System = System(
    client: Client,
    up: seq<Issued>,      // frames the radio has not taken yet
    held: seq<Held>,      // frames it has taken and may still answer
    down: seq<string>,    // lines the client has not read yet
    ready: bool           // the state of the radio's interlock
  )

  datatype Action =
    | Act(event: Event)
    | Take(obeyed: bool)
    | Answer(index: nat, line: string)
    | Report(line: string)

  const BEGIN := System(START, [], [], [], false)

  function ResponseOn(line: string): Option<Response> {
    ParseResponse(CText(line))
  }

  /** What obeying a command does to the interlock. */
  function Effect(c: Command, ready: bool): bool {
    match c
    case Interlock(r, _) => r
    case Create(_) => false
    case Remove(_) => false
    case _ => ready
  }

  ghost predicate Possible(setup: Setup, s: System, a: Action) {
    match a
    case Act(e) => Enabled(setup, s.client, e) && (e.Heard? ==> s.down != [] && s.down[0] == e.line)
    case Take(obeyed) => s.up != []
    case Answer(i, line) =>
      && i < |s.held| && ResponseOn(line).Some?
      && ResponseOn(line).value.sequence == s.held[i].frame.sequence
      && (ResponseOn(line).value.code == 0 ==> s.held[i].obeyed)
    case Report(line) => ResponseOn(line).None?
  }

  function Without<T>(s: seq<T>, i: nat): seq<T>
    requires i < |s|
  {
    s[..i] + s[i + 1..]
  }

  ghost function Perform(setup: Setup, s: System, a: Action): System {
    match a
    case Act(e) =>
      var client := Step(setup, s.client, e);
      System(client,
             if e.Wrote? && e.complete then s.up + [Issued(client.sequence, e.command)] else s.up,
             s.held,
             if e.Heard? && s.down != [] then s.down[1..] else s.down,
             s.ready)
    case Take(obeyed) =>
      if s.up == [] then s
      else System(s.client, s.up[1..], s.held + [Held(s.up[0], obeyed)], s.down,
                  if obeyed then Effect(s.up[0].command, s.ready) else s.ready)
    case Answer(i, line) =>
      if i >= |s.held| then s else s.(held := Without(s.held, i), down := s.down + [line])
    case Report(line) => s.(down := s.down + [line])
  }

  ghost function After(setup: Setup, actions: seq<Action>): System {
    if actions == [] then BEGIN else Perform(setup, After(setup, Init(actions)), Last(actions))
  }

  ghost predicate Reachable(setup: Setup, actions: seq<Action>) {
    actions == []
    || (Reachable(setup, Init(actions)) && Possible(setup, After(setup, Init(actions)), Last(actions)))
  }

  /** The client's part of a run. */
  function ClientTrace(actions: seq<Action>): seq<Event> {
    if actions == [] then []
    else
      match Last(actions)
      case Act(e) => ClientTrace(Init(actions)) + [e]
      case _ => ClientTrace(Init(actions))
  }

  /** Whatever the radio does, the client's part of a run is an accepted trace. */
  lemma {:induction false} ClientTraceIsAccepted(setup: Setup, actions: seq<Action>)
    requires Reachable(setup, actions)
    ensures Accepted(setup, ClientTrace(actions))
    ensures After(setup, actions).client == Run(setup, ClientTrace(actions))
  {
    hide Enabled, Step;
    if actions != [] {
      ClientTraceIsAccepted(setup, Init(actions));
      match Last(actions)
      case Act(e) => RunSnoc(setup, ClientTrace(Init(actions)), e);
      case _ =>
    }
  }

  // ------------------------------------------------------------------
  // What is in flight
  // ------------------------------------------------------------------

  /** The response lines among those in flight. */
  function Answers(down: seq<string>): seq<Response> {
    if down == [] then []
    else
      match ResponseOn(down[0])
      case Some(r) => [r] + Answers(down[1..])
      case None => Answers(down[1..])
  }

  lemma {:induction false} AnswersSnoc(down: seq<string>, line: string)
    ensures Answers(down + [line])
         == Answers(down) + if ResponseOn(line).Some? then [ResponseOn(line).value] else []
  {
    hide ResponseOn;
    if down == [] {
      assert [line][1..] == [] && down + [line] == [line];
      assert Answers([]) == [];
    } else {
      assert (down + [line])[1..] == down[1..] + [line];
      AnswersSnoc(down[1..], line);
    }
  }

  /** How many of these numbers are not the one that is waited for. */
  function OtherAnswers(answers: seq<Response>, own: Option<Issued>): nat {
    if answers == [] then 0
    else (if own.Some? && answers[0].sequence == own.value.sequence then 0 else 1) + OtherAnswers(answers[1..], own)
  }

  function OtherFrames(up: seq<Issued>, own: Option<Issued>): nat {
    if up == [] then 0
    else (if own.Some? && up[0].sequence == own.value.sequence then 0 else 1) + OtherFrames(up[1..], own)
  }

  function OtherHeld(held: seq<Held>, own: Option<Issued>): nat {
    if held == [] then 0
    else (if own.Some? && held[0].frame.sequence == own.value.sequence then 0 else 1) + OtherHeld(held[1..], own)
  }

  lemma {:induction false} OtherHeldSnoc(held: seq<Held>, h: Held, own: Option<Issued>)
    ensures OtherHeld(held + [h], own)
         == OtherHeld(held, own) + if own.Some? && h.frame.sequence == own.value.sequence then 0 else 1
  {
    if held == [] {
      assert held + [h] == [h] && [h][1..] == [];
    } else {
      assert (held + [h])[1..] == held[1..] + [h];
      OtherHeldSnoc(held[1..], h, own);
    }
  }

  lemma {:induction false} OtherHeldWithout(held: seq<Held>, i: nat, own: Option<Issued>)
    requires i < |held|
    ensures OtherHeld(held, own) == OtherHeld(Without(held, i), own)
      + if own.Some? && held[i].frame.sequence == own.value.sequence then 0 else 1
  {
    if i == 0 {
      assert Without(held, 0) == held[1..];
    } else {
      assert Without(held, i)[0] == held[0] && Without(held, i)[1..] == Without(held[1..], i - 1);
      OtherHeldWithout(held[1..], i - 1, own);
    }
  }

  lemma {:induction false} OtherAnswersSnoc(answers: seq<Response>, r: Response, own: Option<Issued>)
    ensures OtherAnswers(answers + [r], own)
         == OtherAnswers(answers, own) + if own.Some? && r.sequence == own.value.sequence then 0 else 1
  {
    if answers == [] {
      assert answers + [r] == [r] && [r][1..] == [];
    } else {
      assert (answers + [r])[1..] == answers[1..] + [r];
      OtherAnswersSnoc(answers[1..], r, own);
    }
  }

  lemma {:induction false} OtherFramesSnoc(up: seq<Issued>, f: Issued, own: Option<Issued>)
    ensures OtherFrames(up + [f], own)
         == OtherFrames(up, own) + if own.Some? && f.sequence == own.value.sequence then 0 else 1
  {
    if up == [] {
      assert up + [f] == [f] && [f][1..] == [];
    } else {
      assert (up + [f])[1..] == up[1..] + [f];
      OtherFramesSnoc(up[1..], f, own);
    }
  }

  /** Starting to wait for a number only takes items out of the count. */
  lemma {:induction false} WaitingNarrows(answers: seq<Response>, held: seq<Held>, up: seq<Issued>, own: Option<Issued>)
    ensures OtherAnswers(answers, own) <= OtherAnswers(answers, None)
    ensures OtherHeld(held, own) <= OtherHeld(held, None)
    ensures OtherFrames(up, own) <= OtherFrames(up, None)
    decreases |answers| + |held| + |up|
  {
    if answers != [] {
      WaitingNarrows(answers[1..], held, up, own);
    } else if held != [] {
      WaitingNarrows(answers, held[1..], up, own);
    } else if up != [] {
      WaitingNarrows(answers, held, up[1..], own);
    }
  }

  // ------------------------------------------------------------------
  // The invariant
  // ------------------------------------------------------------------

  /** No frame on its way to the radio says `ready`. */
  ghost predicate NoReadyInFlight(s: System) {
    forall i :: 0 <= i < |s.up| ==> !(s.up[i].command.Interlock? && s.up[i].command.ready)
  }

  ghost predicate Agrees(s: System) {
    s.ready <==> s.client.shown == Some(true)
  }

  /** While nothing has failed: stop-and-wait.  The outstanding frame is still on its way, or the
      radio holds it, or its one answer is on its way back. */
  ghost predicate Steady(s: System) {
    && UsedCount(s.client.cache) == 0
    && match s.client.waiting
       case None => s.up == [] && s.held == [] && Answers(s.down) == [] && Agrees(s)
       case Some(w) =>
         || (s.up == [w] && s.held == [] && Answers(s.down) == [] && (w.command.Interlock? ==> s.client.shown == Some(w.command.ready))
             && (!w.command.Interlock? ==> Agrees(s)) && (w.command.Create? ==> s.client.shown.None?) && !w.command.Remove?)
         || (s.up == [] && |s.held| == 1 && s.held[0].frame == w && Answers(s.down) == []
             && (s.held[0].obeyed ==> Agrees(s)))
         || (s.up == [] && s.held == [] && |Answers(s.down)| == 1 && Answers(s.down)[0].sequence == w.sequence
             && (Answers(s.down)[0].code == 0 ==> Agrees(s)))
  }

  /** After a failure or during cleanup: at most one item that is not waited for.  Until cleanup
      the cache is empty, and a `ready` on its way is the last state written. */
  ghost predicate Unsettled(s: System) {
    && UsedCount(s.client.cache) <= 1
    && (!s.client.closing ==> UsedCount(s.client.cache) == 0)
    && (!s.client.closing && s.client.shown != Some(true) ==> NoReadyInFlight(s))
    && (s.client.waiting.Some? || !Removed(s.client) ==>
          UsedCount(s.client.cache) + OtherFrames(s.up, s.client.waiting) + OtherHeld(s.held, s.client.waiting)
          + OtherAnswers(Answers(s.down), s.client.waiting) <= 1)
  }

  ghost predicate Sound(s: System) {
    && |s.client.cache| == SAVED_RESPONSES && s.client.dropped == multiset{}
    && (s.client.id == "" ==> s.client.shown.None?)
    && (s.client.waiting.Some? && (s.client.broken || s.client.closing) ==> s.client.closing && Removed(s.client))
    && if s.client.broken || s.client.closing then Unsettled(s) else Steady(s)
  }

  // ------------------------------------------------------------------
  // Every step keeps it
  // ------------------------------------------------------------------

  lemma TakeKeepsSound(setup: Setup, s: System, obeyed: bool)
    requires Sound(s) && Possible(setup, s, Take(obeyed))
    ensures Sound(Perform(setup, s, Take(obeyed)))
  {
    hide ResponseOn, UsedCount, Answers, OtherAnswers;
    OtherHeldSnoc(s.held, Held(s.up[0], obeyed), s.client.waiting);
  }

  lemma SendingAnswerKeepsSound(setup: Setup, s: System, i: nat, line: string)
    requires Sound(s) && Possible(setup, s, Answer(i, line))
    ensures Sound(Perform(setup, s, Answer(i, line)))
  {
    hide ResponseOn, UsedCount;
    var r := ResponseOn(line).value;
    AnswersSnoc(s.down, line);
    OtherAnswersSnoc(Answers(s.down), r, s.client.waiting);
    OtherHeldWithout(s.held, i, s.client.waiting);
    assert Answers(s.down + [line]) == Answers(s.down) + [r];
    assert |s.held| == 1 ==> Without(s.held, i) == [];
  }

  lemma ReportKeepsSound(setup: Setup, s: System, line: string)
    requires Sound(s) && Possible(setup, s, Report(line))
    ensures Sound(Perform(setup, s, Report(line)))
  {
    hide ResponseOn, UsedCount;
    AnswersSnoc(s.down, line);
    assert Answers(s.down + [line]) == Answers(s.down);
  }

  lemma WriteKeepsSound(setup: Setup, s: System, c: Command, complete: bool)
    requires Sound(s) && Enabled(setup, s.client, Wrote(c, complete))
    ensures Sound(Perform(setup, s, Act(Wrote(c, complete))))
  {
    hide ResponseOn, UsedCount, Next;
    var frame := Issued(Next(s.client.sequence), c);
    OtherFramesSnoc(s.up, frame, Some(frame));
    WaitingNarrows(Answers(s.down), s.held, s.up, Some(frame));
  }

  /** A line that is no awaited response leaves everything that counts as it was. */
  lemma StatusKeepsSound(setup: Setup, s: System, line: string, client: Client)
    requires Sound(s) && s.down != [] && s.down[0] == line
    requires s.client.waiting.None? || ResponseOn(line).None?
    requires client == HearAs(setup, s.client.(heard := client.heard), CText(line), ResponseOn(line))
    requires s.client.waiting.None? ==> !s.client.broken && !s.client.closing
    ensures Sound(s.(client := client, down := s.down[1..]))
  {
    hide ResponseOn, UsedCount, Asked, NextContext, CText;
  }

  lemma AnswerKeepsSound(setup: Setup, s: System, line: string, client: Client)
    requires Sound(s) && s.down != [] && s.down[0] == line
    requires s.client.waiting.Some? && ResponseOn(line).Some?
    requires ResponseOn(line).value.sequence == s.client.waiting.value.sequence
    requires client == HearAs(setup, s.client.(heard := client.heard), CText(line), ResponseOn(line))
    ensures Sound(s.(client := client, down := s.down[1..]))
  {
    hide ResponseOn, UsedCount, Asked, NextContext, CText, Clip;
  }

  lemma StrayKeepsSound(setup: Setup, s: System, line: string, client: Client)
    requires Sound(s) && s.down != [] && s.down[0] == line
    requires s.client.waiting.Some? && ResponseOn(line).Some?
    requires ResponseOn(line).value.sequence != s.client.waiting.value.sequence
    requires client == HearAs(setup, s.client.(heard := client.heard), CText(line), ResponseOn(line))
    ensures Sound(s.(client := client, down := s.down[1..]))
  {
    hide ResponseOn, Asked, NextContext, CText, Clip, Bag, FirstFree;
    SaveAddsToBag(s.client.cache, ResponseOn(line).value);
  }

  lemma HeardKeepsSound(setup: Setup, s: System, line: string)
    requires Sound(s) && Possible(setup, s, Act(Heard(line)))
    ensures Sound(Perform(setup, s, Act(Heard(line))))
  {
    hide ResponseOn, UsedCount, HearAs, Cached, CText;
    var client := Hear(setup, s.client, line);
    assert client == HearAs(setup, s.client.(heard := client.heard), CText(line), ResponseOn(line)) by {
      HearIsHearAs(setup, s.client, line);
    }
    if s.client.waiting.None? || ResponseOn(line).None? {
      StatusKeepsSound(setup, s, line, client);
    } else if ResponseOn(line).value.sequence == s.client.waiting.value.sequence {
      AnswerKeepsSound(setup, s, line, client);
    } else {
      StrayKeepsSound(setup, s, line, client);
    }
  }

  lemma HearIsHearAs(setup: Setup, s: Client, line: string)
    ensures Hear(setup, s, line).heard == s.heard + [line]
    ensures Hear(setup, s, line)
         == HearAs(setup, s.(heard := Hear(setup, s, line).heard), CText(line), ResponseOn(line))
  {
    hide ParseResponse, CText, Asked, NextContext, Clip, Saved;
  }

  lemma RecalledKeepsSound(setup: Setup, s: System)
    requires Sound(s) && Enabled(setup, s.client, Recalled)
    ensures Sound(Perform(setup, s, Act(Recalled)))
  {
    hide ResponseOn, Bag, Clip;
    TakeRemovesFromBag(s.client.cache, s.client.waiting.value.sequence);
  }

  lemma {:induction false} OthersBounded(answers: seq<Response>, held: seq<Held>, up: seq<Issued>, own: Option<Issued>)
    ensures OtherAnswers(answers, own) <= |answers|
    ensures OtherHeld(held, own) <= |held| && OtherFrames(up, own) <= |up|
    decreases |answers| + |held| + |up|
  {
    if answers != [] {
      OthersBounded(answers[1..], held, up, own);
    } else if held != [] {
      OthersBounded(answers, held[1..], up, own);
    } else if up != [] {
      OthersBounded(answers, held, up[1..], own);
    }
  }

  lemma AbandonedKeepsSound(setup: Setup, s: System, reason: Excuse)
    requires Sound(s) && Enabled(setup, s.client, Abandoned(reason))
    ensures Sound(Perform(setup, s, Act(Abandoned(reason))))
  {
    hide ResponseOn, UsedCount;
    OthersBounded(Answers(s.down), s.held, s.up, None);
  }

  lemma ActKeepsSound(setup: Setup, s: System, e: Event)
    requires Sound(s) && Possible(setup, s, Act(e))
    ensures Sound(Perform(setup, s, Act(e)))
  {
    hide ResponseOn, UsedCount;
    match e
    case Wrote(c, complete) => WriteKeepsSound(setup, s, c, complete);
    case Heard(line) => HeardKeepsSound(setup, s, line);
    case Recalled => RecalledKeepsSound(setup, s);
    case Abandoned(reason) => AbandonedKeepsSound(setup, s, reason);
    case _ =>
  }

  /** The invariant holds in every reachable state of the client and the radio together. */
  lemma {:induction false} EveryReachableStateIsSound(setup: Setup, actions: seq<Action>)
    requires Reachable(setup, actions)
    ensures Sound(After(setup, actions))
  {
    hide Possible, Perform;
    if actions == [] {
      BeginIsSound();
    } else {
      var s := After(setup, Init(actions));
      EveryReachableStateIsSound(setup, Init(actions));
      match Last(actions)
      case Act(e) => ActKeepsSound(setup, s, e);
      case Take(obeyed) => TakeKeepsSound(setup, s, obeyed);
      case Answer(i, line) => SendingAnswerKeepsSound(setup, s, i, line);
      case Report(line) => ReportKeepsSound(setup, s, line);
    }
  }

  lemma BeginIsSound()
    ensures Sound(BEGIN)
  {
    EmptyCacheBag();
  }

  // ------------------------------------------------------------------
  // What this means for the radio
  // ------------------------------------------------------------------

  /** With such a radio the cache stays empty until cleanup, never holds more than one response,
      and never overflows. */
  lemma CacheNeverOverflows(setup: Setup, actions: seq<Action>)
    requires Reachable(setup, actions)
    ensures var client := After(setup, actions).client;
      && client.dropped == multiset{}
      && UsedCount(client.cache) <= 1
      && (!client.closing ==> UsedCount(client.cache) == 0)
  {
    EveryReachableStateIsSound(setup, actions);
  }

  /** Whenever the client waits for the next line, the radio's interlock is in the state last
      wanted; if it is ready, the context is allowed. */
  lemma IdleRadioIsInPolicy(setup: Setup, actions: seq<Action>)
    requires Reachable(setup, actions)
    requires Idle(setup, After(setup, actions).client) && After(setup, actions).client.id != ""
    ensures var s, trace := After(setup, actions), ClientTrace(actions);
      && Wanted(setup, trace).Some? && s.ready == Wanted(setup, trace).value.ready
      && s.client.context == ContextOf(setup, trace)
      && (s.ready ==> InPolicy(setup, s.client.context))
  {
    EveryReachableStateIsSound(setup, actions);
    ClientTraceIsAccepted(setup, actions);
    IdleClientHasToldTheRadio(setup, ClientTrace(actions));
    ReadyIsWantedOnlyForAllowedPtt(setup, ClientTrace(actions));
    DeferralRefinesImmediateReaction(setup, ClientTrace(actions));
  }

  /** Before the first interlock frame nothing makes the radio ready. */
  ghost predicate NoStateSoFar(s: System) {
    s.client.shown.None? ==> !s.ready && forall i :: 0 <= i < |s.up| ==> !s.up[i].command.Interlock?
  }

  lemma NoStateStep(setup: Setup, s: System, a: Action)
    requires NoStateSoFar(s) && Possible(setup, s, a)
    ensures NoStateSoFar(Perform(setup, s, a))
  {
    hide ResponseOn, Asked, NextContext, CText, ParseResponse, FirstMatch, FirstFree, Saved, Taken, Clip, Next;
  }

  lemma {:induction false} NothingReadyBeforeTheFirstState(setup: Setup, actions: seq<Action>)
    requires Reachable(setup, actions)
    ensures NoStateSoFar(After(setup, actions))
  {
    hide Possible, Perform;
    if actions != [] {
      NothingReadyBeforeTheFirstState(setup, Init(actions));
      NoStateStep(setup, After(setup, Init(actions)), Last(actions));
    }
  }

  /** Until cleanup, after failures too, a forbidden context is always covered.  Either the client
      still owes the radio a `not_ready`, and reads no further line between commands before it
      has written it; or that was the last state it wrote and no `ready` is on its way, and then,
      unless something has failed, once the last command is over the radio is not ready; or no
      state has been written yet, and the radio is not ready and nothing on its way makes it so. */
  lemma ForbiddenContextIsCovered(setup: Setup, actions: seq<Action>)
    requires Reachable(setup, actions)
    requires var client := After(setup, actions).client; !client.closing && !InPolicy(setup, client.context)
    ensures var s := After(setup, actions);
      || (s.client.owed == Some(false)
          && (s.client.waiting.None? ==> forall line :: !Enabled(setup, s.client, Heard(line))))
      || (s.client.shown == Some(false) && NoReadyInFlight(s)
          && (s.client.waiting.None? && !s.client.broken ==> !s.ready))
      || (s.client.shown.None? && NoReadyInFlight(s) && !s.ready)
  {
    hide Reachable, After, ClientTrace, Run, Accepted, InPolicy;
    var s := After(setup, actions);
    EveryReachableStateIsSound(setup, actions);
    NothingReadyBeforeTheFirstState(setup, actions);
    if s.client.id != "" {
      ClientTraceIsAccepted(setup, actions);
      DeferralRefinesImmediateReaction(setup, ClientTrace(actions));
      ForbiddenContextIsAnswered(setup, ClientTrace(actions));
    }
  }

  // ------------------------------------------------------------------
  // A confirmed removal
  // ------------------------------------------------------------------

  ghost predicate AllNumbered(s: System, n: nat) {
    && (forall i :: 0 <= i < |s.up| ==> s.up[i].sequence == n && !s.up[i].command.Remove?)
    && (forall i :: 0 <= i < |s.held| ==> s.held[i].frame.sequence == n && !s.held[i].frame.command.Remove?)
    && (forall i :: 0 <= i < |Answers(s.down)| ==> Answers(s.down)[i].sequence == n)
    && (forall r :: r in Bag(s.client.cache) ==> r.sequence == n)
  }

  /** The removal is the last frame on its way, and nothing else bears its number. */
  ghost predicate RemovalUnderway(s: System, w: Issued) {
    && s.up != [] && Last(s.up) == w
    && (forall i :: 0 <= i < |s.up| - 1 ==> s.up[i].sequence != w.sequence)
    && (forall i :: 0 <= i < |s.held| ==> s.held[i].frame.sequence != w.sequence)
    && (forall i :: 0 <= i < |Answers(s.down)| ==> Answers(s.down)[i].sequence != w.sequence)
  }

  /** The removal was taken, and success is on its way back only if it was obeyed. */
  ghost predicate RemovalTaken(s: System, w: Issued) {
    && s.up == []
    && (forall i :: 0 <= i < |s.held| && s.held[i].frame.sequence == w.sequence && s.held[i].obeyed ==> !s.ready)
    && forall i :: 0 <= i < |Answers(s.down)| && Answers(s.down)[i].sequence == w.sequence && Answers(s.down)[i].code == 0 ==> !s.ready
  }

  ghost predicate Orderly(s: System) {
    var client := s.client;
    && client.sequence < 0x1_0000_0000
    && (Removed(client) ==> client.closing)
    && (client.waiting.Some? ==>
          client.waiting.value.sequence == client.sequence && (client.waiting.value.command.Remove? <==> Removed(client)))
    && (!Removed(client) ==> AllNumbered(s, client.sequence) && !Confirmed(client))
    && (Removed(client) && client.waiting.Some? ==>
          !Confirmed(client)
          && (forall r :: r in Bag(client.cache) ==> r.sequence != client.sequence)
          && (RemovalUnderway(s, client.waiting.value) || RemovalTaken(s, client.waiting.value)))
    && (Removed(client) && client.waiting.None? && Confirmed(client) ==> s.up == [] && !s.ready)
  }

  lemma NextDiffers(n: nat)
    requires n < 0x1_0000_0000
    ensures Next(n) != n && Next(n) < 0x1_0000_0000
  {
    if n + 1 < 0x1_0000_0000 {
      assert Next(n) == n + 1;
    } else {
      assert Next(n) == 0;
    }
  }

  lemma TakeKeepsOrder(setup: Setup, s: System, obeyed: bool)
    requires Sound(s) && Orderly(s) && Possible(setup, s, Take(obeyed))
    ensures Orderly(Perform(setup, s, Take(obeyed)))
  {
    hide ResponseOn, UsedCount, Bag, Next, Answers;
    if |s.up| > 1 {
      assert Last(s.up[1..]) == Last(s.up);
    }
  }

  lemma SendingAnswerKeepsOrder(setup: Setup, s: System, i: nat, line: string)
    requires Orderly(s) && Possible(setup, s, Answer(i, line))
    ensures Orderly(Perform(setup, s, Answer(i, line)))
  {
    hide ResponseOn, UsedCount, Bag, Next;
    AnswersSnoc(s.down, line);
    assert Answers(s.down + [line]) == Answers(s.down) + [ResponseOn(line).value];
    assert forall k :: 0 <= k < |Without(s.held, i)| ==> Without(s.held, i)[k] == s.held[if k < i then k else k + 1];
  }

  lemma ReportKeepsOrder(setup: Setup, s: System, line: string)
    requires Orderly(s) && Possible(setup, s, Report(line))
    ensures Orderly(Perform(setup, s, Report(line)))
  {
    hide ResponseOn, UsedCount, Bag, Next;
    AnswersSnoc(s.down, line);
    assert Answers(s.down + [line]) == Answers(s.down);
  }

  lemma WriteKeepsOrder(setup: Setup, s: System, c: Command, complete: bool)
    requires Sound(s) && Orderly(s) && Enabled(setup, s.client, Wrote(c, complete))
    ensures Orderly(Perform(setup, s, Act(Wrote(c, complete))))
  {
    hide ResponseOn, Next, Bag;
    NextDiffers(s.client.sequence);
    var frame := Issued(Next(s.client.sequence), c);
    var after := Perform(setup, s, Act(Wrote(c, complete)));
    assert Last(after.client.commands) == c;
    if c.Remove? {
      assert AllNumbered(s, s.client.sequence);
      assert complete ==> Last(after.up) == frame && RemovalUnderway(after, frame);
    } else {
      assert s.up == [] && s.held == [] && Answers(s.down) == [] && |Bag(s.client.cache)| == 0;
      assert AllNumbered(after, Next(s.client.sequence));
    }
  }

  lemma RefuseKeepsOrder(setup: Setup, s: System, c: Command)
    requires Sound(s) && Orderly(s) && Enabled(setup, s.client, Refused(c))
    ensures Orderly(Perform(setup, s, Act(Refused(c))))
  {
    hide ResponseOn, Next, Bag;
    assert s.up == [] && s.held == [] && Answers(s.down) == [] && |Bag(s.client.cache)| == 0;
    NextDiffers(s.client.sequence);
  }

  lemma StatusKeepsOrder(setup: Setup, s: System, line: string, client: Client)
    requires Orderly(s) && s.down != [] && s.down[0] == line
    requires s.client.waiting.None? || ResponseOn(line).None?
    requires s.client.waiting.None? ==> Sound(s) && !s.client.broken && !s.client.closing
    requires client == HearAs(setup, s.client.(heard := client.heard), CText(line), ResponseOn(line))
    ensures Orderly(s.(client := client, down := s.down[1..]))
  {
    hide ResponseOn, Bag, Asked, NextContext, CText, NoReadyInFlight, Clip, Saved;
    assert Answers(s.down[1..]) == Answers(s.down);
  }

  lemma AnswerKeepsOrder(setup: Setup, s: System, line: string, client: Client)
    requires Sound(s) && Orderly(s) && s.down != [] && s.down[0] == line
    requires s.client.waiting.Some? && ResponseOn(line).Some?
    requires ResponseOn(line).value.sequence == s.client.waiting.value.sequence
    requires client == HearAs(setup, s.client.(heard := client.heard), CText(line), ResponseOn(line))
    ensures Orderly(s.(client := client, down := s.down[1..]))
  {
    hide ResponseOn, Bag, Asked, NextContext, CText, Clip;
    var w := s.client.waiting.value;
    var answers := Answers(s.down);
    assert answers == [ResponseOn(line).value] + Answers(s.down[1..]);
    assert answers[0].sequence == w.sequence;
    assert Last(client.settled) == Settlement(w, Kept(ResponseOn(line).value));
    assert forall i :: 0 <= i < |Answers(s.down[1..])| ==> Answers(s.down[1..])[i] == answers[i + 1];
  }

  lemma StrayKeepsOrder(setup: Setup, s: System, line: string, client: Client)
    requires Sound(s) && Orderly(s) && s.down != [] && s.down[0] == line
    requires s.client.waiting.Some? && ResponseOn(line).Some?
    requires ResponseOn(line).value.sequence != s.client.waiting.value.sequence
    requires client == HearAs(setup, s.client.(heard := client.heard), CText(line), ResponseOn(line))
    ensures Orderly(s.(client := client, down := s.down[1..]))
  {
    hide ResponseOn, Bag, Asked, NextContext, CText, Clip, FirstFree;
    var answers := Answers(s.down);
    assert answers == [ResponseOn(line).value] + Answers(s.down[1..]);
    assert forall i :: 0 <= i < |Answers(s.down[1..])| ==> Answers(s.down[1..])[i] == answers[i + 1];
    assert answers[0] == ResponseOn(line).value;
    SaveAddsToBag(s.client.cache, ResponseOn(line).value);
  }

  lemma HeardKeepsOrder(setup: Setup, s: System, line: string)
    requires Sound(s) && Orderly(s) && Possible(setup, s, Act(Heard(line)))
    ensures Orderly(Perform(setup, s, Act(Heard(line))))
  {
    hide ResponseOn, UsedCount, HearAs, Cached, CText;
    var client := Hear(setup, s.client, line);
    HearIsHearAs(setup, s.client, line);
    if s.client.waiting.None? || ResponseOn(line).None? {
      StatusKeepsOrder(setup, s, line, client);
    } else if ResponseOn(line).value.sequence == s.client.waiting.value.sequence {
      AnswerKeepsOrder(setup, s, line, client);
    } else {
      StrayKeepsOrder(setup, s, line, client);
    }
  }

  lemma ActKeepsOrder(setup: Setup, s: System, e: Event)
    requires Sound(s) && Orderly(s) && Possible(setup, s, Act(e))
    ensures Orderly(Perform(setup, s, Act(e)))
  {
    hide ResponseOn, Bag;
    match e
    case Refused(c) => RefuseKeepsOrder(setup, s, c);
    case Wrote(c, complete) => WriteKeepsOrder(setup, s, c, complete);
    case Heard(line) => HeardKeepsOrder(setup, s, line);
    case Recalled => AnswerIsNeverCached(setup, s);
    case Abandoned(reason) => AbandonKeepsOrder(setup, s, reason);
    case _ =>
  }

  lemma AbandonKeepsOrder(setup: Setup, s: System, reason: Excuse)
    requires Sound(s) && Orderly(s) && s.client.waiting.Some?
    ensures Orderly(Perform(setup, s, Act(Abandoned(reason))))
  {
    hide ResponseOn, Bag;
  }

  /** With such a radio no answer is ever found in the cache. */
  lemma AnswerIsNeverCached(setup: Setup, s: System)
    requires Sound(s) && Orderly(s)
    ensures !Cached(s.client)
  {
    hide ResponseOn, Bag;
    if s.client.waiting.Some? {
      TakeRemovesFromBag(s.client.cache, s.client.waiting.value.sequence);
    }
  }

  lemma {:induction false} EveryReachableStateIsOrderly(setup: Setup, actions: seq<Action>)
    requires Reachable(setup, actions)
    ensures Orderly(After(setup, actions))
  {
    hide Possible, Perform, Sound;
    if actions == [] {
      BeginIsOrderly();
    } else {
      var s := After(setup, Init(actions));
      EveryReachableStateIsSound(setup, Init(actions));
      EveryReachableStateIsOrderly(setup, Init(actions));
      match Last(actions)
      case Act(e) => ActKeepsOrder(setup, s, e);
      case Take(obeyed) => TakeKeepsOrder(setup, s, obeyed);
      case Answer(i, line) => SendingAnswerKeepsOrder(setup, s, i, line);
      case Report(line) => ReportKeepsOrder(setup, s, line);
    }
  }

  lemma BeginIsOrderly()
    ensures Orderly(BEGIN)
  {
    EmptyCacheBag();
  }

  /** A clean exit: when the removal was confirmed, on whatever path the session came to its end,
      the radio's interlock is not ready and no frame of the session is still on its way. */
  lemma ConfirmedRemovalDisarms(setup: Setup, actions: seq<Action>)
    requires Reachable(setup, actions) && Confirmed(After(setup, actions).client)
    ensures var s := After(setup, actions); !s.ready && s.up == []
  {
    EveryReachableStateIsOrderly(setup, actions);
  }
}
