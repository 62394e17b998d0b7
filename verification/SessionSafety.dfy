/**
 What holds of every accepted session trace: the deferred and coalesced interlock updates
 amount to immediate reactions, `ready` is only ever written for an allowed PTT request, the
 commands follow a fixed grammar, and responses are accounted for one by one.
 */
module SessionSafety {
  import opened Text
  import opened Policy
  import opened Responses
  import opened Session

  // ------------------------------------------------------------------
  // The reference: react to every line at once, and never defer
  // ------------------------------------------------------------------

  function Init<T>(s: seq<T>): seq<T>
    requires s != []
  {
    s[..|s| - 1]
  }

  function Last<T>(s: seq<T>): T
    requires s != []
  {
    s[|s| - 1]
  }

  /** The transmit context after all lines heard. */
  ghost function ContextOf(setup: Setup, trace: seq<Event>): Context {
    if trace == [] then NO_CONTEXT
    else match Last(trace)
      case Heard(line) => NextContext(setup, ContextOf(setup, Init(trace)), CText(line))
      case _ => ContextOf(setup, Init(trace))
  }

  /** The interlock state that an always-immediate client would have set last, and why.
      It starts with `not_ready` when the interlock exists and follows every line heard. */
  ghost function Wanted(setup: Setup, trace: seq<Event>): Option<Ask> {
    if trace == [] then None
    else
      var before := Wanted(setup, Init(trace));
      match Last(trace)
      case Armed(_) => Some(Ask(false, Arming))
      case Heard(line) =>
        var ask := Asked(setup, ContextOf(setup, Init(trace)), CText(line));
        if before.Some? && ask.Some? then ask else before
      case _ => before
  }

  /** Whatever is wanted: `ready` is wanted only after a PTT request, and only as long as the
      context has stayed allowed since. */
  lemma {:induction false} ReadyIsWantedOnlyForAllowedPtt(setup: Setup, trace: seq<Event>)
    ensures var wanted := Wanted(setup, trace);
      wanted.Some? && wanted.value.ready ==>
        wanted.value.cause == PttRequested && InPolicy(setup, ContextOf(setup, trace))
  {
    if trace != [] {
      ReadyIsWantedOnlyForAllowedPtt(setup, Init(trace));
    }
  }

  // ------------------------------------------------------------------
  // Deferral and coalescing refine the reference
  // ------------------------------------------------------------------

  /** The state that the client owes the radio, or else the one it wrote last. */
  function Pledged(s: Client): Option<bool> {
    if s.owed.Some? then s.owed else s.shown
  }

  ghost predicate Faithful(setup: Setup, trace: seq<Event>, s: Client) {
    var wanted := Wanted(setup, trace);
    && s.context == ContextOf(setup, trace)
    && (s.id == "" ==> wanted.None? && s.owed.None? && s.shown.None?)
    && (s.id != "" ==> wanted.Some? && Pledged(s) == Some(wanted.value.ready))
  }

  /** Hearing a line has its status effect whether or not a command is waiting; a response
      line has none.  It never touches what was written, and can only end a wait. */
  lemma HearEffect(setup: Setup, s: Client, line: string)
    ensures var after, ask := Hear(setup, s, line), Asked(setup, s.context, CText(line));
      && after.context == NextContext(setup, s.context, CText(line))
      && after.id == s.id && after.shown == s.shown
      && after.owed == (if s.id != "" && ask.Some? then Some(ask.value.ready) else s.owed)
      && after.commands == s.commands && after.closing == s.closing
      && (after.waiting == s.waiting || after.waiting.None?)
  {
    var response := ParseResponse(CText(line));
    if response.Some? {
      ResponseIsNoStatus(CText(line));
    }
    HearAsEffect(setup, s.(heard := s.heard + [line]), CText(line), response);
  }

  lemma HearAsEffect(setup: Setup, s: Client, text: string, response: Option<Response>)
    requires response.Some? ==> Classify(text) == Other
    ensures var after, ask := HearAs(setup, s, text, response), Asked(setup, s.context, text);
      && after.context == NextContext(setup, s.context, text)
      && after.id == s.id && after.shown == s.shown
      && after.owed == (if s.id != "" && ask.Some? then Some(ask.value.ready) else s.owed)
      && after.commands == s.commands && after.closing == s.closing
      && (after.waiting == s.waiting || after.waiting.None?)
  {
  }

  lemma FaithfulStep(setup: Setup, t: seq<Event>, s: Client, e: Event)
    requires Faithful(setup, t, s) && Enabled(setup, s, e)
    ensures Faithful(setup, t + [e], Step(setup, s, e))
  {
    assert Init(t + [e]) == t && Last(t + [e]) == e;
    match e
    case Heard(line) => HearEffect(setup, s, line);
    case Wrote(c, complete) =>
    case Armed(id) =>
    case _ =>
  }

  lemma FaithfulStart(setup: Setup)
    ensures Faithful(setup, [], START)
  {
  }

  /** Deferral and coalescing are invisible: for every interleaving of lines, waits and
      failures, what the client has pledged is what an immediate client would have set. */
  lemma {:induction false} DeferralRefinesImmediateReaction(setup: Setup, trace: seq<Event>)
    requires Accepted(setup, trace)
    ensures Faithful(setup, trace, Run(setup, trace))
  {
    hide Step, Enabled, Wanted, ContextOf;
    if trace == [] {
      FaithfulStart(setup);
    } else {
      DeferralRefinesImmediateReaction(setup, Init(trace));
      FaithfulStep(setup, Init(trace), Run(setup, Init(trace)), Last(trace));
      assert Init(trace) + [Last(trace)] == trace;
    }
  }

  /** Without a recorded ID nothing is owed. */
  lemma NothingOwedWithoutId(setup: Setup, trace: seq<Event>)
    requires Accepted(setup, trace) && Run(setup, trace).id == ""
    ensures Run(setup, trace).owed.None?
  {
    DeferralRefinesImmediateReaction(setup, trace);
  }

  /** Every interlock frame carries the state wanted at that moment, never an older one. */
  lemma FrameCarriesLatestRequest(setup: Setup, trace: seq<Event>, k: nat, ready: bool, id: string, complete: bool)
    requires Accepted(setup, trace) && k < |trace|
    requires trace[k] == Wrote(Interlock(ready, id), complete)
    ensures Wanted(setup, trace[..k]).Some? && Wanted(setup, trace[..k]).value.ready == ready
    ensures id == Run(setup, trace[..k]).id && id != ""
  {
    PrefixAccepted(setup, trace, k);
    DeferralRefinesImmediateReaction(setup, trace[..k]);
  }

  /** Fail closed on the wire: every `ready` frame is written in an allowed context, and the
      last thing that called for an interlock state was a PTT request. */
  lemma ReadyFrameIsAllowedPtt(setup: Setup, trace: seq<Event>, k: nat, id: string, complete: bool)
    requires Accepted(setup, trace) && k < |trace|
    requires trace[k] == Wrote(Interlock(true, id), complete)
    ensures InPolicy(setup, ContextOf(setup, trace[..k]))
    ensures Wanted(setup, trace[..k]) == Some(Ask(true, PttRequested))
  {
    FrameCarriesLatestRequest(setup, trace, k, true, id, complete);
    ReadyIsWantedOnlyForAllowedPtt(setup, trace[..k]);
  }

  /** When the client sits waiting for the next line, the last state it wrote is the one wanted;
      in a forbidden context that state is `not_ready`. */
  lemma IdleClientHasToldTheRadio(setup: Setup, trace: seq<Event>)
    requires Accepted(setup, trace) && Idle(setup, Run(setup, trace)) && Run(setup, trace).id != ""
    ensures Wanted(setup, trace).Some? && Run(setup, trace).shown == Some(Wanted(setup, trace).value.ready)
    ensures !InPolicy(setup, ContextOf(setup, trace)) ==> Run(setup, trace).shown == Some(false)
  {
    DeferralRefinesImmediateReaction(setup, trace);
    ReadyIsWantedOnlyForAllowedPtt(setup, trace);
  }

  /** A forbidden context is never left unanswered: `not_ready` is owed or was written last. */
  lemma ForbiddenContextIsAnswered(setup: Setup, trace: seq<Event>)
    requires Accepted(setup, trace) && Run(setup, trace).id != ""
    requires !InPolicy(setup, ContextOf(setup, trace))
    ensures Pledged(Run(setup, trace)) == Some(false)
  {
    DeferralRefinesImmediateReaction(setup, trace);
    ReadyIsWantedOnlyForAllowedPtt(setup, trace);
  }

  // ------------------------------------------------------------------
  // Coalescing
  // ------------------------------------------------------------------

  /** The number of interlock state frames. */
  function FrameCount(commands: seq<Command>): nat {
    if commands == [] then 0
    else FrameCount(Init(commands)) + if Last(commands).Interlock? then 1 else 0
  }

  /** The number of times that something called for an interlock state. */
  ghost function AskCount(setup: Setup, trace: seq<Event>): nat {
    if trace == [] then 0
    else AskCount(setup, Init(trace)) + Calls(setup, Wanted(setup, Init(trace)).Some?, ContextOf(setup, Init(trace)), Last(trace))
  }

  /** Whether an event calls for an interlock state, given whether the interlock exists. */
  ghost function Calls(setup: Setup, armed: bool, c: Context, e: Event): nat {
    match e
    case Armed(_) => 1
    case Heard(line) => if armed && Asked(setup, c, CText(line)).Some? then 1 else 0
    case _ => 0
  }

  function Debt(s: Client): nat {
    FrameCount(s.commands) + if s.owed.Some? then 1 else 0
  }

  /** An event adds at most one frame or promise of a frame, and only by asking for one. */
  lemma DebtStep(setup: Setup, s: Client, e: Event)
    requires Enabled(setup, s, e)
    ensures Debt(Step(setup, s, e)) <= Debt(s) + Calls(setup, s.id != "", s.context, e)
  {
    match e
    case Heard(line) =>
      HearEffect(setup, s, line);
    case Wrote(c, complete) => WriteDebt(setup, s, c, complete);
    case _ =>
  }

  lemma WriteDebt(setup: Setup, s: Client, c: Command, complete: bool)
    requires MayIssue(setup, s, c)
    ensures Debt(Write(s, c, complete)) <= Debt(s)
  {
    assert Init(s.commands + [c]) == s.commands;
  }

  /** There are never more interlock frames than requests. */
  lemma {:induction false} NoMoreFramesThanRequests(setup: Setup, trace: seq<Event>)
    requires Accepted(setup, trace)
    ensures Debt(Run(setup, trace)) <= AskCount(setup, trace)
  {
    if trace != [] {
      var t := Init(trace);
      NoMoreFramesThanRequests(setup, t);
      DeferralRefinesImmediateReaction(setup, t);
      DebtStep(setup, Run(setup, t), Last(trace));
    }
  }

  predicate Silent(e: Event) {
    !e.Heard? && !e.Armed?
  }

  /** However many requests a burst held, at most one interlock frame goes out until the next
      line is read. */
  lemma {:induction false} BurstCollapsesToOneFrame(setup: Setup, burst: seq<Event>, quiet: seq<Event>)
    requires Accepted(setup, burst + quiet)
    requires forall i :: 0 <= i < |quiet| ==> Silent(quiet[i])
    ensures Wanted(setup, burst + quiet) == Wanted(setup, burst)
    ensures Accepted(setup, burst)
    ensures Debt(Run(setup, burst + quiet)) <= Debt(Run(setup, burst))
    ensures FrameCount(Run(setup, burst + quiet).commands) <= FrameCount(Run(setup, burst).commands) + 1
  {
    if quiet == [] {
      assert burst + quiet == burst;
    } else {
      var t := burst + Init(quiet);
      assert Init(burst + quiet) == t && Last(burst + quiet) == Last(quiet);
      BurstCollapsesToOneFrame(setup, burst, Init(quiet));
      DebtStep(setup, Run(setup, t), Last(quiet));
    }
  }

  /** That one frame carries the last request of the burst. */
  lemma BurstFrameCarriesLastRequest(setup: Setup, burst: seq<Event>, quiet: seq<Event>, e: Event)
    requires Accepted(setup, burst + quiet) && Enabled(setup, Run(setup, burst + quiet), e)
    requires forall i :: 0 <= i < |quiet| ==> Silent(quiet[i])
    requires e.Wrote? && e.command.Interlock?
    ensures Wanted(setup, burst).Some? && Wanted(setup, burst).value.ready == e.command.ready
  {
    BurstCollapsesToOneFrame(setup, burst, quiet);
    DeferralRefinesImmediateReaction(setup, burst + quiet);
  }

  // ------------------------------------------------------------------
  // The grammar of a session
  // ------------------------------------------------------------------

  /** After the create command: `not_ready`, then any interlock states, then perhaps `remove`. */
  ghost predicate InterlockTail(tail: seq<Command>, id: string) {
    var states := if tail != [] && Last(tail) == Remove(id) then Init(tail) else tail;
    && (forall i :: 0 <= i < |states| ==> states[i].Interlock? && states[i].id == id)
    && (states != [] ==> !states[0].ready)
  }

  ghost predicate SessionGrammar(setup: Setup, id: string, commands: seq<Command>) {
    if id == "" then
      commands <= STARTUP || (|commands| == 5 && CreatesInterlock(setup, commands))
    else
      |commands| >= 5 && CreatesInterlock(setup, commands) && InterlockTail(commands[5..], id)
  }

  /** The four start-up commands, and the creation of an interlock for the configured antennas. */
  predicate CreatesInterlock(setup: Setup, commands: seq<Command>)
    requires |commands| >= 5
  {
    !setup.observeOnly && commands[..4] == STARTUP && commands[4] == Create(AntennaText(setup))
  }

  ghost predicate Grammatical(setup: Setup, s: Client) {
    && SessionGrammar(setup, s.id, s.commands)
    && (s.waiting.Some? ==> s.commands != [] && s.waiting.value.command == Last(s.commands))
    && (Removed(s) ==> s.closing && s.id != "")
    && (s.id != "" && |s.commands| == 5 ==> s.owed == Some(false) && s.waiting.None?)
  }

  lemma StartupGrows(commands: seq<Command>, c: Command)
    requires commands <= STARTUP && |commands| < 4 && c == STARTUP[|commands|]
    ensures commands + [c] <= STARTUP
  {
  }

  lemma TailGrows(tail: seq<Command>, id: string, c: Command)
    requires InterlockTail(tail, id) && (tail != [] ==> !Last(tail).Remove?)
    requires c == Remove(id) || (c.Interlock? && c.id == id && (tail == [] ==> !c.ready))
    ensures InterlockTail(tail + [c], id)
  {
    assert Init(tail + [c]) == tail && Last(tail + [c]) == c;
    if c.Interlock? && tail != [] {
      assert (tail + [c])[0] == tail[0];
    }
  }

  lemma WriteKeepsGrammar(setup: Setup, s: Client, c: Command, complete: bool)
    requires Grammatical(setup, s) && MayIssue(setup, s, c)
    ensures Grammatical(setup, Write(s, c, complete))
  {
    var after := s.commands + [c];
    assert Last(after) == c;
    if s.id == "" {
      if c.Create? {
        assert s.commands == STARTUP;
        assert after[..4] == STARTUP && after[4] == c;
      } else {
        StartupGrows(s.commands, c);
      }
    } else {
      var tail := s.commands[5..];
      assert after[..4] == s.commands[..4] && after[5..] == tail + [c];
      assert tail != [] ==> Last(tail) == Last(s.commands);
      TailGrows(tail, s.id, c);
    }
  }

  lemma ArmKeepsGrammar(setup: Setup, s: Client, id: string)
    requires Grammatical(setup, s) && Enabled(setup, s, Armed(id))
    ensures Grammatical(setup, Step(setup, s, Armed(id)))
  {
    assert s.commands[5..] == [];
  }

  lemma GrammarStep(setup: Setup, s: Client, e: Event)
    requires Grammatical(setup, s) && Enabled(setup, s, e)
    ensures Grammatical(setup, Step(setup, s, e))
  {
    hide Hear, MayIssue, Oversized, NoUsableId, ListFits, AntennaText, GrantedId, Next, FirstMatch, Clip;
    match e
    case Wrote(c, complete) => WriteKeepsGrammar(setup, s, c, complete);
    case Armed(id) => ArmKeepsGrammar(setup, s, id);
    case Heard(line) => HearKeepsGrammar(setup, s, line);
    case _ =>
  }

  lemma HearKeepsGrammar(setup: Setup, s: Client, line: string)
    requires Grammatical(setup, s) && (s.waiting.Some? || Idle(setup, s))
    ensures Grammatical(setup, Hear(setup, s, line))
  {
    hide Hear, Asked, NextContext, SessionGrammar;
    HearEffect(setup, s, line);
    var after := Hear(setup, s, line);
    assert SessionGrammar(setup, after.id, after.commands);
  }

  /** On every exit path the frames attempted follow the session grammar. */
  lemma {:induction false} EverySessionIsGrammatical(setup: Setup, trace: seq<Event>)
    requires Accepted(setup, trace)
    ensures Grammatical(setup, Run(setup, trace))
  {
    if trace != [] {
      EverySessionIsGrammatical(setup, Init(trace));
      GrammarStep(setup, Run(setup, Init(trace)), Last(trace));
    }
  }

  /** The removal belongs to cleanup. */
  lemma NotRemovedBeforeCleanup(setup: Setup, trace: seq<Event>)
    requires Accepted(setup, trace) && !Run(setup, trace).closing
    ensures !Removed(Run(setup, trace))
  {
    EverySessionIsGrammatical(setup, trace);
  }

  // ------------------------------------------------------------------
  // Response accounting
  // ------------------------------------------------------------------

  function SettledResponses(settled: seq<Settlement>): multiset<Response> {
    if settled == [] then multiset{} else SettledResponses(Init(settled)) + multiset{Last(settled).response}
  }

  /** The responses among the lines heard. */
  function HeardResponses(heard: seq<string>): multiset<Response> {
    if heard == [] then multiset{}
    else
      match ParseResponse(CText(Last(heard)))
      case Some(r) => HeardResponses(Init(heard)) + multiset{Kept(r)}
      case None => HeardResponses(Init(heard))
  }

  ghost predicate Accounted(s: Client) {
    && |s.cache| == SAVED_RESPONSES
    && s.answers == Bag(s.cache) + s.dropped + SettledResponses(s.settled)
    && s.answers <= HeardResponses(s.heard)
    && (forall i :: 0 <= i < |s.settled| ==> s.settled[i].response.sequence == s.settled[i].issued.sequence)
    && (forall k :: 0 <= k < |s.cache| && s.cache[k].used ==> Kept(s.cache[k].response) == s.cache[k].response)
  }

  lemma SettleAccounts(s: Client, r: Response, t: Client)
    requires s.waiting.Some? && t == Settle(s, r)
    ensures SettledResponses(t.settled) == SettledResponses(s.settled) + multiset{Kept(r)}
  {
    assert Init(t.settled) == s.settled;
  }

  lemma SaveKeepsAccounts(s: Client, r: Response, t: Client)
    requires Accounted(s) && FirstFree(s.cache) < |s.cache|
    requires t == s.(heard := t.heard, answers := s.answers + multiset{Kept(r)}, cache := Saved(s.cache, r))
    requires t.answers <= HeardResponses(t.heard)
    ensures Accounted(t)
  {
    hide Bag, HeardResponses, SettledResponses;
    SaveAddsToBag(s.cache, r);
  }

  lemma AnswerKeepsAccounts(s: Client, r: Response, read: Client)
    requires Accounted(s) && s.waiting.Some? && r.sequence == s.waiting.value.sequence
    requires read == s.(heard := read.heard, answers := s.answers + multiset{Kept(r)})
    requires read.answers <= HeardResponses(read.heard)
    ensures Accounted(Settle(read, r))
  {
    hide Bag, HeardResponses, SettledResponses, Clip;
    SettleAccounts(read, r, Settle(read, r));
  }

  lemma DropKeepsAccounts(s: Client, r: Response, read: Client)
    requires Accounted(s)
    requires read == s.(heard := read.heard, answers := s.answers + multiset{Kept(r)})
    requires read.answers <= HeardResponses(read.heard)
    ensures Accounted(read.(dropped := s.dropped + multiset{Kept(r)}))
  {
  }

  lemma ResponseKeepsAccounts(s: Client, heard: seq<string>, r: Response)
    requires Accounted(s) && s.waiting.Some?
    requires HeardResponses(heard) == HeardResponses(s.heard) + multiset{Kept(r)}
    ensures Accounted(HearResponse(s.(heard := heard), r))
  {
    var read := s.(heard := heard, answers := s.answers + multiset{Kept(r)});
    if r.sequence == s.waiting.value.sequence {
      AnswerKeepsAccounts(s, r, read);
    } else if FirstFree(s.cache) == |s.cache| {
      DropKeepsAccounts(s, r, read);
    } else {
      SaveKeepsAccounts(s, r, read.(cache := Saved(s.cache, r)));
    }
  }

  lemma HeardOneMore(heard: seq<string>, line: string, response: Option<Response>)
    requires response == ParseResponse(CText(line))
    ensures HeardResponses(heard + [line])
         == HeardResponses(heard) + if response.Some? then multiset{Kept(response.value)} else multiset{}
  {
    assert Init(heard + [line]) == heard;
  }

  lemma HearKeepsAccounts(setup: Setup, s: Client, line: string)
    requires Accounted(s)
    ensures Accounted(Hear(setup, s, line))
  {
    var response := ParseResponse(CText(line));
    HeardOneMore(s.heard, line, response);
    HearAsKeepsAccounts(setup, s, s.heard + [line], CText(line), response);
  }

  lemma HearAsKeepsAccounts(setup: Setup, s: Client, heard: seq<string>, text: string, response: Option<Response>)
    requires Accounted(s)
    requires HeardResponses(heard)
          == HeardResponses(s.heard) + if response.Some? then multiset{Kept(response.value)} else multiset{}
    ensures Accounted(HearAs(setup, s.(heard := heard), text, response))
  {
    if s.waiting.Some? && response.Some? {
      ResponseKeepsAccounts(s, heard, response.value);
    }
  }

  lemma RecallKeepsAccounts(setup: Setup, s: Client)
    requires Accounted(s) && Cached(s)
    ensures Accounted(Step(setup, s, Recalled))
  {
    hide Bag, HeardResponses, SettledResponses;
    var w := s.waiting.value;
    var r := s.cache[FirstMatch(s.cache, w.sequence)].response;
    TakeRemovesFromBag(s.cache, w.sequence);
    SettleAccounts(s, r, Settle(s, r));
  }

  lemma AccountStep(setup: Setup, s: Client, e: Event)
    requires Accounted(s) && Enabled(setup, s, e)
    ensures Accounted(Step(setup, s, e))
  {
    match e
    case Heard(line) => HearKeepsAccounts(setup, s, line);
    case Recalled => RecallKeepsAccounts(setup, s);
    case _ =>
  }

  /** Whatever the radio sends, responses are conserved: each one read while a command was
      waiting is in the cache, was dropped because the cache was full, or settled one command,
      and that command had its number. */
  lemma {:induction false} EveryResponseIsAccountedFor(setup: Setup, trace: seq<Event>)
    requires Accepted(setup, trace)
    ensures Accounted(Run(setup, trace))
  {
    if trace == [] {
      assert Bag(EMPTY_CACHE) == multiset{} by { EmptyCacheBag(); }
    } else {
      EveryResponseIsAccountedFor(setup, Init(trace));
      AccountStep(setup, Run(setup, Init(trace)), Last(trace));
    }
  }

  /** The removal of the interlock was answered with success. */
  predicate Confirmed(s: Client) {
    s.settled != [] && Last(s.settled).issued.command.Remove? && Last(s.settled).response.code == 0
  }

  predicate SettledAtMostOnce(s: Client) {
    |s.settled| + (if s.waiting.Some? then 1 else 0) <= |s.commands|
  }

  /** The `i`-th command has succeeded: the frame that carried it is settled with code 0. */
  ghost predicate Succeeded(s: Client, wire: seq<string>, i: nat)
    requires i < |s.settled| && i < |s.commands| == |wire|
  {
    var settlement := s.settled[i];
    && settlement.issued.command == s.commands[i]
    && wire[i] == FrameText(settlement.issued.sequence, s.commands[i])
    && settlement.response.code == 0
  }

  /** How the commands, the frames on the wire and the settlements belong together. */
  ghost predicate Correlated(s: Client, wire: seq<string>) {
    && |wire| == |s.commands| && SettledAtMostOnce(s)
    && (s.waiting.Some? ==>
          wire != [] && Last(wire) == FrameText(s.waiting.value.sequence, s.waiting.value.command)
          && Last(s.commands) == s.waiting.value.command)
    && (Removed(s) ==> s.closing)
    && (Confirmed(s) ==> Removed(s) && s.waiting.None?)
    && (!s.broken ==>
          |s.settled| + (if s.waiting.Some? then 1 else 0) == |s.commands|
          && forall i :: 0 <= i < |s.settled| ==> Succeeded(s, wire, i))
  }

  lemma SettleKeepsCorrelation(s: Client, wire: seq<string>, r: Response, t: Client)
    requires Correlated(s, wire) && s.waiting.Some?
    requires var u := Settle(s, r); t == u.(heard := t.heard, answers := t.answers, cache := t.cache)
    ensures Correlated(t, wire)
  {
    hide FrameText, Clip;
    assert Last(t.settled) == Settlement(s.waiting.value, Kept(r));
    if !t.broken {
      forall i | 0 <= i < |t.settled| ensures Succeeded(t, wire, i) {
        if i < |s.settled| {
          assert Succeeded(s, wire, i);
        } else {
          assert t.settled[i] == Last(t.settled) && wire[i] == Last(wire) && t.commands[i] == Last(t.commands);
        }
      }
    }
  }

  lemma WriteKeepsCorrelation(setup: Setup, s: Client, wire: seq<string>, c: Command, complete: bool)
    requires Correlated(s, wire) && MayIssue(setup, s, c)
    ensures Correlated(Write(s, c, complete), wire + [FrameText(Next(s.sequence), c)])
  {
    hide FrameText, Next;
    var t, after := Write(s, c, complete), wire + [FrameText(Next(s.sequence), c)];
    assert Last(t.commands) == c && Last(after) == FrameText(Next(s.sequence), c);
    if !t.broken {
      forall i | 0 <= i < |t.settled| ensures Succeeded(t, after, i) {
        assert Succeeded(s, wire, i);
      }
    }
  }

  lemma HearKeepsCorrelation(setup: Setup, s: Client, wire: seq<string>, line: string)
    requires Correlated(s, wire)
    ensures Correlated(Hear(setup, s, line), wire)
  {
    hide FrameText, Asked, NextContext, CText, ParseResponse, Clip, FirstFree, Saved;
    var response := ParseResponse(CText(line));
    if s.waiting.Some? && response.Some? && response.value.sequence == s.waiting.value.sequence {
      SettleKeepsCorrelation(s, wire, response.value, Hear(setup, s, line));
    } else {
      var t := Hear(setup, s, line);
      SameCorrelation(s, t, wire);
    }
  }

  /** Nothing was written or settled; at most the session failed, or cleanup began. */
  lemma SameCorrelation(s: Client, t: Client, wire: seq<string>)
    requires Correlated(s, wire)
    requires t.commands == s.commands && t.settled == s.settled && (s.closing ==> t.closing)
    requires (t.waiting == s.waiting && t.broken == s.broken) || (t.waiting.None? && t.broken)
    ensures Correlated(t, wire)
  {
    hide FrameText;
    if !t.broken {
      forall i | 0 <= i < |t.settled| ensures Succeeded(t, wire, i) {
        assert Succeeded(s, wire, i);
      }
    }
  }

  lemma CorrelationStep(setup: Setup, s: Client, wire: seq<string>, e: Event)
    requires Correlated(s, wire) && Enabled(setup, s, e)
    ensures Correlated(Step(setup, s, e), wire + if e.Wrote? then [FrameText(Next(s.sequence), e.command)] else [])
  {
    hide FrameText, Hear, Next, FirstMatch, Clip, Succeeded;
    assert wire + [] == wire;
    match e
    case Wrote(c, complete) => WriteKeepsCorrelation(setup, s, wire, c, complete);
    case Heard(line) => HearKeepsCorrelation(setup, s, wire, line);
    case Recalled =>
      SettleKeepsCorrelation(s, wire, s.cache[FirstMatch(s.cache, s.waiting.value.sequence)].response, Step(setup, s, e));
    case _ => SameCorrelation(s, Step(setup, s, e), wire);
  }

  lemma {:induction false} EverySessionIsCorrelated(setup: Setup, trace: seq<Event>)
    requires Accepted(setup, trace)
    ensures Correlated(Run(setup, trace), WireTexts(setup, trace))
  {
    hide Step, Enabled, Correlated, FrameText;
    if trace == [] {
      NothingIsCorrelated();
    } else {
      var t := Init(trace);
      EverySessionIsCorrelated(setup, t);
      CorrelationStep(setup, Run(setup, t), WireTexts(setup, t), Last(trace));
      WireSnoc(setup, t, Last(trace));
      assert t + [Last(trace)] == trace;
    }
  }

  lemma NothingIsCorrelated()
    ensures Correlated(START, [])
  {
  }

  /** A command is settled only by a response that was read in this session and bears its
      number, no response that was read settles two commands, and as long as the session has not
      failed, every command before the one that waits has succeeded: the frame with its own number
      is on the wire, and a response with that number and code 0 has been read. */
  lemma EachCommandHasItsOwnResponse(setup: Setup, trace: seq<Event>)
    requires Accepted(setup, trace)
    ensures var s, wire := Run(setup, trace), WireTexts(setup, trace);
      && SettledResponses(s.settled) <= HeardResponses(s.heard)
      && (forall i :: 0 <= i < |s.settled| ==>
            s.settled[i].response.sequence == s.settled[i].issued.sequence && s.settled[i].response in HeardResponses(s.heard))
      && |wire| == |s.commands|
      && (!s.broken ==>
            |s.settled| + (if s.waiting.Some? then 1 else 0) == |s.commands|
            && forall i :: 0 <= i < |s.settled| ==> Succeeded(s, wire, i))
  {
    hide Run, WireTexts, HeardResponses, FrameText;
    EveryResponseIsAccountedFor(setup, trace);
    EverySessionIsCorrelated(setup, trace);
    var s := Run(setup, trace);
    forall i | 0 <= i < |s.settled| ensures s.settled[i].response in HeardResponses(s.heard) {
      SettledIsCounted(s.settled, i);
    }
  }

  lemma {:induction false} SettledIsCounted(settled: seq<Settlement>, i: nat)
    requires i < |settled|
    ensures settled[i].response in SettledResponses(settled)
  {
    if i < |settled| - 1 {
      SettledIsCounted(Init(settled), i);
      assert Init(settled)[i] == settled[i];
    }
  }

  lemma EmptyCacheBag()
    ensures Bag(EMPTY_CACHE) == multiset{}
  {
    UsedCountBound(EMPTY_CACHE);
    if r :| r in Bag(EMPTY_CACHE) {
      var k := SlotOf(EMPTY_CACHE, r);
    }
  }

  /** What was heard, written and settled is never taken back. */
  lemma {:induction false} HistoryGrows(setup: Setup, shorter: seq<Event>, longer: seq<Event>)
    requires Accepted(setup, longer) && shorter <= longer
    ensures Run(setup, shorter).heard <= Run(setup, longer).heard
    ensures Run(setup, shorter).commands <= Run(setup, longer).commands
    ensures Run(setup, shorter).settled <= Run(setup, longer).settled
    ensures Run(setup, shorter).stopped ==> Run(setup, longer).stopped
    ensures Run(setup, shorter).closing ==> Run(setup, longer).closing
  {
    hide Step, Enabled;
    if shorter != longer {
      HistoryGrows(setup, shorter, Init(longer));
      HistoryStep(setup, Run(setup, Init(longer)), Last(longer));
    }
  }

  lemma HistoryStep(setup: Setup, s: Client, e: Event)
    requires Enabled(setup, s, e)
    ensures var t := Step(setup, s, e);
      && s.heard <= t.heard && s.commands <= t.commands && s.settled <= t.settled
      && (s.stopped ==> t.stopped) && (s.closing ==> t.closing)
  {
    hide MayIssue, Oversized, NoUsableId, Asked, CText, NextContext, ParseResponse, Saved, FirstFree, FirstMatch, Taken, Clip, Next;
  }

  // ------------------------------------------------------------------
  // Failures and numbers
  // ------------------------------------------------------------------

  /** The event is a failure by itself: a frame not written, or an answer not waited for. */
  predicate Fails(e: Event) {
    e.Refused? || e.Abandoned? || (e.Wrote? && !e.complete)
  }

  /** A session fails exactly by such an event, or by an answer with another code than 0: commands
      that are written and answered with success in time never fail it. */
  lemma {:induction false} FailureHasACause(setup: Setup, trace: seq<Event>)
    requires Accepted(setup, trace)
    ensures Run(setup, trace).broken
       <==> (exists k :: 0 <= k < |trace| && Fails(trace[k]))
            || (exists i :: 0 <= i < |Run(setup, trace).settled| && Run(setup, trace).settled[i].response.code != 0)
  {
    hide Step, Enabled, Accepted;
    if trace != [] {
      var t, e := Init(trace), Last(trace);
      assert Accepted(setup, t) && Enabled(setup, Run(setup, t), e) by { LastIsEnabled(setup, trace); }
      FailureHasACause(setup, t);
      FailureStep(setup, Run(setup, t), e);
      assert trace == t + [e];
      assert forall k :: 0 <= k < |t| ==> trace[k] == t[k];
    }
  }

  lemma LastIsEnabled(setup: Setup, trace: seq<Event>)
    requires Accepted(setup, trace) && trace != []
    ensures Accepted(setup, Init(trace)) && Enabled(setup, Run(setup, Init(trace)), Last(trace))
  {
    hide Enabled, Run;
  }

  lemma FailureStep(setup: Setup, s: Client, e: Event)
    requires Enabled(setup, s, e)
    ensures var t := Step(setup, s, e);
      && s.settled <= t.settled && |t.settled| <= |s.settled| + 1
      && (t.broken <==> s.broken || Fails(e) || (|t.settled| > |s.settled| && Last(t.settled).response.code != 0))
  {
    hide MayIssue, Oversized, NoUsableId, Asked, CText, NextContext, ParseResponse, Saved, FirstFree, FirstMatch, Taken, Clip, Next;
  }

  /** How many frames have been numbered. */
  function Numbered(trace: seq<Event>): nat {
    if trace == [] then 0 else Numbered(Init(trace)) + if Last(trace).Wrote? || Last(trace).Refused? then 1 else 0
  }

  /** Frames are numbered one by one from 1, written or not, on 32 bits. */
  lemma {:induction false} FramesAreCounted(setup: Setup, trace: seq<Event>)
    requires Accepted(setup, trace)
    ensures Run(setup, trace).sequence == Numbered(trace) % 0x1_0000_0000
    ensures trace != [] && Last(trace).Wrote? ==>
      WireTexts(setup, trace) == WireTexts(setup, Init(trace)) + [FrameText(Numbered(trace) % 0x1_0000_0000, Last(trace).command)]
  {
    hide Step, Enabled, FrameText, Accepted;
    if trace != [] {
      var t, e := Init(trace), Last(trace);
      LastIsEnabled(setup, trace);
      FramesAreCounted(setup, t);
      NumberStep(setup, Run(setup, t), e);
      OneMore(Numbered(t));
      WireSnoc(setup, t, e);
      assert t + [e] == trace;
    }
  }

  lemma NumberStep(setup: Setup, s: Client, e: Event)
    ensures Step(setup, s, e).sequence == if e.Wrote? || e.Refused? then Next(s.sequence) else s.sequence
  {
    hide Asked, CText, NextContext, ParseResponse, Saved, FirstFree, FirstMatch, Taken, Clip, Next;
  }

  lemma OneMore(n: nat)
    ensures Next(n % 0x1_0000_0000) == (n + 1) % 0x1_0000_0000
  {
  }

  // ------------------------------------------------------------------
  // A granted ID is used
  // ------------------------------------------------------------------

  /** The radio answered the create command with success and a usable ID. */
  predicate Granted(s: Client) {
    && |s.settled| > 4 && s.settled[4].issued.command.Create? && s.settled[4].response.code == 0
    && UsableId(GrantedId(s.settled[4].response.body))
  }

  /** The create command has succeeded, and nothing has happened since. */
  predicate AwaitsArming(s: Client) {
    && s.id == "" && |s.commands| == 5 && s.waiting.None? && !s.broken && !s.closing
    && |s.settled| == 5 && s.grant == s.settled[4].response.body
  }

  /** A granted ID is about to be recorded, or has been. */
  ghost predicate GrantHonoured(s: Client) {
    && (s.waiting.Some? && !s.waiting.value.command.Remove? ==> !s.broken && !s.closing)
    && (s.waiting.Some? && s.waiting.value.command.Create? ==> s.id == "" && |s.commands| == 5)
    && (s.id == "" && |s.commands| == 5 ==> s.commands[4].Create?)
    && (s.id == "" && |s.commands| == 5 && s.waiting.None? && !s.broken && !s.closing ==> AwaitsArming(s))
    && (Granted(s) ==> AwaitsArming(s) || s.id == GrantedId(s.settled[4].response.body))
  }

  lemma SettleHonoursGrant(s: Client, wire: seq<string>, r: Response, t: Client)
    requires GrantHonoured(s) && Correlated(s, wire) && s.waiting.Some?
    requires var u := Settle(s, r); t == u.(heard := t.heard, answers := t.answers, cache := t.cache)
    ensures GrantHonoured(t)
  {
    hide FrameText, Clip, GrantedId, Succeeded;
    assert Last(t.settled) == Settlement(s.waiting.value, Kept(r)) && t.settled[..|s.settled|] == s.settled;
    if |s.settled| > 4 {
      assert t.settled[4] == s.settled[4];
    }
  }

  lemma GrantStep(setup: Setup, s: Client, wire: seq<string>, e: Event)
    requires GrantHonoured(s) && Correlated(s, wire) && Enabled(setup, s, e)
    ensures GrantHonoured(Step(setup, s, e))
  {
    hide FrameText, Hear, Next, FirstMatch, Clip, GrantedId, Succeeded, Oversized, IsAntennaList, ListFits;
    match e
    case Heard(line) => HearHonoursGrant(setup, s, wire, line);
    case Recalled =>
      SettleHonoursGrant(s, wire, s.cache[FirstMatch(s.cache, s.waiting.value.sequence)].response, Step(setup, s, e));
    case _ =>
  }

  lemma HearHonoursGrant(setup: Setup, s: Client, wire: seq<string>, line: string)
    requires GrantHonoured(s) && Correlated(s, wire)
    ensures GrantHonoured(Hear(setup, s, line))
  {
    hide FrameText, Asked, NextContext, CText, ParseResponse, Clip, FirstFree, Saved, Correlated, GrantedId;
    var response := ParseResponse(CText(line));
    if s.waiting.Some? && response.Some? && response.value.sequence == s.waiting.value.sequence {
      SettleHonoursGrant(s, wire, response.value, Hear(setup, s, line));
    }
  }

  lemma {:induction false} EveryGrantIsHonoured(setup: Setup, trace: seq<Event>)
    requires Accepted(setup, trace)
    ensures GrantHonoured(Run(setup, trace))
  {
    hide Step, Enabled, Correlated;
    if trace != [] {
      var t := Init(trace);
      EveryGrantIsHonoured(setup, t);
      EverySessionIsCorrelated(setup, t);
      GrantStep(setup, Run(setup, t), WireTexts(setup, t), Last(trace));
    }
  }

  /** A recorded ID contains no bar. */
  lemma {:induction false} RecordedIdHasNoBar(setup: Setup, trace: seq<Event>)
    requires Accepted(setup, trace)
    ensures '|' !in Run(setup, trace).id
  {
    hide Hear, MayIssue, Oversized, NoUsableId, GrantedId, Next, FirstMatch, Clip;
    if trace != [] {
      var s := Run(setup, Init(trace));
      RecordedIdHasNoBar(setup, Init(trace));
      match Last(trace)
      case Heard(line) => HearEffect(setup, s, line);
      case Armed(id) => GrantedIdHasNoBar(s.grant);
      case _ =>
    }
  }

  lemma GrantedIdHasNoBar(body: string)
    ensures '|' !in GrantedId(body)
  {
    assert forall k :: 0 <= k < |GrantedId(body)| ==> GrantedId(body)[k] == body[k];
  }

  /** The create command's answer arms what stands before its first bar. */
  lemma AnswerArmsItsId(setup: Setup, trace: seq<Event>, id: string, tail: string)
    requires Accepted(setup, trace) && Run(setup, trace).closing
    requires |Run(setup, trace).settled| > 4 && Run(setup, trace).settled[4].issued.command.Create?
    requires Run(setup, trace).settled[4].response.code == 0 && Run(setup, trace).settled[4].response.body == id + tail
    requires '|' !in id && (tail == "" || tail[0] == '|') && UsableId(id)
    ensures Run(setup, trace).id == id
  {
    hide Run, Accepted, GrantedId;
    GrantedIdIsRead(id, tail);
    UsableGrantIsArmed(setup, trace);
  }

  /** When cleanup begins, an interlock that the radio granted under a usable ID has been armed
      under that ID, whatever else has failed and whenever the program was stopped. */
  lemma UsableGrantIsArmed(setup: Setup, trace: seq<Event>)
    requires Accepted(setup, trace) && Run(setup, trace).closing && Granted(Run(setup, trace))
    ensures Run(setup, trace).id == GrantedId(Run(setup, trace).settled[4].response.body)
  {
    hide Run, Accepted;
    EveryGrantIsHonoured(setup, trace);
  }

  // ------------------------------------------------------------------
  // Frames are lines
  // ------------------------------------------------------------------

  /** Nothing that a later frame may carry contains a newline. */
  ghost predicate Plain(s: Client) {
    && '\n' !in s.id && '\n' !in s.grant
    && forall k :: 0 <= k < |s.cache| ==> '\n' !in s.cache[k].response.body
  }

  lemma PartIsPlain(s: string, i: nat, j: nat)
    requires '\n' !in s && i <= j <= |s|
    ensures '\n' !in s[i..j] && '\n' !in s[i..]
  {
  }

  lemma NumberFieldIsPlain(s: string, base: nat)
    requires '\n' !in s && NumberField(s, base).Some?
    ensures '\n' !in NumberField(s, base).value.1
  {
    hide Strtoul;
    PartIsPlain(s, Strtoul(s, base).end + 1, |s|);
  }

  lemma ResponseIsPlain(line: string)
    requires '\n' !in line && ParseResponse(CText(line)).Some?
    ensures '\n' !in Kept(ParseResponse(CText(line)).value).body
  {
    hide NumberField, IndexOf;
    var text := CText(line);
    PartIsPlain(line, 0, IndexOf(line, '\0'));
    PartIsPlain(text, 1, |text|);
    var cursor := NumberField(text[1..], 10).value.1;
    NumberFieldIsPlain(text[1..], 10);
    NumberFieldIsPlain(cursor, 16);
    var body := NumberField(cursor, 16).value.1;
    if |body| > RESPONSE_BODY {
      PartIsPlain(body, 0, RESPONSE_BODY);
    }
  }

  lemma PlainStep(setup: Setup, s: Client, e: Event)
    requires Plain(s) && Enabled(setup, s, e) && (e.Heard? ==> '\n' !in e.line)
    ensures Plain(Step(setup, s, e))
  {
    hide CText, ParseResponse, Asked, NextContext, FirstMatch, FirstFree, Clip, Next, IndexOf, Oversized, MayIssue, NoUsableId, Idle;
    match e
    case Heard(line) =>
      if ParseResponse(CText(line)).Some? {
        ResponseIsPlain(line);
      }
    case Recalled => KeptIsPlain(s.cache[FirstMatch(s.cache, s.waiting.value.sequence)].response);
    case Armed(id) => PartIsPlain(s.grant, 0, IndexOf(s.grant, '|'));
    case _ =>
  }

  lemma KeptIsPlain(r: Response)
    requires '\n' !in r.body
    ensures '\n' !in Kept(r).body
  {
    if |r.body| > RESPONSE_BODY {
      PartIsPlain(r.body, 0, RESPONSE_BODY);
    }
  }

  ghost predicate AllPlain(lines: seq<string>) {
    forall k :: 0 <= k < |lines| ==> '\n' !in lines[k]
  }

  ghost predicate AllOneLine(wire: seq<string>) {
    forall i :: 0 <= i < |wire| ==> IsOneLine(wire[i])
  }

  /** When no line heard and no antenna contains a newline, every frame of the session is exactly
      one line. */
  lemma {:induction false} EveryFrameIsOneLine(setup: Setup, trace: seq<Event>)
    requires Accepted(setup, trace) && '\n' !in AntennaText(setup) && AllPlain(Run(setup, trace).heard)
    ensures Plain(Run(setup, trace)) && AllOneLine(WireTexts(setup, trace))
  {
    hide Step, Enabled, Plain, AllOneLine, AllPlain, AntennaText, FrameText;
    if trace == [] {
      NothingIsPlain();
    } else {
      var t, e := Init(trace), Last(trace);
      HistoryGrows(setup, t, trace);
      HeardLast(setup, Run(setup, t), e);
      PlainPrefix(Run(setup, t).heard, Run(setup, trace).heard, e);
      EveryFrameIsOneLine(setup, t);
      PlainStep(setup, Run(setup, t), e);
      WireSnoc(setup, t, e);
      assert t + [e] == trace;
      FrameStep(setup, Run(setup, t), WireTexts(setup, t), e);
    }
  }

  lemma PlainPrefix(before: seq<string>, after: seq<string>, e: Event)
    requires before <= after && AllPlain(after) && (e.Heard? ==> after == before + [e.line])
    ensures AllPlain(before) && (e.Heard? ==> '\n' !in e.line)
  {
    assert forall k :: 0 <= k < |before| ==> before[k] == after[k];
    assert e.Heard? ==> after[|before|] == e.line;
  }

  lemma FrameStep(setup: Setup, s: Client, wire: seq<string>, e: Event)
    requires Plain(s) && AllOneLine(wire) && '\n' !in AntennaText(setup) && Enabled(setup, s, e)
    ensures AllOneLine(wire + if e.Wrote? then [FrameText(Next(s.sequence), e.command)] else [])
  {
    hide Enabled, Plain, AntennaText, FrameText, Next, IndexOf;
    if e.Wrote? {
      CommandIsOneLine(setup, s, e.command, e.complete);
      FrameIsOneLine(Next(s.sequence), e.command);
    }
  }

  /** The newline is the last character, and the only one. */
  predicate IsOneLine(frame: string) {
    IndexOf(frame, '\n') == |frame| - 1
  }

  lemma NothingIsPlain()
    ensures Plain(START) && AllOneLine([])
  {
  }

  lemma HeardLast(setup: Setup, s: Client, e: Event)
    ensures e.Heard? ==> Step(setup, s, e).heard == s.heard + [e.line]
  {
    hide CText, ParseResponse, Asked, NextContext, FirstMatch, FirstFree, Clip, Next, Saved;
  }

  lemma CommandIsOneLine(setup: Setup, s: Client, c: Command, complete: bool)
    requires Plain(s) && '\n' !in AntennaText(setup) && Enabled(setup, s, Wrote(c, complete))
    ensures OneLine(c)
  {
    hide Oversized, AntennaText, ListFits;
  }

  // ------------------------------------------------------------------
  // Freshness of the context
  // ------------------------------------------------------------------

  predicate SaysInvalid(line: string) {
    match Classify(CText(line))
    case Transmit(fields) =>
      Lookup(fields, "tx_antenna").Some? && SameText(Lookup(fields, "tx_antenna").value, "INVALID")
    case _ => false
  }

  predicate SuppliesFrequency(setup: Setup, line: string) {
    match Classify(CText(line))
    case Transmit(fields) =>
      Lookup(fields, "freq").Some? && setup.strtod(Clip(Lookup(fields, "freq").value, FREQ_LIMIT)).complete
    case _ => false
  }

  predicate SuppliesAntenna(line: string) {
    match Classify(CText(line))
    case Transmit(fields) =>
      (match Lookup(fields, "tx_antenna")
       case None => false
       case Some(v) => !SameText(v, "INVALID") && 1 <= |v| <= MAX_ANTENNA_ID)
    case _ => false
  }

  lemma {:induction false} NoFrequencyWithoutSupply(setup: Setup, t: seq<Event>, u: seq<Event>)
    requires !ContextOf(setup, t).hasFrequency
    requires forall i :: 0 <= i < |u| && u[i].Heard? ==> !SuppliesFrequency(setup, u[i].line)
    ensures !ContextOf(setup, t + u).hasFrequency
  {
    if u == [] {
      assert t + u == t;
    } else {
      assert Init(t + u) == t + Init(u) && Last(t + u) == Last(u);
      NoFrequencyWithoutSupply(setup, t, Init(u));
    }
  }

  lemma {:induction false} NoAntennaWithoutSupply(setup: Setup, t: seq<Event>, u: seq<Event>)
    requires ContextOf(setup, t).antenna == ""
    requires forall i :: 0 <= i < |u| && u[i].Heard? ==> !SuppliesAntenna(u[i].line)
    ensures ContextOf(setup, t + u).antenna == ""
  {
    if u == [] {
      assert t + u == t;
    } else {
      assert Init(t + u) == t + Init(u) && Last(t + u) == Last(u);
      NoAntennaWithoutSupply(setup, t, Init(u));
    }
  }

  /** Once the radio has reported an invalid antenna, nothing is allowed until later lines have
      supplied both a parseable frequency and a usable antenna. */
  lemma InvalidAntennaForgetsTheContext(setup: Setup, t: seq<Event>, line: string, u: seq<Event>)
    requires SaysInvalid(line)
    requires InPolicy(setup, ContextOf(setup, t + [Heard(line)] + u))
    ensures exists i :: 0 <= i < |u| && u[i].Heard? && SuppliesFrequency(setup, u[i].line)
    ensures exists i :: 0 <= i < |u| && u[i].Heard? && SuppliesAntenna(u[i].line)
  {
    var invalid := t + [Heard(line)];
    assert Init(invalid) == t && Last(invalid) == Heard(line);
    var c := ContextOf(setup, invalid);
    assert !c.hasFrequency && c.antenna == "";
    if forall i :: 0 <= i < |u| && u[i].Heard? ==> !SuppliesFrequency(setup, u[i].line) {
      NoFrequencyWithoutSupply(setup, invalid, u);
    }
    if forall i :: 0 <= i < |u| && u[i].Heard? ==> !SuppliesAntenna(u[i].line) {
      NoAntennaWithoutSupply(setup, invalid, u);
    }
  }
}
