/**
 The promise of the whole program, from the configuration document to the radio.
 */
module Guard {
  import opened Text
  import opened Policy
  import opened Config
  import opened Framing
  import opened Session
  import opened SessionSafety
  import opened AntennaList
  import opened Connection
  import opened Radio

  /** For every accepted configuration the list fits its buffer, the create frame fits its own
      with any sequence number, and the radio can recover the IDs. */
  lemma AcceptedAntennaListFits(root: seq<Member>, sequence: nat)
    requires InterlockOk(root) && sequence < 0x1_0000_0000
    ensures var list := CommaJoined(AntennaIds(root));
      && |list| < ANTENNA_LIST
      && |FrameText(sequence, Create(list))| < COMMAND_SIZE
      && SplitAtCommas(list) == AntennaIds(root)
  {
    hide SplitAtCommas, CommaJoined, Decimal, IsIdCharacter;
    var ids := AntennaIds(root);
    IdsAreShortAndCommaFree(root);
    JoinedLength(ids);
    SplitUndoesJoin(ids);
    SequenceDigits(sequence);
  }

  lemma IdsAreShortAndCommaFree(root: seq<Member>)
    requires InterlockOk(root)
    ensures 1 <= |AntennaIds(root)| <= MAX_ANTENNAS
    ensures forall i :: 0 <= i < |AntennaIds(root)| ==> ',' !in AntennaIds(root)[i] && |AntennaIds(root)[i]| <= MAX_ANTENNA_ID
  {
    var ids := AntennaIds(root);
    assert !IsIdCharacter(',');
    forall i | 0 <= i < |ids|
      ensures ',' !in ids[i] && |ids[i]| <= MAX_ANTENNA_ID
    {
      assert ValidAntennaId(ids[i]);
    }
  }

  /** The document allows transmitting in this context. */
  ghost predicate DocumentPermits(root: seq<Member>, c: Context) {
    c.hasFrequency && DocumentAllows(root, c.frequency, c.antenna)
  }

  /** The session runs with the masks compiled from an accepted document. */
  ghost predicate Configured(setup: Setup, root: seq<Member>) {
    InterlockOk(root) && PolicyOk(root) && Compiled(setup.policy, root)
  }

  lemma PolicyIsTheDocument(setup: Setup, root: seq<Member>, c: Context)
    requires Configured(setup, root)
    ensures InPolicy(setup, c) <==> DocumentPermits(root, c)
  {
    hide InterlockOk, PolicyOk, Compiled, DocumentAllows;
    ConfigurationMeansWhatItSays(root, setup.policy, c.frequency, c.antenna);
  }

  /** `ready` is written only for a PTT request, and only while the document allows the frequency
      and antenna that the radio last reported. */
  lemma ReadyOnlyWhenTheDocumentAllows(setup: Setup, root: seq<Member>, trace: seq<Event>, k: nat,
                                       id: string, complete: bool)
    requires Configured(setup, root) && Accepted(setup, trace)
    requires k < |trace| && trace[k] == Wrote(Interlock(true, id), complete)
    ensures DocumentPermits(root, ContextOf(setup, trace[..k]))
    ensures Wanted(setup, trace[..k]) == Some(Ask(true, PttRequested))
  {
    hide Configured, DocumentPermits, InPolicy;
    ReadyFrameIsAllowedPtt(setup, trace, k, id, complete);
    PolicyIsTheDocument(setup, root, ContextOf(setup, trace[..k]));
  }

  /** While the client waits for the next line, the radio's interlock is ready only if the
      document allows what the radio last reported. */
  lemma ReadyRadioIsAllowedByTheDocument(setup: Setup, root: seq<Member>, actions: seq<Action>)
    requires Configured(setup, root) && Reachable(setup, actions)
    requires Idle(setup, After(setup, actions).client) && After(setup, actions).client.id != ""
    requires After(setup, actions).ready
    ensures DocumentPermits(root, ContextOf(setup, ClientTrace(actions)))
  {
    hide Configured, DocumentPermits, InPolicy;
    IdleRadioIsInPolicy(setup, actions);
    PolicyIsTheDocument(setup, root, ContextOf(setup, ClientTrace(actions)));
  }

  /** What the document promises of a session, in every state and against every radio. */
  ghost predicate Guarded(setup: Setup, root: seq<Member>, trace: seq<Event>) {
    && (forall k {:trigger trace[k]} :: 0 <= k < |trace| && WritesReady(trace[k]) ==>
          DocumentPermits(root, ContextOf(setup, trace[..k])) && Wanted(setup, trace[..k]) == Some(Ask(true, PttRequested)))
    && (forall actions :: Reachable(setup, actions) && IdleAndReady(setup, After(setup, actions)) ==>
          DocumentPermits(root, ContextOf(setup, ClientTrace(actions))))
  }

  predicate WritesReady(e: Event) {
    e.Wrote? && e.command.Interlock? && e.command.ready
  }

  /** The client waits for the next line, and the radio's interlock is ready. */
  predicate IdleAndReady(setup: Setup, s: System) {
    Idle(setup, s.client) && s.client.id != "" && s.ready
  }

  lemma SessionIsGuarded(setup: Setup, root: seq<Member>, trace: seq<Event>)
    requires Configured(setup, root) && Accepted(setup, trace)
    ensures Guarded(setup, root, trace)
  {
    hide Configured, DocumentPermits, Accepted, Reachable, After, Wanted, ContextOf;
    forall k | 0 <= k < |trace| && WritesReady(trace[k])
      ensures DocumentPermits(root, ContextOf(setup, trace[..k])) && Wanted(setup, trace[..k]) == Some(Ask(true, PttRequested))
    {
      ReadyOnlyWhenTheDocumentAllows(setup, root, trace, k, trace[k].command.id, trace[k].complete);
    }
    forall actions | Reachable(setup, actions) && IdleAndReady(setup, After(setup, actions))
      ensures DocumentPermits(root, ContextOf(setup, ClientTrace(actions)))
    {
      ReadyRadioIsAllowedByTheDocument(setup, root, actions);
    }
  }

  /** The radio that this session ran against has its interlock off, and no frame is on its way. */
  ghost predicate Disarmed(setup: Setup, trace: seq<Event>) {
    forall actions :: Reachable(setup, actions) && ClientTrace(actions) == trace ==>
      !After(setup, actions).ready && After(setup, actions).up == []
  }

  lemma ConfirmedSessionDisarms(setup: Setup, trace: seq<Event>)
    requires Confirmed(Run(setup, trace))
    ensures Disarmed(setup, trace)
  {
    hide Reachable, After, Run, Confirmed;
    forall actions | Reachable(setup, actions) && ClientTrace(actions) == trace
      ensures !After(setup, actions).ready && After(setup, actions).up == []
    {
      ClientTraceIsAccepted(setup, actions);
      ConfirmedRemovalDisarms(setup, actions);
    }
  }

  /** IDs without a newline make a list without one. */
  lemma {:induction false} JoinedIsPlain(ids: seq<string>)
    requires forall i :: 0 <= i < |ids| ==> '\n' !in ids[i]
    ensures '\n' !in CommaJoined(ids)
  {
    if |ids| > 1 {
      var before, last := ids[..|ids| - 1], ids[|ids| - 1];
      JoinedIsPlain(before);
      assert '\n' !in CommaJoined(before) + ",";
      assert '\n' !in last;
    }
  }

  lemma DocumentListIsPlain(setup: Setup, root: seq<Member>)
    requires Configured(setup, root)
    ensures AntennaText(setup) == CommaJoined(AntennaIds(root)) && '\n' !in AntennaText(setup)
  {
    hide CommaJoined;
    var ids := AntennaIds(root);
    assert !IsIdCharacter('\n');
    forall i | 0 <= i < |ids| ensures '\n' !in ids[i] {
      assert ValidAntennaId(ids[i]);
    }
    JoinedIsPlain(ids);
    assert Ids(setup.policy) == ids;
  }

  /** If a create command was attempted, the radio can read the document's antennas from it. */
  ghost predicate NamesAntennas(s: Client, root: seq<Member>) {
    |s.commands| > 4 ==> s.commands[4].Create? && SplitAtCommas(s.commands[4].antennas) == AntennaIds(root)
  }

  lemma SessionNamesAntennas(setup: Setup, root: seq<Member>, trace: seq<Event>)
    requires Configured(setup, root) && Accepted(setup, trace)
    ensures NamesAntennas(Run(setup, trace), root)
  {
    hide Accepted, Run, SplitAtCommas, CommaJoined, Configured, FrameText, InterlockTail;
    EverySessionIsGrammatical(setup, trace);
    DocumentListIsPlain(setup, root);
    assert InterlockOk(root) by { ConfiguredIsOk(setup, root); }
    AcceptedAntennaListFits(root, 0);
  }

  lemma ConfiguredIsOk(setup: Setup, root: seq<Member>)
    requires Configured(setup, root)
    ensures InterlockOk(root)
  {
  }

  /** The program from the parsed document on: load it, and run a session with the masks compiled
      from it.  A document that is not well formed starts no session; with any other, the session
      keeps the document's promise, writes nothing but single lines, and names exactly the
      document's antennas when it creates the interlock.  An interlock that the radio granted is
      removed, and its removal is reported as confirmed only if it is off. */
  method LoadAndRun(document: Json, ipv4: string -> bool, strtod: string -> Parsed, observeOnly: bool,
                    connected: bool, input: seq<Wakeup>)
    returns (loaded: bool, result: SessionResult, confirmed: bool, wire: seq<string>,
             setup: Setup, ghost trace: seq<Event>)
    ensures loaded <==> DocumentOk(document, ipv4)
    ensures !loaded ==> wire == [] && !confirmed
    ensures loaded ==> Accepted(setup, trace) && wire == WireTexts(setup, trace) && AllOneLine(wire)
    ensures loaded ==> setup.observeOnly == observeOnly && setup.strtod == strtod
    ensures loaded ==> Guarded(setup, document.members, trace) && NamesAntennas(Run(setup, trace), document.members)
    ensures loaded && connected && Granted(Run(setup, trace)) ==> GrantRemoved(Run(setup, trace))
    ensures confirmed ==> Disarmed(setup, trace)
  {
    hide Accepted, Run, WireTexts, Guarded, Disarmed, Confirmed, DocumentAllows, Permits, NamesAntennas, AllOneLine;
    hide AntennaText, Granted, GrantedId, Served, Finished;
    var config := new Config();
    loaded := config.Load(document, ipv4);
    if !loaded {
      result, confirmed, wire, setup, trace := Unavailable, false, [], Setup([], observeOnly, strtod), [];
      return;
    }
    setup := Setup(config.Antennas(), observeOnly, strtod);
    ghost var root := document.members;
    ghost var closedAt, nested, stopped;
    DocumentListIsPlain(setup, root);
    result, confirmed, wire, trace, closedAt, nested, stopped := RunSession(setup, connected, input);
    SessionIsGuarded(setup, root, trace);
    SessionNamesAntennas(setup, root, trace);
    if confirmed {
      ConfirmedSessionDisarms(setup, trace);
    }
  }
}
