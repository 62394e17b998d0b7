/**
 The program's README promises that unkey, a forbidden context and an out-of-policy transmission
 make the client reassert `not_ready`.  The code does so in part: this module says exactly when a
 line that calls for `not_ready` leads to such a frame (`src/flex.c`).
 */
module Reassertion {
  import opened Text
  import opened Responses
  import opened Session
  import opened SessionSafety

  /** In the context before it, the line calls for `not_ready`. */
  ghost predicate CallsForNotReady(setup: Setup, before: seq<Event>, line: string) {
    var ask := Asked(setup, ContextOf(setup, before), CText(line));
    ask.Some? && !ask.value.ready
  }

  /** The event calls for an interlock state, and so replaces what was called for before. */
  ghost predicate Replaces(setup: Setup, before: seq<Event>, e: Event) {
    e.Armed? || (e.Heard? && Asked(setup, ContextOf(setup, before), CText(e.line)).Some?)
  }

  /** Nothing in `after` replaces what was last called for. */
  ghost predicate Undisturbed(setup: Setup, before: seq<Event>, after: seq<Event>) {
    forall i :: 0 <= i < |after| ==> !Replaces(setup, before + after[..i], after[i])
  }

  predicate WritesNotReady(e: Event) {
    e.Wrote? && e.command.Interlock? && !e.command.ready
  }

  predicate WritesState(e: Event) {
    e.Wrote? && e.command.Interlock?
  }

  lemma UndisturbedInit(setup: Setup, before: seq<Event>, after: seq<Event>)
    requires after != [] && Undisturbed(setup, before, after)
    ensures Undisturbed(setup, before, Init(after)) && !Replaces(setup, before + Init(after), Last(after))
  {
    hide Replaces;
    forall i | 0 <= i < |Init(after)| ensures !Replaces(setup, before + Init(after)[..i], Init(after)[i]) {
      assert Init(after)[..i] == after[..i] && Init(after)[i] == after[i];
    }
    assert after[..|after| - 1] == Init(after);
  }

  /** What a request has come to: not yet written, or written. */
  ghost predicate Pending(s: Client, after: seq<Event>) {
    if s.id == "" then s.owed.None? && forall i :: 0 <= i < |after| ==> !WritesState(after[i])
    else if s.owed.Some? then s.owed == Some(false) && forall i :: 0 <= i < |after| ==> !WritesState(after[i])
    else exists i :: 0 <= i < |after| && WritesNotReady(after[i])
  }

  lemma PendingStep(setup: Setup, s: Client, after: seq<Event>, e: Event)
    requires Pending(s, after) && Enabled(setup, s, e) && !e.Armed?
    requires e.Heard? ==> Asked(setup, s.context, CText(e.line)).None?
    ensures Pending(Step(setup, s, e), after + [e]) && Step(setup, s, e).id == s.id
  {
    hide Hear, Asked, CText, Next, FrameText;
    assert (after + [e])[|after|] == e;
    assert forall i :: 0 <= i < |after| ==> (after + [e])[i] == after[i];
    match e
    case Heard(line) => HearEffect(setup, s, line);
    case _ =>
  }

  lemma {:induction false} RequestStaysPending(setup: Setup, asked: seq<Event>, after: seq<Event>)
    requires Accepted(setup, asked + after) && Undisturbed(setup, asked, after)
    requires Pending(Run(setup, asked), [])
    ensures Pending(Run(setup, asked + after), after)
    ensures Run(setup, asked + after).id == Run(setup, asked).id
    decreases |after|
  {
    hide Step, Enabled, Pending, Asked, CText, Undisturbed;
    if after == [] {
      assert asked + after == asked;
    } else {
      var t, e := asked + Init(after), Last(after);
      assert Init(asked + after) == t && Last(asked + after) == e;
      UndisturbedInit(setup, asked, after);
      RequestStaysPending(setup, asked, Init(after));
      DeferralRefinesImmediateReaction(setup, t);
      PendingStep(setup, Run(setup, t), Init(after), e);
      assert Init(after) + [e] == after;
    }
  }

  /** Right after the line the request is pending, provided an ID has been recorded. */
  lemma RequestIsPending(setup: Setup, before: seq<Event>, line: string)
    requires Accepted(setup, before + [Heard(line)]) && CallsForNotReady(setup, before, line)
    ensures var s := Run(setup, before + [Heard(line)]);
      Accepted(setup, before) && Pending(s, []) && s.id == Run(setup, before).id && (s.id != "" ==> s.owed == Some(false))
  {
    hide Step, Enabled, Asked, CText, Hear;
    var asked := before + [Heard(line)];
    assert Init(asked) == before && Last(asked) == Heard(line);
    DeferralRefinesImmediateReaction(setup, before);
    HearEffect(setup, Run(setup, before), line);
    assert Run(setup, asked) == Step(setup, Run(setup, before), Heard(line));
    StepOfHeard(setup, Run(setup, before), line);
  }

  lemma StepOfHeard(setup: Setup, s: Client, line: string)
    ensures Step(setup, s, Heard(line)) == Hear(setup, s, line)
  {
    hide Hear;
  }

  /** Unless a later request replaces it, a call for `not_ready` has been answered with a frame if
      and only if an ID had been recorded when the line was heard and no update is pending now. */
  lemma NotReadyIsWrittenUnlessPending(setup: Setup, before: seq<Event>, line: string, after: seq<Event>)
    requires Accepted(setup, before + [Heard(line)] + after)
    requires CallsForNotReady(setup, before, line) && Undisturbed(setup, before + [Heard(line)], after)
    ensures (exists i :: 0 <= i < |after| && WritesNotReady(after[i]))
       <==> Run(setup, before).id != "" && Run(setup, before + [Heard(line)] + after).owed.None?
  {
    hide CallsForNotReady, Undisturbed, Run;
    var asked := before + [Heard(line)];
    assert (asked + after)[..|asked|] == asked;
    PrefixAccepted(setup, asked + after, |asked|);
    RequestIsPending(setup, before, line);
    RequestStaysPending(setup, asked, after);
    var s := Run(setup, asked + after);
    assert forall e :: WritesNotReady(e) ==> WritesState(e);
  }

  lemma {:induction false} RecordedIdFits(setup: Setup, trace: seq<Event>)
    requires Accepted(setup, trace)
    ensures |Run(setup, trace).id| < INTERLOCK_ID
  {
    hide Hear, MayIssue, Oversized, NoUsableId, GrantedId, Next;
    if trace != [] {
      RecordedIdFits(setup, Init(trace));
      match Last(trace)
      case Heard(line) => HearEffect(setup, Run(setup, Init(trace)), line);
      case _ =>
    }
  }

  /** As soon as no command is outstanding, the pending state is the very next frame, unless the
      stop request is seen first. */
  lemma PendingIsWrittenNext(setup: Setup, trace: seq<Event>, e: Event)
    requires Accepted(setup, trace) && Enabled(setup, Run(setup, trace), e)
    requires var s := Run(setup, trace); s.waiting.None? && !Over(s) && s.owed.Some?
    ensures var s := Run(setup, trace); e == StopSeen || (e.Wrote? && e.command == Interlock(s.owed.value, s.id))
  {
    hide Run, Accepted, FrameText, ListFits, IsAntennaList, GrantedId;
    var s := Run(setup, trace);
    DeferralRefinesImmediateReaction(setup, trace);
    RecordedIdFits(setup, trace);
    InterlockFrameFits(Next(s.sequence), Interlock(s.owed.value, s.id));
  }

  /** A command has failed, cleanup has begun, or the stop request has been seen. */
  predicate Over(s: Client) {
    s.broken || s.closing || s.stopped
  }

  /** From then on no interlock state is written any more. */
  lemma {:induction false} NoStateWhenOver(setup: Setup, trace: seq<Event>, more: seq<Event>)
    requires Accepted(setup, trace + more) && Over(Run(setup, trace))
    ensures forall i :: 0 <= i < |more| ==> !WritesState(more[i])
    ensures Over(Run(setup, trace + more))
    decreases |more|
  {
    hide Step, Enabled, Over;
    if more == [] {
      assert trace + more == trace;
    } else {
      var t, e := trace + Init(more), Last(more);
      assert Init(trace + more) == t && Last(trace + more) == e;
      NoStateWhenOver(setup, trace, Init(more));
      OverStep(setup, Run(setup, t), e);
      assert forall i :: 0 <= i < |Init(more)| ==> more[i] == Init(more)[i];
    }
  }

  lemma OverStep(setup: Setup, s: Client, e: Event)
    requires Over(s) && Enabled(setup, s, e)
    ensures !WritesState(e) && Over(Step(setup, s, e))
  {
    hide Asked, CText, NextContext, ParseResponse, Saved, FirstFree, FirstMatch, Taken, Clip, Next, Oversized, NoUsableId, IsAntennaList;
  }

  /** The events of `wait` happened while a command was outstanding, which now is over. */
  ghost predicate Outlasts(setup: Setup, asked: seq<Event>, wait: seq<Event>) {
    && Run(setup, asked + wait).waiting.None?
    && forall i :: 0 <= i < |wait| ==> Run(setup, asked + wait[..i]).waiting.Some?
  }

  /** While a command is outstanding no interlock state is written. */
  lemma NoStateWhileWaiting(setup: Setup, asked: seq<Event>, wait: seq<Event>)
    requires Accepted(setup, asked + wait) && Outlasts(setup, asked, wait)
    ensures forall i :: 0 <= i < |wait| ==> !WritesState(wait[i])
  {
    hide Run, Accepted, Oversized, IsAntennaList, NoUsableId;
    forall i | 0 <= i < |wait| ensures !WritesState(wait[i]) {
      PrefixAccepted(setup, asked + wait, |asked| + i);
      assert (asked + wait)[..|asked| + i] == asked + wait[..i] && (asked + wait)[|asked| + i] == wait[i];
    }
  }

  /** The same, told by what happens to the client.  `wait` lasts until the command outstanding when
      the line was heard is over (it is empty if there is none), and `e` is what comes next.  Unless
      a later request replaces it, a call for `not_ready` leads to such a frame if and only if an ID
      had been recorded, the outstanding command did not fail, cleanup had not begun, and the stop
      request is not seen before the frame is due. */
  lemma NotReadyIsReasserted(setup: Setup, before: seq<Event>, line: string, wait: seq<Event>, e: Event, rest: seq<Event>)
    requires Accepted(setup, before + [Heard(line)] + (wait + [e] + rest))
    requires CallsForNotReady(setup, before, line)
    requires Undisturbed(setup, before + [Heard(line)], wait + [e] + rest)
    requires Outlasts(setup, before + [Heard(line)], wait)
    ensures var s, after := Run(setup, before + [Heard(line)] + wait), wait + [e] + rest;
      (exists i :: 0 <= i < |after| && WritesNotReady(after[i]))
      <==> Run(setup, before).id != "" && !Over(s) && e != StopSeen
  {
    hide CallsForNotReady, Undisturbed, Run, Accepted, Outlasts, Enabled, Over;
    var asked, after := before + [Heard(line)], wait + [e] + rest;
    var due := asked + wait;
    PrefixAccepted(setup, asked + after, |due|);
    assert (asked + after)[..|due|] == due && (asked + after)[|due|] == e;
    NotReadyIsWrittenUnlessPending(setup, before, line, after);
    NoStateWhileWaiting(setup, asked, wait);
    assert asked + after == due + ([e] + rest);
    if Run(setup, before).id != "" {
      DueRequest(setup, before, line, wait, after);
      if Over(Run(setup, due)) {
        NoStateWhenOver(setup, due, [e] + rest);
        NotWrittenInParts(wait, [e] + rest, after);
      } else {
        PendingIsWrittenNext(setup, due, e);
        if e.Wrote? {
          assert after[|wait|] == e;
        } else {
          StopsForGood(setup, due, rest);
          NotWrittenInParts(wait, [e] + rest, after);
        }
      }
    }
  }

  /** For whole sessions in which no stop was requested: a call for `not_ready` that no later request
      replaces is written if and only if an ID had been recorded, the command outstanding at the
      time did not fail, and cleanup had not begun. */
  lemma NotReadyIsReassertedUnlessStopped(setup: Setup, before: seq<Event>, line: string, wait: seq<Event>, rest: seq<Event>)
    requires Accepted(setup, before + [Heard(line)] + (wait + rest))
    requires CallsForNotReady(setup, before, line)
    requires Undisturbed(setup, before + [Heard(line)], wait + rest)
    requires Outlasts(setup, before + [Heard(line)], wait)
    requires var end := Run(setup, before + [Heard(line)] + (wait + rest)); end.closing && !end.stopped
    ensures var s, after := Run(setup, before + [Heard(line)] + wait), wait + rest;
      (exists i :: 0 <= i < |after| && WritesNotReady(after[i]))
      <==> Run(setup, before).id != "" && !s.broken && !s.closing
  {
    hide CallsForNotReady, Undisturbed, Run, Accepted, Outlasts;
    var asked, after := before + [Heard(line)], wait + rest;
    var due, whole := asked + wait, asked + after;
    assert whole[..|due|] == due;
    HistoryGrows(setup, due, whole);
    if rest == [] {
      assert after == wait && whole == due;
      NoStateWhileWaiting(setup, asked, wait);
      NotWrittenInParts(wait, [], after);
    } else {
      var e, more := rest[0], rest[1..];
      assert wait + [e] + more == after;
      NotReadyIsReasserted(setup, before, line, wait, e, more);
      if e == StopSeen {
        assert whole[..|due| + 1] == due + [StopSeen];
        HistoryGrows(setup, due + [StopSeen], whole);
        StopIsSeen(setup, due);
      }
    }
  }

  lemma StopIsSeen(setup: Setup, due: seq<Event>)
    ensures Run(setup, due + [StopSeen]).stopped
  {
    assert Init(due + [StopSeen]) == due;
  }

  lemma NotWrittenInParts(wait: seq<Event>, more: seq<Event>, after: seq<Event>)
    requires after == wait + more
    requires forall i :: 0 <= i < |wait| ==> !WritesState(wait[i])
    requires forall i :: 0 <= i < |more| ==> !WritesState(more[i])
    ensures forall i :: 0 <= i < |after| ==> !WritesNotReady(after[i])
  {
    forall i | 0 <= i < |after| ensures !WritesNotReady(after[i]) {
      assert after[i] == if i < |wait| then wait[i] else more[i - |wait|];
    }
  }

  /** When the outstanding command is over, the request is still pending. */
  lemma DueRequest(setup: Setup, before: seq<Event>, line: string, wait: seq<Event>, after: seq<Event>)
    requires wait <= after && Accepted(setup, before + [Heard(line)] + after)
    requires CallsForNotReady(setup, before, line) && Undisturbed(setup, before + [Heard(line)], after)
    requires Outlasts(setup, before + [Heard(line)], wait) && Run(setup, before).id != ""
    ensures var s := Run(setup, before + [Heard(line)] + wait); s.owed == Some(false) && s.waiting.None? && s.id != ""
  {
    hide CallsForNotReady, Run, Accepted, Replaces;
    var asked := before + [Heard(line)];
    assert (asked + after)[..|asked|] == asked && (asked + after)[..|asked + wait|] == asked + wait;
    PrefixAccepted(setup, asked + after, |asked|);
    PrefixAccepted(setup, asked + after, |asked + wait|);
    assert Undisturbed(setup, asked, wait) by {
      forall i | 0 <= i < |wait| ensures !Replaces(setup, asked + wait[..i], wait[i]) {
        assert wait[..i] == after[..i] && wait[i] == after[i];
      }
    }
    NoStateWhileWaiting(setup, asked, wait);
    RequestIsPending(setup, before, line);
    RequestStaysPending(setup, asked, wait);
    NotWrittenInParts(wait, [], wait);
  }

  /** Once the stop request is seen, no interlock state is written any more. */
  lemma StopsForGood(setup: Setup, due: seq<Event>, rest: seq<Event>)
    requires Accepted(setup, due + ([StopSeen] + rest))
    ensures forall i :: 0 <= i < |[StopSeen] + rest| ==> !WritesState(([StopSeen] + rest)[i])
  {
    hide Accepted, Run;
    var t := due + [StopSeen];
    assert due + ([StopSeen] + rest) == t + rest;
    StopIsSeen(setup, due);
    NoStateWhenOver(setup, t, rest);
    assert forall i :: 0 < i < |[StopSeen] + rest| ==> ([StopSeen] + rest)[i] == rest[i - 1];
  }

  predicate WritesRemoval(e: Event) {
    e.Wrote? && e.command.Remove?
  }

  /** When the session has ended with its removal, every request is followed by that removal if and
      only if cleanup had not begun when it was heard. */
  lemma RequestIsFollowedByRemoval(setup: Setup, before: seq<Event>, line: string, after: seq<Event>)
    requires Accepted(setup, before + [Heard(line)] + after) && Removed(Run(setup, before + [Heard(line)] + after))
    ensures (exists i :: 0 <= i < |after| && WritesRemoval(after[i])) <==> !Run(setup, before).closing
  {
    hide Run, Accepted, Removed;
    var asked := before + [Heard(line)];
    assert (asked + after)[..|before|] == before && (asked + after)[|before|] == Heard(line);
    PrefixAccepted(setup, asked + after, |before|);
    EverySessionIsCorrelated(setup, before);
    EveryGrantIsHonoured(setup, before);
    HeardDuringCleanup(setup, Run(setup, before), WireTexts(setup, before), line);
    RunOfHeard(setup, before, line);
    RemovalStep(setup, Run(setup, before), Heard(line));
    RemovalFollows(setup, asked, after);
  }

  lemma RunOfHeard(setup: Setup, before: seq<Event>, line: string)
    ensures Run(setup, before + [Heard(line)]) == Step(setup, Run(setup, before), Heard(line))
  {
    hide Step;
    assert Init(before + [Heard(line)]) == before;
  }

  /** During cleanup lines are heard only while the removal awaits its answer. */
  lemma HeardDuringCleanup(setup: Setup, s: Client, wire: seq<string>, line: string)
    requires Enabled(setup, s, Heard(line)) && Correlated(s, wire) && GrantHonoured(s)
    ensures s.closing <==> Removed(s)
  {
    hide FrameText, Succeeded, Cached, Granted, AwaitsArming;
  }

  lemma {:induction false} RemovalFollows(setup: Setup, asked: seq<Event>, after: seq<Event>)
    requires Accepted(setup, asked + after) && Removed(Run(setup, asked + after))
    ensures (exists i :: 0 <= i < |after| && WritesRemoval(after[i])) <==> !Removed(Run(setup, asked))
    decreases |after|
  {
    hide Step, Enabled, Removed;
    if after == [] {
      assert asked + after == asked;
    } else {
      var t, e := asked + Init(after), Last(after);
      assert Init(asked + after) == t && Last(asked + after) == e;
      EverySessionIsGrammatical(setup, t);
      RemovalStep(setup, Run(setup, t), e);
      assert after == Init(after) + [e];
      if Removed(Run(setup, t)) {
        RemovalFollows(setup, asked, Init(after));
        assert forall i :: 0 <= i < |Init(after)| ==> after[i] == Init(after)[i];
      } else {
        assert after[|after| - 1] == e;
        if Removed(Run(setup, asked)) {
          RemovalIsLast(setup, asked, Init(after));
        }
      }
    }
  }

  lemma RemovalStep(setup: Setup, s: Client, e: Event)
    requires Enabled(setup, s, e) && (Removed(s) ==> s.closing)
    ensures Removed(s) ==> Removed(Step(setup, s, e)) && !e.Wrote?
    ensures !Removed(s) && Removed(Step(setup, s, e)) ==> WritesRemoval(e)
  {
    hide Asked, CText, NextContext, ParseResponse, Saved, FirstFree, FirstMatch, Taken, Clip, Next, Oversized, NoUsableId, IsAntennaList;
  }

  lemma {:induction false} RemovalIsLast(setup: Setup, trace: seq<Event>, more: seq<Event>)
    requires Accepted(setup, trace + more) && Removed(Run(setup, trace))
    ensures Removed(Run(setup, trace + more))
    decreases |more|
  {
    hide Step, Enabled, Removed;
    if more == [] {
      assert trace + more == trace;
    } else {
      var t, e := trace + Init(more), Last(more);
      assert Init(trace + more) == t && Last(trace + more) == e;
      RemovalIsLast(setup, trace, Init(more));
      EverySessionIsGrammatical(setup, t);
      RemovalStep(setup, Run(setup, t), e);
    }
  }

  // ------------------------------------------------------------------
  // Requests that are forgotten
  // ------------------------------------------------------------------

  /** An interlock status, in two parts: key and value. */
  const UNKEY_FIELDS := "state=" + "UNKEY_REQUESTED"
  const UNKEY_LINE := "S0|" + ("interlock " + UNKEY_FIELDS)

  /** The promise fails for an unkey request that is heard while the first command is outstanding:
      it calls for `not_ready`, and the session may end without any interlock frame. */
  lemma EarlyUnkeyIsForgotten(setup: Setup)
    ensures var before := [Wrote(Name, true)];
      var trace := before + [Heard(UNKEY_LINE)] + [Abandoned(NothingRead), Closing];
      && Accepted(setup, trace) && CallsForNotReady(setup, before, UNKEY_LINE)
      && Run(setup, trace).closing && Run(setup, trace).commands == [Name]
  {
    hide CText, Asked, Hear, ParseResponse, Oversized, NoUsableId, IsAntennaList, Next;
    var t0: seq<Event> := [];
    var t1 := t0 + [Wrote(Name, true)];
    assert t1 == [Wrote(Name, true)];
    NothingIsCached();
    ShortFrameFits(START, Name);
    RunSnoc(setup, t0, Wrote(Name, true));
    UnkeyIsHeard(setup, t1);
    var t2 := t1 + [Heard(UNKEY_LINE)];
    RunSnoc(setup, t2, Abandoned(NothingRead));
    RunSnoc(setup, t2 + [Abandoned(NothingRead)], Closing);
    assert t2 + [Abandoned(NothingRead), Closing] == t2 + [Abandoned(NothingRead)] + [Closing];
  }

  /** It fails as well in an armed session, whenever the request is heard while a command is
      outstanding and the stop request is seen before that command is over: the session goes to
      cleanup with the request still pending. */
  lemma StopForgetsUnkey(setup: Setup, before: seq<Event>)
    requires Accepted(setup, before)
    requires var s := Run(setup, before); s.id != "" && s.waiting.Some? && !Cached(s) && !s.closing && !s.stopped
    ensures var trace := before + [Heard(UNKEY_LINE)] + [StopSeen, Abandoned(StopRequested), Closing];
      && Accepted(setup, trace) && CallsForNotReady(setup, before, UNKEY_LINE)
      && Run(setup, trace).owed == Some(false) && Run(setup, trace).commands == Run(setup, before).commands
  {
    hide CText, Asked, Hear, ParseResponse, Oversized, NoUsableId, IsAntennaList, Cached;
    UnkeyIsHeard(setup, before);
    var t := before + [Heard(UNKEY_LINE)];
    RunSnoc(setup, t, StopSeen);
    RunSnoc(setup, t + [StopSeen], Abandoned(StopRequested));
    RunSnoc(setup, t + [StopSeen] + [Abandoned(StopRequested)], Closing);
    assert t + [StopSeen, Abandoned(StopRequested), Closing] == t + [StopSeen] + [Abandoned(StopRequested)] + [Closing];
  }

  lemma UnkeyIsHeard(setup: Setup, before: seq<Event>)
    requires Accepted(setup, before) && Enabled(setup, Run(setup, before), Heard(UNKEY_LINE))
    requires Run(setup, before).waiting.Some?
    ensures var s, t := Run(setup, before), Run(setup, before + [Heard(UNKEY_LINE)]);
      && Accepted(setup, before + [Heard(UNKEY_LINE)]) && CallsForNotReady(setup, before, UNKEY_LINE)
      && t == s.(context := t.context, heard := t.heard, owed := if s.id != "" then Some(false) else s.owed)
  {
    hide CText, Asked, NextContext, ParseResponse, Enabled;
    UnkeyAsks(setup, ContextOf(setup, before));
    UnkeyAsks(setup, Run(setup, before).context);
    RunSnoc(setup, before, Heard(UNKEY_LINE));
  }

  lemma NothingIsCached()
    ensures forall n :: FirstMatch(EMPTY_CACHE, n) == |EMPTY_CACHE|
  {
  }

  lemma UnkeyAsks(setup: Setup, c: Context)
    ensures ParseResponse(CText(UNKEY_LINE)).None?
    ensures Asked(setup, c, CText(UNKEY_LINE)) == Some(Ask(false, UnkeyRequested))
  {
    hide CText, Classify, Lookup, ParseResponse, InPolicy;
    UnkeyIsText();
    UnkeyIsInterlockStatus();
    UnkeyFieldsSayUnkey();
    NoResponse(UNKEY_LINE);
  }

  lemma NoResponse(line: string)
    requires line == "" || line[0] != 'R'
    ensures ParseResponse(line).None?
  {
  }

  lemma UnkeyIsText()
    ensures CText(UNKEY_LINE) == UNKEY_LINE && UNKEY_LINE[0] == 'S'
  {
    var s := UNKEY_LINE;
    IndexOfUnique(s, '\0', |s|);
  }

  lemma UnkeyIsInterlockStatus()
    ensures Classify(UNKEY_LINE) == InterlockState(UNKEY_FIELDS)
  {
    hide IndexOf;
    var s := UNKEY_LINE;
    IndexOfUnique(s, '|', 2);
    var payload := "interlock " + UNKEY_FIELDS;
    assert s[3..] == payload && payload[..10] == "interlock " && payload[10..] == UNKEY_FIELDS;
    assert payload[..9][0] != 't';
  }

  lemma UnkeyFieldsSayUnkey()
    ensures Lookup(UNKEY_FIELDS, "state") == Some("UNKEY_REQUESTED")
  {
    hide Tokens, Joined;
    var f := UNKEY_FIELDS;
    OneToken(f);
    IndexOfUnique(f, '=', 5);
    assert f[..5] == "state" && f[6..] == "UNKEY_REQUESTED";
    assert Keyed(f, "state");
  }

  // ------------------------------------------------------------------
  // Armed sessions exist
  // ------------------------------------------------------------------

  /** The answer of a radio that accepts a command. */
  function AnswerLine(sequence: nat, body: string): string {
    "R" + (Decimal(sequence) + ("|" + ("0" + ("|" + body))))
  }

  lemma AnswerIsRead(sequence: nat, body: string)
    requires sequence < 0x1_0000_0000 && '\0' !in body
    ensures ParseResponse(CText(AnswerLine(sequence, body))) == Some(Response(sequence, 0, body))
  {
    hide ParseResponse, Decimal, DigitsValue;
    var line := AnswerLine(sequence, body);
    ZeroIsHex();
    ParseAnswer(sequence, "0", body);
    assert '\0' !in line;
    IndexOfUnique(line, '\0', |line|);
    assert line[..|line|] == line;
  }

  lemma ZeroIsHex()
    ensures IsHexCode("0") && DigitsValue("0", 16) == 0
  {
    assert "0"[..0] == "" && DigitsValue("", 16) == 0;
  }

  lemma ShortFrameFits(s: Client, c: Command)
    requires c.Name? || c.SubRadio? || c.SubSlice? || c.SubTx?
    ensures !Oversized(s, c)
  {
    hide Decimal;
    SequenceDigits(Next(s.sequence));
  }

  /** The client between commands at the start of a session that goes well. */
  ghost predicate Calm(s: Client) {
    && s.waiting.None? && !s.broken && !s.closing && !s.stopped && s.owed.None?
    && s.id == "" && s.cache == EMPTY_CACHE && s.sequence == |s.commands|
  }

  /** A command that is written and answered. */
  lemma Exchange(setup: Setup, t: seq<Event>, c: Command, body: string) returns (u: seq<Event>)
    requires Accepted(setup, t) && Calm(Run(setup, t)) && !c.Interlock?
    requires MayIssue(setup, Run(setup, t), c) && !Oversized(Run(setup, t), c)
    requires |Run(setup, t).commands| < 100 && '\0' !in body && |body| <= RESPONSE_BODY
    ensures Accepted(setup, u) && Calm(Run(setup, u)) && Run(setup, u).commands == Run(setup, t).commands + [c]
    ensures c.Create? ==> Run(setup, u).grant == body
  {
    hide MayIssue, Oversized, CText, ParseResponse, Asked, NextContext, AnswerLine;
    var n := Run(setup, t).sequence + 1;
    AnswerIsRead(n, body);
    NothingIsCached();
    RunSnoc(setup, t, Wrote(c, true));
    var v := t + [Wrote(c, true)];
    u := v + [Heard(AnswerLine(n, body))];
    RunSnoc(setup, v, Heard(AnswerLine(n, body)));
  }

  /** For every policy whose create frame fits there is an armed session in which a command is
      outstanding, as `StopForgetsUnkey` requires. */
  lemma ArmedSessionExists(setup: Setup) returns (t: seq<Event>)
    requires !setup.observeOnly && ListFits(setup) && |FrameText(5, Create(AntennaText(setup)))| < COMMAND_SIZE
    ensures Accepted(setup, t)
    ensures var s := Run(setup, t); s.id == "42" && s.waiting.Some? && !Cached(s) && !s.closing && !s.stopped
  {
    hide Accepted, Run, FrameText, ListFits, AntennaText, Oversized;
    t := StartedSession(setup);
    var s := Run(setup, t);
    assert !Oversized(s, Create(AntennaText(setup))) by { FifthFrame(s, Create(AntennaText(setup))); }
    t := Exchange(setup, t, Create(AntennaText(setup)), "42|");
    GrantOf42();
    RunSnoc(setup, t, Armed("42"));
    t := t + [Armed("42")];
    var frame := Interlock(false, "42");
    assert !Oversized(Run(setup, t), frame) by { InterlockFits(Run(setup, t), frame); }
    NothingIsCached();
    RunSnoc(setup, t, Wrote(frame, true));
    t := t + [Wrote(frame, true)];
  }

  lemma FifthFrame(s: Client, c: Command)
    requires s.sequence == 4 && |FrameText(5, c)| < COMMAND_SIZE
    ensures !Oversized(s, c)
  {
    hide FrameText;
    assert Next(4) == 5;
  }

  lemma InterlockFits(s: Client, c: Command)
    requires c.Interlock? && |c.id| < INTERLOCK_ID
    ensures !Oversized(s, c)
  {
    hide FrameText;
    InterlockFrameFits(Next(s.sequence), c);
  }

  lemma GrantOf42()
    ensures GrantedId("42|") == "42" && UsableId("42")
  {
    GrantedIdIsRead("42", "|");
    assert "42" + "|" == "42|";
  }

  /** The four start-up commands, each answered. */
  lemma StartedSession(setup: Setup) returns (t: seq<Event>)
    requires !setup.observeOnly
    ensures Accepted(setup, t) && Calm(Run(setup, t)) && |Run(setup, t).commands| == 4
  {
    hide Accepted, Run, Oversized, IsAntennaList;
    t := [];
    NothingHappened(setup);
    ShortFrameFits(Run(setup, t), Name);
    t := Exchange(setup, t, Name, "");
    ShortFrameFits(Run(setup, t), SubRadio);
    t := Exchange(setup, t, SubRadio, "");
    ShortFrameFits(Run(setup, t), SubSlice);
    t := Exchange(setup, t, SubSlice, "");
    ShortFrameFits(Run(setup, t), SubTx);
    t := Exchange(setup, t, SubTx, "");
  }

  lemma NothingHappened(setup: Setup)
    ensures Accepted(setup, []) && Run(setup, []) == START
  {
  }
}
