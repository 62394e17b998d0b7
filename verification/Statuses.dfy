/**
 The radio's side of the status lines: what a line says as it is written, what the client makes of
 it, and what follows over whole runs.
 */
module Statuses {
  import opened Text
  import opened Fields
  import opened Responses
  import opened Session
  import opened SessionSafety
  import opened Reassertion
  import opened Radio

  const TRANSMIT := "transmit "
  const INTERLOCK := "interlock "

  /** A status line: a head up to the bar, a keyword, and a `key=value` list. */
  function StatusLine(head: string, keyword: string, fields: seq<(string, string)>): string {
    head + ("|" + (keyword + Joined(TokensOf(fields))))
  }

  /** Such a line can be written: no bar in the head, no NUL, and fields that stand on their own. */
  predicate Sendable(head: string, keyword: string, fields: seq<(string, string)>) {
    && '|' !in head && '\0' !in StatusLine(head, keyword, fields)
    && forall i :: 0 <= i < |fields| ==> Writable(fields[i])
  }

  lemma LineIsText(line: string)
    requires '\0' !in line
    ensures CText(line) == line
  {
    IndexOfUnique(line, '\0', |line|);
    assert line[..|line|] == line;
  }

  lemma PayloadStart(head: string, payload: string)
    requires '|' !in head
    ensures var text := head + ("|" + payload);
      IndexOf(text, '|') == |head| < |text| && text[|head| + 1..] == payload
  {
    var text := head + ("|" + payload);
    assert forall k :: 0 <= k < |head| ==> text[k] == head[k];
    IndexOfUnique(text, '|', |head|);
  }

  lemma KeywordIsSeen(keyword: string, rest: string)
    requires keyword == TRANSMIT || keyword == INTERLOCK
    ensures (keyword + rest)[|keyword|..] == rest
    ensures StartsWith(keyword + rest, TRANSMIT) <==> keyword == TRANSMIT
    ensures StartsWith(keyword + rest, INTERLOCK) <==> keyword == INTERLOCK
  {
    var s := keyword + rest;
    assert s[..|keyword|] == keyword && s[0] == keyword[0];
    if keyword == TRANSMIT && |s| >= 10 {
      assert s[..10][0] == 't';
    }
    if keyword == INTERLOCK {
      assert s[..9][0] == 'i';
    }
  }

  lemma LineIsClassified(head: string, keyword: string, fields: seq<(string, string)>)
    requires Sendable(head, keyword, fields) && (keyword == TRANSMIT || keyword == INTERLOCK)
    ensures Classify(CText(StatusLine(head, keyword, fields)))
         == if keyword == TRANSMIT then Transmit(Joined(TokensOf(fields))) else InterlockState(Joined(TokensOf(fields)))
  {
    hide Joined, TokensOf, StartsWith, CText, IndexOf;
    LineIsText(StatusLine(head, keyword, fields));
    PayloadStart(head, keyword + Joined(TokensOf(fields)));
    KeywordIsSeen(keyword, Joined(TokensOf(fields)));
  }

  /** A text without a bar, or with neither keyword after its first bar, changes nothing. */
  lemma OtherLinesAreIgnored(setup: Setup, c: Context, head: string, payload: string)
    requires '|' !in head && !StartsWith(payload, TRANSMIT) && !StartsWith(payload, INTERLOCK)
    ensures NextContext(setup, c, head + ("|" + payload)) == c && Asked(setup, c, head + ("|" + payload)).None?
    ensures NextContext(setup, c, head) == c && Asked(setup, c, head).None?
  {
    hide IndexOf;
    PayloadStart(head, payload);
    IndexOfUnique(head, '|', |head|);
  }

  /** A transmit status is taken as it was written.  The frequency is what `strtod` makes of the
      value of `freq`, cut to 127 characters; the antenna is the value of `tx_antenna`, unless it
      is too long or the word INVALID, which also invalidates the frequency; and what is not
      written stays as it was. */
  lemma TransmitIsRead(setup: Setup, c: Context, head: string, fields: seq<(string, string)>)
    requires Sendable(head, TRANSMIT, fields)
    ensures var next := NextContext(setup, c, CText(StatusLine(head, TRANSMIT, fields)));
      var freq, antenna := Value(fields, "freq"), Value(fields, "tx_antenna");
      var invalid := antenna.Some? && SameText(antenna.value, "INVALID");
      && (freq.None? ==> next.frequency == c.frequency)
      && (freq.Some? && |freq.value| <= 127 ==> next.frequency == setup.strtod(freq.value).value)
      && (freq.Some? && |freq.value| > 127 ==> next.frequency == setup.strtod(freq.value[..127]).value)
      && (invalid ==> !next.hasFrequency && next.antenna == "")
      && (!invalid && freq.None? ==> next.hasFrequency == c.hasFrequency)
      && (!invalid && freq.Some? ==> next.hasFrequency == setup.strtod(Clip(freq.value, 127)).complete)
      && (antenna.None? ==> next.antenna == c.antenna)
      && (!invalid && antenna.Some? ==> next.antenna == if |antenna.value| <= 31 then antenna.value else "")
  {
    hide Joined, TokensOf, Classify, CText, Lookup, Value, SameText, StatusLine;
    LineIsClassified(head, TRANSMIT, fields);
    LookupWritten(fields, "freq");
    LookupWritten(fields, "tx_antenna");
  }

  /** When the resulting context is forbidden it calls for `not_ready`, else for nothing. */
  lemma TransmitAsks(setup: Setup, c: Context, head: string, fields: seq<(string, string)>)
    requires Sendable(head, TRANSMIT, fields)
    ensures var text := CText(StatusLine(head, TRANSMIT, fields));
      Asked(setup, c, text)
      == if InPolicy(setup, NextContext(setup, c, text)) then None else Some(Ask(false, ForbiddenContext))
  {
    hide Joined, TokensOf, CText, Classify, InPolicy, AfterTransmit, StatusLine;
    LineIsClassified(head, TRANSMIT, fields);
  }

  /** What an interlock status calls for, by the state that was written. */
  lemma InterlockIsRead(setup: Setup, c: Context, head: string, fields: seq<(string, string)>)
    requires Sendable(head, INTERLOCK, fields)
    ensures var text := CText(StatusLine(head, INTERLOCK, fields));
      && NextContext(setup, c, text) == c
      && match Value(fields, "state")
         case Some("PTT_REQUESTED") => Asked(setup, c, text) == Some(Ask(InPolicy(setup, c), PttRequested))
         case Some("UNKEY_REQUESTED") => Asked(setup, c, text) == Some(Ask(false, UnkeyRequested))
         case Some("TRANSMITTING") =>
           Asked(setup, c, text) == if InPolicy(setup, c) then None else Some(Ask(false, ForbiddenTransmission))
         case _ => Asked(setup, c, text).None?
  {
    hide Joined, TokensOf, CText, Classify, InPolicy, Lookup, Value, StatusLine;
    LineIsClassified(head, INTERLOCK, fields);
    LookupWritten(fields, "state");
    assert |"PTT_REQUESTED"| == 13 && |"UNKEY_REQUESTED"| == 15 && |"TRANSMITTING"| == 12;
  }

  // ------------------------------------------------------------------
  // Over whole runs
  // ------------------------------------------------------------------

  /** The line carries this field. */
  predicate Reports(line: string, key: string) {
    match Classify(CText(line))
    case Transmit(fields) => Lookup(fields, key).Some?
    case _ => false
  }

  ghost predicate Silence(after: seq<Event>, key: string) {
    forall i :: 0 <= i < |after| && after[i].Heard? ==> !Reports(after[i].line, key)
  }

  lemma {:induction false} FrequencyStays(setup: Setup, t: seq<Event>, after: seq<Event>)
    requires Silence(after, "freq")
    ensures ContextOf(setup, t + after).frequency == ContextOf(setup, t).frequency
    ensures Silence(after, "tx_antenna") ==> ContextOf(setup, t + after) == ContextOf(setup, t)
  {
    hide Classify, CText, Lookup, SameText;
    if after == [] {
      assert t + after == t;
    } else {
      assert Init(t + after) == t + Init(after) && Last(t + after) == Last(after);
      FrequencyStays(setup, t, Init(after));
    }
  }

  lemma {:induction false} AntennaStays(setup: Setup, t: seq<Event>, after: seq<Event>)
    requires Silence(after, "tx_antenna")
    ensures ContextOf(setup, t + after).antenna == ContextOf(setup, t).antenna
  {
    hide Classify, CText, Lookup, SameText;
    if after == [] {
      assert t + after == t;
    } else {
      assert Init(t + after) == t + Init(after) && Last(t + after) == Last(after);
      AntennaStays(setup, t, Init(after));
    }
  }

  lemma ContextAfter(setup: Setup, before: seq<Event>, line: string)
    ensures ContextOf(setup, before + [Heard(line)]) == NextContext(setup, ContextOf(setup, before), CText(line))
  {
    hide NextContext, CText;
    assert Init(before + [Heard(line)]) == before;
  }

  /** Whatever was heard before, the frequency is the one in the last line that carried one, and the
      antenna the one in the last line that carried one. */
  lemma ContextIsLastReported(setup: Setup, before: seq<Event>, head: string, fields: seq<(string, string)>, after: seq<Event>)
    requires Sendable(head, TRANSMIT, fields)
    ensures var c := ContextOf(setup, before + [Heard(StatusLine(head, TRANSMIT, fields))] + after);
      var freq, antenna := Value(fields, "freq"), Value(fields, "tx_antenna");
      && (freq.Some? && Silence(after, "freq") ==> c.frequency == setup.strtod(Clip(freq.value, 127)).value)
      && (antenna.Some? && Silence(after, "tx_antenna") ==>
            c.antenna == if SameText(antenna.value, "INVALID") || |antenna.value| > 31 then "" else antenna.value)
      && (freq.Some? && antenna.Some? && Silence(after, "freq") && Silence(after, "tx_antenna") ==>
            (c.hasFrequency <==> setup.strtod(Clip(freq.value, 127)).complete && !SameText(antenna.value, "INVALID")))
  {
    hide NextContext, CText, Value, SameText, Silence, StatusLine;
    var line := StatusLine(head, TRANSMIT, fields);
    ContextAfter(setup, before, line);
    TransmitIsRead(setup, ContextOf(setup, before), head, fields);
    var t := before + [Heard(line)];
    if Silence(after, "freq") {
      FrequencyStays(setup, t, after);
    }
    if Silence(after, "tx_antenna") {
      AntennaStays(setup, t, after);
    }
  }

  /** As long as no frequency has been reported, or no antenna, nothing is allowed. */
  lemma NothingIsKnownAtFirst(setup: Setup, t: seq<Event>)
    ensures Silence(t, "freq") ==> !ContextOf(setup, t).hasFrequency
    ensures Silence(t, "tx_antenna") ==> ContextOf(setup, t).antenna == ""
    ensures Silence(t, "freq") || Silence(t, "tx_antenna") ==> !InPolicy(setup, ContextOf(setup, t))
  {
    hide Silence;
    assert [] + t == t;
    if Silence(t, "freq") {
      NoFrequencyReported(setup, t);
    }
    if Silence(t, "tx_antenna") {
      AntennaStays(setup, [], t);
    }
  }

  lemma {:induction false} NoFrequencyReported(setup: Setup, t: seq<Event>)
    requires Silence(t, "freq")
    ensures !ContextOf(setup, t).hasFrequency
  {
    hide Classify, CText, Lookup, SameText;
    if t != [] {
      NoFrequencyReported(setup, Init(t));
    }
  }

  lemma WantedAfter(setup: Setup, t: seq<Event>, line: string)
    requires Wanted(setup, t).Some?
    ensures var ask := Asked(setup, ContextOf(setup, t), CText(line));
      Wanted(setup, t + [Heard(line)]) == if ask.Some? then ask else Wanted(setup, t)
  {
    hide Asked, CText;
    assert Init(t + [Heard(line)]) == t;
  }

  /** Once the interlock exists, an interlock status sets what is wanted: after a PTT request it is
      the verdict on the context, after an unkey request or a forbidden transmission `not_ready`,
      and any other state leaves it. */
  lemma InterlockStatusSetsWanted(setup: Setup, t: seq<Event>, head: string, fields: seq<(string, string)>)
    requires Sendable(head, INTERLOCK, fields) && Wanted(setup, t).Some?
    ensures var wanted, allowed := Wanted(setup, t + [Heard(StatusLine(head, INTERLOCK, fields))]), InPolicy(setup, ContextOf(setup, t));
      match Value(fields, "state")
      case Some("PTT_REQUESTED") => wanted == Some(Ask(allowed, PttRequested))
      case Some("UNKEY_REQUESTED") => wanted == Some(Ask(false, UnkeyRequested))
      case Some("TRANSMITTING") => wanted == if allowed then Wanted(setup, t) else Some(Ask(false, ForbiddenTransmission))
      case _ => wanted == Wanted(setup, t)
  {
    hide Wanted, Asked, CText, Value, StatusLine, InPolicy, NextContext;
    WantedAfter(setup, t, StatusLine(head, INTERLOCK, fields));
    InterlockIsRead(setup, ContextOf(setup, t), head, fields);
  }

  /** A transmit status sets it to `not_ready` exactly if its context is forbidden. */
  lemma TransmitStatusSetsWanted(setup: Setup, t: seq<Event>, head: string, fields: seq<(string, string)>)
    requires Sendable(head, TRANSMIT, fields) && Wanted(setup, t).Some?
    ensures var u := t + [Heard(StatusLine(head, TRANSMIT, fields))];
      Wanted(setup, u) == if InPolicy(setup, ContextOf(setup, u)) then Wanted(setup, t) else Some(Ask(false, ForbiddenContext))
  {
    hide Wanted, Asked, CText, StatusLine, InPolicy, NextContext;
    var line := StatusLine(head, TRANSMIT, fields);
    WantedAfter(setup, t, line);
    ContextAfter(setup, t, line);
    TransmitAsks(setup, ContextOf(setup, t), head, fields);
  }

  lemma {:induction false} WantedStays(setup: Setup, t: seq<Event>, after: seq<Event>)
    requires Undisturbed(setup, t, after)
    ensures Wanted(setup, t + after) == Wanted(setup, t)
  {
    hide Asked, CText, Undisturbed;
    if after == [] {
      assert t + after == t;
    } else {
      UndisturbedInit(setup, t, after);
      assert Init(t + after) == t + Init(after) && Last(t + after) == Last(after);
      WantedStays(setup, t, Init(after));
    }
  }

  /** A PTT request is answered: when the client waits for a line again, and nothing has been asked
      of it since, it has written `ready` if the context at the request was allowed, and `not_ready`
      if it was not; and so the radio's interlock is. */
  lemma PttIsAnswered(setup: Setup, actions: seq<Action>, t: seq<Event>, head: string, fields: seq<(string, string)>, after: seq<Event>)
    requires Reachable(setup, actions) && ClientTrace(actions) == t + [Heard(StatusLine(head, INTERLOCK, fields))] + after
    requires Sendable(head, INTERLOCK, fields) && Value(fields, "state") == Some("PTT_REQUESTED")
    requires Wanted(setup, t).Some? && Undisturbed(setup, t + [Heard(StatusLine(head, INTERLOCK, fields))], after)
    requires Idle(setup, After(setup, actions).client) && After(setup, actions).client.id != ""
    ensures After(setup, actions).client.shown == Some(InPolicy(setup, ContextOf(setup, t)))
    ensures After(setup, actions).ready <==> InPolicy(setup, ContextOf(setup, t))
  {
    hide Wanted, ContextOf, InPolicy, Value, StatusLine, Undisturbed, Reachable, After, ClientTrace, Run, Accepted, Idle, Sendable;
    InterlockStatusSetsWanted(setup, t, head, fields);
    WantedStays(setup, t + [Heard(StatusLine(head, INTERLOCK, fields))], after);
    ClientTraceIsAccepted(setup, actions);
    IdleClientHasToldTheRadio(setup, ClientTrace(actions));
    IdleRadioIsInPolicy(setup, actions);
  }
}
