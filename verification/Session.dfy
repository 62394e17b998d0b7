/**
 The interlock session as a machine over its observable events: frames written, lines heard,
 waits given up (`src/flex.c`).  `Connection` is proved to perform only accepted traces of
 this machine; what holds of every accepted trace is proved in `SessionSafety`.
 */
module Session {
  import opened Text
  import opened Policy
  import opened Responses
  import opened AntennaList

  // ------------------------------------------------------------------
  // Commands and frames
  // ------------------------------------------------------------------

  datatype Command =
    | Name
    | SubRadio
    | SubSlice
    | SubTx
    | Create(antennas: string)
    | Interlock(ready: bool, id: string)
    | Remove(id: string)

  const COMMAND_SIZE := 1024
  const INTERLOCK_ID := 64

  /** The options of the create command, one by one. */
  const CREATE_OPTIONS := "type=ANT " + "name=AntennaGuardianPiLite " + "serial=raspberrypi " + "valid_antennas="

  function CommandText(c: Command): string {
    match c
    case Name => "name AntennaGuardianPiLite"
    case SubRadio => "sub radio all"
    case SubSlice => "sub slice all"
    case SubTx => "sub tx all"
    case Create(antennas) =>
      "interlock create " + (CREATE_OPTIONS + antennas)
    case Interlock(ready, id) => (if ready then "interlock ready " else "interlock not_ready ") + id
    case Remove(id) => "interlock remove " + id
  }

  /** `C%u|%s\n`. */
  function FrameText(sequence: nat, c: Command): string {
    "C" + Decimal(sequence) + "|" + CommandText(c) + "\n"
  }

  /** The words of a command, as the radio's protocol has them. */
  function CommandWords(c: Command): seq<string> {
    match c
    case Name => ["name", "AntennaGuardianPiLite"]
    case SubRadio => ["sub", "radio", "all"]
    case SubSlice => ["sub", "slice", "all"]
    case SubTx => ["sub", "tx", "all"]
    case Create(antennas) =>
      ["interlock", "create", "type=ANT", "name=AntennaGuardianPiLite", "serial=raspberrypi", "valid_antennas=" + antennas]
    case Interlock(ready, id) => ["interlock", if ready then "ready" else "not_ready", id]
    case Remove(id) => ["interlock", "remove", id]
  }

  lemma JoinTwo(a: string, b: string)
    ensures Joined([a, b]) == a + " " + b
  {
    assert [a, b][1..] == [b];
  }

  lemma JoinMore(a: string, words: seq<string>)
    requires words != []
    ensures Joined([a] + words) == a + " " + Joined(words)
  {
    assert ([a] + words)[1..] == words;
  }

  /** A command's text is its words with single spaces between them. */
  lemma TextIsItsWords(c: Command)
    ensures CommandText(c) == Joined(CommandWords(c))
  {
    hide Joined;
    match c
    case Name => NameWords();
    case SubRadio => SubWords("radio", "sub radio all");
    case SubSlice => SubWords("slice", "sub slice all");
    case SubTx => SubWords("tx", "sub tx all");
    case Create(antennas) => CreateWords(antennas);
    case Interlock(ready, id) =>
      if ready {
        IdWords("ready", id, "interlock ready ");
      } else {
        IdWords("not_ready", id, "interlock not_ready ");
      }
    case Remove(id) => IdWords("remove", id, "interlock remove ");
  }

  lemma NameWords()
    ensures "name AntennaGuardianPiLite" == Joined(["name", "AntennaGuardianPiLite"])
  {
    hide Joined;
    JoinTwo("name", "AntennaGuardianPiLite");
    assert "name " == "name" + " ";
    assert "name AntennaGuardianPiLite"[..5] == "name " && "name AntennaGuardianPiLite"[5..] == "AntennaGuardianPiLite";
  }

  lemma SubWords(what: string, text: string)
    requires text == "sub " + what + " all"
    ensures text == Joined(["sub", what, "all"])
  {
    hide Joined;
    ThreeWords("sub", what, "all");
    assert "sub " == "sub" + " " && " all" == " " + "all";
  }

  lemma IdWords(what: string, id: string, front: string)
    requires front == "interlock " + what + " "
    ensures front + id == Joined(["interlock", what, id])
  {
    hide Joined;
    ThreeWords("interlock", what, id);
    assert "interlock " == "interlock" + " ";
  }

  lemma ThreeWords(a: string, b: string, c: string)
    ensures Joined([a, b, c]) == a + " " + (b + " " + c)
  {
    hide Joined;
    JoinTwo(b, c);
    JoinMore(a, [b, c]);
    assert [a] + [b, c] == [a, b, c];
  }

  lemma SixWords(a: string, b: string, c: string, d: string, e: string, f: string)
    ensures Joined([a, b, c, d, e, f]) == a + " " + (b + " " + (c + " " + (d + " " + (e + " " + f))))
  {
    hide Joined;
    ThreeWords(d, e, f);
    JoinMore(c, [d, e, f]);
    JoinMore(b, [c, d, e, f]);
    JoinMore(a, [b, c, d, e, f]);
    assert [c] + [d, e, f] == [c, d, e, f] && [b] + [c, d, e, f] == [b, c, d, e, f];
    assert [a] + [b, c, d, e, f] == [a, b, c, d, e, f];
  }

  lemma CreateWords(antennas: string)
    ensures "interlock create " + (CREATE_OPTIONS + antennas) == Joined(CommandWords(Create(antennas)))
  {
    hide Joined;
    var a, b, c, d := "type=ANT", "name=AntennaGuardianPiLite", "serial=raspberrypi", "valid_antennas=" + antennas;
    SixWords("interlock", "create", a, b, c, d);
    OptionsText(a, b, c, antennas);
    InterlockCreate(CREATE_OPTIONS + antennas);
  }

  lemma InterlockCreate(rest: string)
    ensures "interlock create " + rest == "interlock" + " " + ("create" + " " + rest)
  {
    assert "interlock create " == "interlock" + " " + ("create" + " ");
  }

  lemma OptionsText(a: string, b: string, c: string, antennas: string)
    requires a + " " == "type=ANT " && b + " " == "name=AntennaGuardianPiLite " && c + " " == "serial=raspberrypi "
    ensures CREATE_OPTIONS + antennas == a + " " + (b + " " + (c + " " + ("valid_antennas=" + antennas)))
  {
  }

  /** The radio can tell commands apart by their text. */
  lemma CommandsAreUnambiguous(c: Command, d: Command)
    requires CommandText(c) == CommandText(d)
    ensures c == d
  {
    var s := CommandText(c);
    Distinguishing(c);
    Distinguishing(d);
    match c
    case Create(antennas) =>
      var fixed := CREATE_OPTIONS;
      assert s[17..] == fixed + antennas == fixed + d.antennas;
      assert (fixed + antennas)[|fixed|..] == antennas && (fixed + d.antennas)[|fixed|..] == d.antennas;
    case Interlock(ready, id) =>
      if ready {
        assert s[16..] == id == d.id;
      } else {
        assert s[20..] == id == d.id;
      }
    case Remove(id) => assert s[17..] == id == d.id;
    case _ =>
  }

  /** The two characters of a command's text that tell its kind. */
  lemma Distinguishing(c: Command)
    ensures var s := CommandText(c);
      && |s| >= 10 && (s[0] == 'i' ==> |s| >= 16)
      && (c.Create? <==> s[0] == 'i' && s[10] == 'c')
      && (c.Remove? <==> s[0] == 'i' && s[10] == 'r' && s[12] == 'm')
      && (c.Interlock? && c.ready <==> s[0] == 'i' && s[10] == 'r' && s[12] == 'a')
      && (c.Interlock? && !c.ready <==> s[0] == 'i' && s[10] == 'n')
      && (c.Name? <==> s[0] == 'n')
      && (c.SubRadio? <==> s[0] == 's' && s[4] == 'r')
      && (c.SubSlice? <==> s[0] == 's' && s[4] == 's')
      && (c.SubTx? <==> s[0] == 's' && s[4] == 't')
  {
    var s := CommandText(c);
    match c
    case Create(antennas) => assert s[0] == 'i' && s[10] == 'c';
    case Interlock(ready, id) => assert s[0] == 'i' && s[10] == if ready then 'r' else 'n';
    case Remove(id) => assert s[0] == 'i' && s[10] == 'r';
    case _ =>
  }

  /** The radio can tell frames apart: the text determines the number and the command. */
  lemma FramesAreUnambiguous(n: nat, c: Command, m: nat, d: Command)
    requires FrameText(n, c) == FrameText(m, d)
    ensures n == m && c == d
  {
    hide Decimal, CommandText;
    FrameParts(n, c);
    FrameParts(m, d);
    CommandsAreUnambiguous(c, d);
  }

  /** A frame starts with `C` and ends with a newline; the number ends at the first bar, and the
      command reaches up to the newline. */
  lemma FrameParts(n: nat, c: Command)
    ensures var frame := FrameText(n, c); var bar := IndexOf(frame, '|');
      && 0 < bar < |frame| - 1 && frame[0] == 'C' && frame[|frame| - 1] == '\n'
      && frame[1..bar] == Decimal(n) && frame[bar + 1..|frame| - 1] == CommandText(c)
  {
    hide IndexOf, CommandText;
    var frame, bar := FrameText(n, c), |Decimal(n)| + 1;
    assert frame[bar] == '|' && frame[1..bar] == Decimal(n);
    assert forall k :: 1 <= k < bar ==> frame[k] == Decimal(n)[k - 1];
    IndexOfUnique(frame, '|', bar);
    assert frame[bar + 1..|frame| - 1] == CommandText(c);
  }

  lemma SequenceDigits(sequence: nat)
    requires sequence < 0x1_0000_0000
    ensures |Decimal(sequence)| <= 10
  {
    assert Pow10(5) == 100000;
    assert Pow10(10) == 10000000000;
    DecimalLength(sequence, 10);
  }

  /** Every frame about an interlock whose ID fits its buffer fits the frame buffer. */
  lemma InterlockFrameFits(sequence: nat, c: Command)
    requires sequence < 0x1_0000_0000
    requires c.Interlock? || c.Remove?
    requires |c.id| < INTERLOCK_ID
    ensures |FrameText(sequence, c)| < COMMAND_SIZE
  {
    SequenceDigits(sequence);
  }

  /** What a command carries is on one line. */
  predicate OneLine(c: Command) {
    match c
    case Create(antennas) => '\n' !in antennas
    case Interlock(_, id) => '\n' !in id
    case Remove(id) => '\n' !in id
    case _ => true
  }

  /** A frame is one line exactly if what its command carries is. */
  lemma FrameIsOneLine(n: nat, c: Command)
    ensures IndexOf(FrameText(n, c), '\n') == |FrameText(n, c)| - 1 <==> OneLine(c)
  {
    hide IndexOf, Decimal, CommandText, OneLine;
    var frame, text := FrameText(n, c), CommandText(c);
    var start := |Decimal(n)| + 2;
    assert frame[|frame| - 1] == '\n' && |frame| == start + |text| + 1;
    assert frame[start..|frame| - 1] == text;
    assert forall k :: 1 <= k < start - 1 ==> frame[k] == Decimal(n)[k - 1];
    TextIsOneLine(c);
    if '\n' in text {
      var k :| 0 <= k < |text| && text[k] == '\n';
      assert frame[start + k] == '\n';
    } else {
      assert forall k :: start <= k < |frame| - 1 ==> frame[k] == text[k - start];
      IndexOfUnique(frame, '\n', |frame| - 1);
    }
  }

  lemma TextIsOneLine(c: Command)
    ensures '\n' !in CommandText(c) <==> OneLine(c)
  {
    match c
    case Create(antennas) =>
      NewlineInTail(CREATE_OPTIONS, antennas);
      NewlineInTail("interlock create ", CREATE_OPTIONS + antennas);
    case Interlock(ready, id) => NewlineInTail(if ready then "interlock ready " else "interlock not_ready ", id);
    case Remove(id) => NewlineInTail("interlock remove ", id);
    case _ =>
  }

  lemma NewlineInTail(fixed: string, tail: string)
    requires '\n' !in fixed
    ensures '\n' in fixed + tail <==> '\n' in tail
  {
  }

  /** `++connection->sequence` on 32 bits. */
  function Next(sequence: nat): nat {
    Low32(sequence + 1)
  }

  const STARTUP: seq<Command> := [Name, SubRadio, SubSlice, SubTx]

  // ------------------------------------------------------------------
  // What a status line means
  // ------------------------------------------------------------------

  /** The result of `strtod`; `complete` is `errno == 0 && end != value && *end == '\0'`. */
  datatype Parsed = Parsed(value: Double, complete: bool)

  /** What stays fixed during a session. */
  datatype Setup = Setup(policy: seq<AntennaPolicy>, observeOnly: bool, strtod: string -> Parsed)

  /** The transmit context last reported by the radio. */
  datatype Context = Context(hasFrequency: bool, frequency: Double, antenna: string)

  const NO_CONTEXT := Context(false, Finite(0.0), "")

  ghost predicate InPolicy(setup: Setup, c: Context) {
    Permits(setup.policy, c.hasFrequency, c.frequency, c.antenna)
  }

  datatype Status = Transmit(fields: string) | InterlockState(fields: string) | Other

  predicate StartsWith(s: string, prefix: string) {
    |prefix| <= |s| && s[..|prefix|] == prefix
  }

  function Classify(text: string): Status {
    var bar := IndexOf(text, '|');
    if bar == |text| || bar + 1 == |text| then Other
    else
      var payload := text[bar + 1..];
      if StartsWith(payload, "transmit ") then Transmit(payload[9..])
      else if StartsWith(payload, "interlock ") then InterlockState(payload[10..])
      else Other
  }

  const FREQ_LIMIT := 127

  function AfterFrequency(setup: Setup, c: Context, fields: string): Context {
    match Lookup(fields, "freq")
    case None => c
    case Some(v) =>
      var number := setup.strtod(Clip(v, FREQ_LIMIT));
      c.(frequency := number.value, hasFrequency := number.complete)
  }

  function AfterAntenna(c: Context, fields: string): Context {
    match Lookup(fields, "tx_antenna")
    case None => c
    case Some(v) =>
      if SameText(v, "INVALID") then c.(hasFrequency := false, antenna := "")
      else if |v| > MAX_ANTENNA_ID then c.(antenna := "")
      else c.(antenna := v)
  }

  function AfterTransmit(setup: Setup, c: Context, fields: string): Context {
    AfterAntenna(AfterFrequency(setup, c, fields), fields)
  }

  function NextContext(setup: Setup, c: Context, text: string): Context {
    match Classify(text)
    case Transmit(fields) => AfterTransmit(setup, c, fields)
    case _ => c
  }

  datatype Cause = PttRequested | UnkeyRequested | ForbiddenContext | ForbiddenTransmission | Arming

  /** A state that the interlock ought to be in, and why. */
  datatype Ask = Ask(ready: bool, cause: Cause)

  /** The interlock state that a status line calls for, if any, in the context `c` before it. */
  ghost function Asked(setup: Setup, c: Context, text: string): Option<Ask> {
    match Classify(text)
    case Transmit(fields) =>
      if InPolicy(setup, AfterTransmit(setup, c, fields)) then None else Some(Ask(false, ForbiddenContext))
    case InterlockState(fields) => StateAsk(setup, c, fields)
    case Other => None
  }

  /** What an interlock status calls for. */
  ghost function StateAsk(setup: Setup, c: Context, fields: string): Option<Ask> {
    match Lookup(fields, "state")
    case None => None
    case Some(state) =>
      if state == "PTT_REQUESTED" then Some(Ask(InPolicy(setup, c), PttRequested))
      else if state == "UNKEY_REQUESTED" then Some(Ask(false, UnkeyRequested))
      else if state == "TRANSMITTING" && !InPolicy(setup, c) then Some(Ask(false, ForbiddenTransmission))
      else None
  }

  /** A response line that is taken for a status line changes nothing: its second field starts
      with a number, and neither keyword does. */
  lemma ResponseIsNoStatus(text: string)
    requires ParseResponse(text).Some?
    ensures Classify(text) == Other
  {
    var number := text[1..];
    var cursor := NumberField(number, 10).value.1;
    BarAfterField(number);
    var bar := 1 + IndexOf(number, '|');
    FirstBar(text, number);
    NumberIsNoKeyword(cursor);
    assert text[bar + 1..] == cursor;
  }

  lemma FirstBar(text: string, number: string)
    requires text != "" && text[0] != '|' && number == text[1..]
    ensures IndexOf(text, '|') == 1 + IndexOf(number, '|')
  {
  }

  lemma BarAfterField(s: string)
    requires NumberField(s, 10).Some?
    ensures IndexOf(s, '|') < |s| && NumberField(s, 10).value.1 == s[IndexOf(s, '|') + 1..]
  {
    var end := Strtoul(s, 10).end;
    NumberHasNoBar(s, 10);
    IndexOfUnique(s, '|', end);
  }

  lemma NumberIsNoKeyword(s: string)
    requires NumberField(s, 16).Some?
    ensures !StartsWith(s, "transmit ") && !StartsWith(s, "interlock ")
  {
    var scan := Strtoul(s, 16);
    assert s[0] != 't' && s[0] != 'i';
    if |s| >= 10 {
      assert s[..9][0] == s[0] == s[..10][0];
    } else if |s| == 9 {
      assert s[..9][0] == s[0];
    }
  }

  // ------------------------------------------------------------------
  // The machine
  // ------------------------------------------------------------------

  /** Why the wait for an answer is given up. */
  datatype Excuse =
    | StopRequested
    | DeadlinePassed(issued: int, now: int)       // clock readings in milliseconds
    | NothingRead                                 // `read_line` brought no line

  const COMMAND_TIMEOUT := 4000

  datatype Event =
    | StopSeen                                    // the stop flag was looked at and found set
    | Refused(command: Command)                   // a number was used up, nothing was written
    | Wrote(command: Command, complete: bool)     // the frame was handed to the socket
    | Heard(line: string)                         // a line was read
    | Recalled                                    // the answer was found in the cache
    | Abandoned(reason: Excuse)                   // the wait ended without an answer
    | Armed(id: string)                           // the interlock ID was recorded
    | Closing                                     // cleanup began

  /** A command on the wire that awaits its answer. */
  datatype Issued = Issued(sequence: nat, command: Command)

  /** A command together with the response that ended its wait. */
  datatype Settlement = Settlement(issued: Issued, response: Response)

  datatype Client = Client(
    sequence: nat,
    context: Context,
    id: string,
    waiting: Option<Issued>,
    owed: Option<bool>,               // an interlock state asked for but not yet written
    shown: Option<bool>,              // the last interlock state written
    cache: seq<Slot>,
    broken: bool,                     // a command failed; only cleanup may follow
    closing: bool,
    stopped: bool,                    // the stop flag has been seen
    grant: string,                    // the body that answered the create command
    commands: seq<Command>,           // every frame attempted, in order
    heard: seq<string>,               // every line read, in order
    answers: multiset<Response>,      // every response read while a command was waiting
    dropped: multiset<Response>,      // those that found the cache full
    settled: seq<Settlement>
  )

  const NO_SLOT := Slot(false, Response(0, 0, ""))
  const EMPTY_CACHE: seq<Slot> := [NO_SLOT, NO_SLOT, NO_SLOT, NO_SLOT, NO_SLOT, NO_SLOT, NO_SLOT, NO_SLOT]

  const START := Client(0, NO_CONTEXT, "", None, None, None, EMPTY_CACHE, false, false, false, "",
                        [], [], multiset{}, multiset{}, [])

  /** A response as it is kept: both ways of delivering the body cut it to 255 characters. */
  function Kept(r: Response): Response {
    r.(body := Clip(r.body, RESPONSE_BODY))
  }

  function Settle(s: Client, r: Response): Client
    requires s.waiting.Some?
  {
    s.(waiting := None,
       broken := s.broken || r.code != 0,
       grant := if s.waiting.value.command.Create? && r.code == 0 then Kept(r).body else s.grant,
       settled := s.settled + [Settlement(s.waiting.value, Kept(r))])
  }

  ghost function HearStatus(setup: Setup, s: Client, text: string): Client {
    var ask := Asked(setup, s.context, text);
    s.(context := NextContext(setup, s.context, text),
       owed := if s.id != "" && ask.Some? then Some(ask.value.ready) else s.owed)
  }

  function HearResponse(s: Client, r: Response): Client
    requires s.waiting.Some?
  {
    var read := s.(answers := s.answers + multiset{Kept(r)});
    if r.sequence == s.waiting.value.sequence then Settle(read, r)
    else if FirstFree(s.cache) == |s.cache| then read.(dropped := s.dropped + multiset{Kept(r)})
    else read.(cache := Saved(s.cache, r))
  }

  /** The awaited answer settles the command; any other response goes to the cache. */
  lemma HearResponseCases(s: Client, r: Response)
    requires s.waiting.Some?
    ensures var t := HearResponse(s, r);
      if r.sequence == s.waiting.value.sequence then t == Settle(s.(answers := t.answers), r)
      else t == s.(answers := t.answers, dropped := t.dropped, cache := Saved(s.cache, r))
  {
    hide FirstFree, Clip;
  }

  /** The effect of a line with this text, given what it parses to. */
  ghost function HearAs(setup: Setup, s: Client, text: string, response: Option<Response>): Client {
    if s.waiting.Some? && response.Some? then HearResponse(s, response.value)
    else HearStatus(setup, s, text)
  }

  ghost function Hear(setup: Setup, s: Client, line: string): Client {
    HearAs(setup, s.(heard := s.heard + [line]), CText(line), ParseResponse(CText(line)))
  }

  function Write(s: Client, c: Command, complete: bool): Client {
    s.(sequence := Next(s.sequence),
       commands := s.commands + [c],
       waiting := if complete then Some(Issued(Next(s.sequence), c)) else None,
       broken := s.broken || !complete,
       owed := if c.Interlock? then None else s.owed,
       shown := if c.Interlock? then Some(c.ready) else s.shown)
  }

  /** The ID is the response body up to the first bar. */
  function GrantedId(body: string): string {
    body[..IndexOf(body, '|')]
  }

  /** The ID is read up to the bar, whatever follows it. */
  lemma GrantedIdIsRead(id: string, tail: string)
    requires '|' !in id && (tail == "" || tail[0] == '|')
    ensures GrantedId(id + tail) == id
  {
    var body := id + tail;
    assert forall k :: 0 <= k < |id| ==> body[k] == id[k];
    assert |id| < |body| ==> body[|id|] == tail[0];
    IndexOfUnique(body, '|', |id|);
    assert body[..|id|] == id;
  }

  predicate Cached(s: Client) {
    s.waiting.Some? && FirstMatch(s.cache, s.waiting.value.sequence) < |s.cache|
  }

  /** What the create command lists: the configured antennas. */
  function AntennaText(setup: Setup): string {
    CommaJoined(Ids(setup.policy))
  }

  /** The list and the create command fit their buffers. */
  predicate ListFits(setup: Setup) {
    |AntennaText(setup)| < ANTENNA_LIST && |CommandText(Create(AntennaText(setup)))| < COMMAND_SIZE
  }

  predicate IsAntennaList(setup: Setup, antennas: string) {
    antennas == AntennaText(setup) && ListFits(setup)
  }

  /** The next frame would not fit its buffer. */
  predicate Oversized(s: Client, c: Command) {
    |FrameText(Next(s.sequence), c)| >= COMMAND_SIZE
  }

  predicate UsableId(id: string) {
    1 <= |id| < INTERLOCK_ID
  }

  /** The command is the next one to issue. */
  predicate MayIssue(setup: Setup, s: Client, c: Command) {
    && s.waiting.None?
    && match c
       case Name => Starting(s) && |s.commands| == 0
       case SubRadio => Starting(s) && |s.commands| == 1
       case SubSlice => Starting(s) && |s.commands| == 2
       case SubTx => Starting(s) && |s.commands| == 3
       case Create(antennas) => Starting(s) && |s.commands| == 4 && !setup.observeOnly && IsAntennaList(setup, antennas)
       case Interlock(ready, id) => !s.broken && !s.closing && s.id != "" && id == s.id && s.owed == Some(ready)
       case Remove(id) => s.closing && s.id != "" && id == s.id && !Removed(s)
  }

  /** Seeing the stop flag does not change what is next; an interlock command bears the ID. */
  lemma StopKeepsNext(setup: Setup, s: Client, t: Client, c: Command)
    requires MayIssue(setup, s, c) && t == s.(stopped := t.stopped)
    ensures s.waiting.None? && MayIssue(setup, t, c) && (c.Interlock? || c.Remove? ==> c.id == s.id)
  {
    hide IsAntennaList;
  }

  predicate Starting(s: Client) {
    !s.broken && !s.closing && s.id == ""
  }

  predicate Removed(s: Client) {
    s.commands != [] && s.commands[|s.commands| - 1].Remove?
  }

  /** The client sits in its main loop and has told the radio everything. */
  predicate Idle(setup: Setup, s: Client) {
    s.waiting.None? && !s.broken && !s.closing && s.owed.None? && InService(setup, s)
  }

  /** Subscribed when observing, armed when protecting. */
  predicate InService(setup: Setup, s: Client) {
    if setup.observeOnly then |s.commands| == 4 else s.id != ""
  }

  /** The interlock cannot be set up although no command has failed: its antenna list does not
      fit, or the radio did not grant a usable ID. */
  predicate NoUsableId(setup: Setup, s: Client) {
    && !setup.observeOnly && s.id == ""
    && if ListFits(setup) then |s.commands| == 5 && !UsableId(GrantedId(s.grant)) else |s.commands| == 4
  }

  /** Before cleanup a stop ends the wait at once; else only a passed deadline or a failed read does. */
  predicate MayAbandon(s: Client, reason: Excuse) {
    match reason
    case StopRequested => s.stopped && !s.closing
    case DeadlinePassed(issued, now) => (s.stopped ==> s.closing) && now >= issued + COMMAND_TIMEOUT
    case NothingRead => s.stopped ==> s.closing
  }

  /** Once the stop flag has been seen, only cleanup writes and reads; a session otherwise ends with
      a failure, without a usable ID, or with nothing owed, for instance when the connection is lost. */
  predicate Enabled(setup: Setup, s: Client, e: Event) {
    match e
    case StopSeen => !s.closing
    case Refused(c) => MayIssue(setup, s, c) && !c.Remove? && (s.stopped || Oversized(s, c))
    case Wrote(c, _) => MayIssue(setup, s, c) && !Oversized(s, c) && (s.stopped ==> c.Remove?)
    case Heard(_) => (s.stopped ==> s.closing) && if s.waiting.Some? then !Cached(s) else Idle(setup, s)
    case Recalled => (s.stopped ==> s.closing) && Cached(s)
    case Abandoned(reason) => s.waiting.Some? && MayAbandon(s, reason)
    case Armed(id) =>
      Starting(s) && s.waiting.None? && |s.commands| == 5 && id == GrantedId(s.grant) && UsableId(id)
    case Closing =>
      && s.waiting.None? && !s.closing
      && (s.broken || NoUsableId(setup, s) || (InService(setup, s) && (s.owed.None? || s.stopped)))
  }

  ghost function Step(setup: Setup, s: Client, e: Event): Client {
    match e
    case StopSeen => s.(stopped := true)
    case Refused(_) => s.(sequence := Next(s.sequence), broken := true)
    case Wrote(c, complete) => Write(s, c, complete)
    case Heard(line) => Hear(setup, s, line)
    case Recalled =>
      if !Cached(s) then s else
      var i := FirstMatch(s.cache, s.waiting.value.sequence);
      Settle(s, s.cache[i].response).(cache := Taken(s.cache, s.waiting.value.sequence))
    case Abandoned(_) => s.(waiting := None, broken := true)
    case Armed(id) => s.(id := id, owed := Some(false))
    case Closing => s.(closing := true)
  }

  ghost function Run(setup: Setup, trace: seq<Event>): Client {
    if trace == [] then START
    else Step(setup, Run(setup, trace[..|trace| - 1]), trace[|trace| - 1])
  }

  /** Every event was enabled when it happened. */
  ghost predicate Accepted(setup: Setup, trace: seq<Event>)
  {
    trace == []
    || var t := trace[..|trace| - 1];
       Accepted(setup, t) && Enabled(setup, Run(setup, t), trace[|trace| - 1])
  }

  lemma RunSnoc(setup: Setup, trace: seq<Event>, e: Event)
    requires Accepted(setup, trace)
    ensures Accepted(setup, trace + [e]) <==> Enabled(setup, Run(setup, trace), e)
    ensures Run(setup, trace + [e]) == Step(setup, Run(setup, trace), e)
  {
    assert (trace + [e])[..|trace|] == trace;
  }

  /** The frames of a trace as text, in the order in which they were handed to the socket. */
  ghost function WireTexts(setup: Setup, trace: seq<Event>): seq<string> {
    if trace == [] then []
    else
      var t := trace[..|trace| - 1];
      match trace[|trace| - 1]
      case Wrote(c, _) => WireTexts(setup, t) + [FrameText(Next(Run(setup, t).sequence), c)]
      case _ => WireTexts(setup, t)
  }

  lemma WireSnoc(setup: Setup, trace: seq<Event>, e: Event)
    ensures WireTexts(setup, trace + [e])
         == WireTexts(setup, trace) + if e.Wrote? then [FrameText(Next(Run(setup, trace).sequence), e.command)] else []
  {
    hide Run, FrameText;
    assert (trace + [e])[..|trace|] == trace;
  }

  /** Acceptance is closed under cutting a trace short. */
  lemma {:induction false} PrefixAccepted(setup: Setup, trace: seq<Event>, k: nat)
    requires Accepted(setup, trace) && k <= |trace|
    ensures Accepted(setup, trace[..k])
    ensures k < |trace| ==> Enabled(setup, Run(setup, trace[..k]), trace[k])
  {
    if k == |trace| {
      assert trace[..k] == trace;
    } else {
      var t := trace[..|trace| - 1];
      if k == |t| {
        assert trace[..k] == t;
      } else {
        PrefixAccepted(setup, t, k);
        assert t[..k] == trace[..k] && t[k] == trace[k];
      }
    }
  }
}
