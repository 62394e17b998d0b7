/**
 Line framing (`extract_line` and `read_line` in `src/flex.c`): a receive buffer of 8192
 characters, compacted in place, that turns arbitrary chunks into lines.
 */
module Framing {
  import opened Text

  const LINE_BUFFER := 8192

  /** What one wait on the socket brings. */
  datatype Wakeup =
    | Data(bytes: string)   // readable, with this much available; nothing available is end of stream
    | Spurious              // poll returned without POLLIN and without an error bit
    | Interrupted           // EINTR from poll or recv
    | TimedOut
    | Failed                // poll or recv error, POLLERR, POLLHUP or POLLNVAL

  datatype Loss = LineTooLarge | BufferFull | Disconnected

  /** The results 1, 0 and -1 of `read_line`. */
  datatype ReadResult = Line(text: string) | NoLine | Lost(loss: Loss)

  // ------------------------------------------------------------------
  // Splitting on newlines
  // ------------------------------------------------------------------

  function StripCr(s: string): string {
    if s != "" && s[|s| - 1] == '\r' then s[..|s| - 1] else s
  }

  /** The complete lines of a byte stream, each without its newline and one trailing CR. */
  function LinesOf(s: string): seq<string> {
    var n := IndexOf(s, '\n');
    if n == |s| then [] else [StripCr(s[..n])] + LinesOf(s[n + 1..])
  }

  /** `s` ends at a line boundary. */
  predicate Terminated(s: string) {
    s == "" || s[|s| - 1] == '\n'
  }

  /** A newline is found at the same place whatever follows it. */
  lemma FirstNewline(a: string, b: string)
    requires IndexOf(a, '\n') < |a|
    ensures IndexOf(a + b, '\n') == IndexOf(a, '\n')
  {
    var n := IndexOf(a, '\n');
    assert (a + b)[..n] == a[..n];
    IndexOfUnique(a + b, '\n', n);
  }

  lemma TerminatedHasNewline(a: string)
    requires Terminated(a) && a != ""
    ensures IndexOf(a, '\n') < |a| && Terminated(a[IndexOf(a, '\n') + 1..])
  {
    hide IndexOf;
    var n := IndexOf(a, '\n');
    assert a[..|a|] == a && a[|a| - 1] in a;
    assert n < |a|;
    if n + 1 < |a| {
      assert a[n + 1..][|a| - n - 2] == a[|a| - 1];
    }
  }

  lemma CutInFront(a: string, b: string, n: nat)
    requires n < |a|
    ensures (a + b)[..n] == a[..n] && (a + b)[n + 1..] == a[n + 1..] + b
  {
  }

  /** Text that follows a line boundary is split on its own. */
  lemma {:induction false} LinesOfSplit(a: string, b: string)
    requires Terminated(a)
    ensures LinesOf(a + b) == LinesOf(a) + LinesOf(b)
    decreases |a|
  {
    hide IndexOf, StripCr, LinesOf;
    if a == "" {
      NoNewlineNoLines("");
      assert a + b == b;
    } else {
      TerminatedHasNewline(a);
      FirstNewline(a, b);
      var n := IndexOf(a, '\n');
      var tail := a[n + 1..];
      LinesOfSplit(tail, b);
      FirstLine(a, n, a[..n], tail);
      CutInFront(a, b, n);
      FirstLine(a + b, n, a[..n], tail + b);
    }
  }

  lemma FirstLine(s: string, n: nat, line: string, tail: string)
    requires n == IndexOf(s, '\n') < |s| && line == s[..n] && tail == s[n + 1..]
    ensures LinesOf(s) == [StripCr(line)] + LinesOf(tail)
  {
  }

  /** A line contains no newline. */
  lemma {:induction false} LinesArePlain(s: string, k: nat)
    requires k < |LinesOf(s)|
    ensures '\n' !in LinesOf(s)[k]
  {
    var n := IndexOf(s, '\n');
    if k == 0 {
      assert forall i :: 0 <= i < n ==> s[..n][i] == s[i];
    } else {
      LinesArePlain(s[n + 1..], k - 1);
    }
  }

  /** Moving the first line of the buffer over to the consumed text adds exactly that line. */
  lemma OneLineMore(consumed: string, held: string, newline: nat)
    requires Terminated(consumed) && !TooLong(consumed)
    requires newline == IndexOf(held, '\n') < |held| <= LINE_BUFFER
    ensures Terminated(consumed + held[..newline + 1]) && !TooLong(consumed + held[..newline + 1])
    ensures LinesOf(consumed + held[..newline + 1]) == LinesOf(consumed) + [StripCr(held[..newline])]
    ensures consumed + held == consumed + held[..newline + 1] + held[newline + 1..]
  {
    hide IndexOf, StripCr, Terminated;
    var raw := held[..newline + 1];
    assert Terminated(consumed + raw) by { EndsLine(consumed, raw); }
    assert raw[..newline] == held[..newline] && raw[newline] == '\n' && raw[newline + 1..] == "";
    IndexOfUnique(raw, '\n', newline);
    assert LinesOf(raw) == [StripCr(held[..newline])] + LinesOf("");
    NoNewlineNoLines("");
    LinesOfSplit(consumed, raw);
    assert !TooLong(raw);
    DeliverableSplit(consumed, raw);
  }

  lemma EndsLine(before: string, raw: string)
    requires raw != "" && raw[|raw| - 1] == '\n'
    ensures Terminated(before + raw)
  {
  }

  lemma NoNewlineNoLines(s: string)
    requires '\n' !in s
    ensures LinesOf(s) == []
  {
    assert s[..|s|] == s;
    IndexOfUnique(s, '\n', |s|);
  }

  /** Text has only one split into complete lines and a rest without a newline. */
  lemma SplitIsUnique(consumed1: string, rest1: string, consumed2: string, rest2: string)
    requires consumed1 + rest1 == consumed2 + rest2
    requires Terminated(consumed1) && Terminated(consumed2)
    requires '\n' !in rest1 && '\n' !in rest2
    ensures LinesOf(consumed1) == LinesOf(consumed2) && rest1 == rest2
  {
    LinesOfSplit(consumed1, rest1);
    LinesOfSplit(consumed2, rest2);
    NoNewlineNoLines(rest1);
    NoNewlineNoLines(rest2);
    var s := consumed1 + rest1;
    if |consumed1| < |consumed2| {
      LeftoverHasNewline(consumed1, rest1, consumed2, rest2);
    } else if |consumed2| < |consumed1| {
      LeftoverHasNewline(consumed2, rest2, consumed1, rest1);
    }
    assert s[|consumed1|..] == rest1 && s[|consumed2|..] == rest2;
  }

  lemma LeftoverHasNewline(shorter: string, rest: string, longer: string, other: string)
    requires shorter + rest == longer + other && |shorter| < |longer| && Terminated(longer)
    ensures '\n' in rest
  {
    var k := |longer| - 1;
    assert (shorter + rest)[k] == (longer + other)[k] == '\n';
    assert rest[k - |shorter|] == '\n';
  }

  /** The writer's side: each line with its ending, a carriage return and a newline or a newline alone. */
  function Written(lines: seq<string>, crs: seq<bool>): string
    requires |lines| == |crs|
  {
    if lines == [] then "" else lines[0] + (if crs[0] then "\r\n" else "\n") + Written(lines[1..], crs[1..])
  }

  /** A line can be told from its ending. */
  predicate Plainly(line: string, cr: bool) {
    '\n' !in line && (cr || line == "" || line[|line| - 1] != '\r')
  }

  /** Splitting gives back the lines that were written, whichever ending each of them has. */
  lemma {:induction false} LinesOfWritten(lines: seq<string>, crs: seq<bool>)
    requires |lines| == |crs| && forall i :: 0 <= i < |lines| ==> Plainly(lines[i], crs[i])
    ensures LinesOf(Written(lines, crs)) == lines
  {
    hide IndexOf, LinesOf, StripCr;
    if lines == [] {
      NoNewlineNoLines("");
    } else {
      var line, rest := lines[0], Written(lines[1..], crs[1..]);
      var raw := line + if crs[0] then "\r" else "";
      var s := Written(lines, crs);
      assert Plainly(line, crs[0]);
      assert s == raw + "\n" + rest;
      assert s[..|raw|] == raw && s[|raw|] == '\n' && s[|raw| + 1..] == rest;
      assert forall k :: 0 <= k < |raw| ==> s[k] == raw[k];
      IndexOfUnique(s, '\n', |raw|);
      FirstLine(s, |raw|, raw, rest);
      OneReturn(line, crs[0]);
      LinesOfWritten(lines[1..], crs[1..]);
    }
  }

  lemma OneReturn(line: string, cr: bool)
    requires Plainly(line, cr)
    ensures StripCr(line + if cr then "\r" else "") == line
  {
    if cr {
      assert (line + "\r")[..|line|] == line;
    } else {
      assert line + "" == line;
    }
  }

  // ------------------------------------------------------------------
  // Lines that fit the buffer
  // ------------------------------------------------------------------

  /** The lines up to the first one that does not fit the receive buffer. */
  function Deliverable(s: string): seq<string> {
    var n := IndexOf(s, '\n');
    if n >= LINE_BUFFER || n == |s| then [] else [StripCr(s[..n])] + Deliverable(s[n + 1..])
  }

  /** Some line, or the rest after the last one, does not fit the receive buffer. */
  predicate TooLong(s: string) {
    var n := IndexOf(s, '\n');
    n >= LINE_BUFFER || (n < |s| && TooLong(s[n + 1..]))
  }

  /** That is so exactly if some 8192 characters from the start of a line hold no newline. */
  lemma {:induction false} TooLongMeansUnterminated(s: string)
    ensures TooLong(s) <==> exists start :: Unterminated(s, start)
    decreases |s|
  {
    hide IndexOf, Terminated;
    var n := IndexOf(s, '\n');
    if n >= LINE_BUFFER {
      assert s[..0] == "" && Unterminated(s, 0) by { StartsTerminated(s); }
    } else if n < |s| {
      var tail := s[n + 1..];
      TooLongMeansUnterminated(tail);
      if start :| Unterminated(tail, start) {
        UnterminatedInTail(s, n, start);
      }
      if start :| Unterminated(s, start) {
        UnterminatedBeyond(s, n, start);
      }
    }
  }

  ghost predicate Unterminated(s: string, start: nat) {
    && start + LINE_BUFFER <= |s| && Terminated(s[..start])
    && forall k :: start <= k < start + LINE_BUFFER ==> s[k] != '\n'
  }

  lemma StartsTerminated(s: string)
    ensures Terminated(s[..0])
  {
  }

  lemma UnterminatedInTail(s: string, n: nat, start: nat)
    requires n == IndexOf(s, '\n') < |s| && Unterminated(s[n + 1..], start)
    ensures Unterminated(s, n + 1 + start)
  {
    var tail := s[n + 1..];
    assert forall k :: n + 1 <= k < |s| ==> s[k] == tail[k - n - 1];
    if start > 0 {
      assert s[..n + 1 + start][n + start] == tail[..start][start - 1];
    }
  }

  lemma UnterminatedBeyond(s: string, n: nat, start: nat)
    requires n == IndexOf(s, '\n') < |s| && n < LINE_BUFFER && Unterminated(s, start)
    ensures start >= n + 1 && Unterminated(s[n + 1..], start - n - 1)
  {
    var tail := s[n + 1..];
    assert s[n] == '\n';
    assert start > n;
    if start > n + 1 {
      assert tail[..start - n - 1][start - n - 2] == s[..start][start - 1];
    }
  }

  lemma {:induction false} FittingLinesAreAllLines(s: string)
    ensures !TooLong(s) ==> Deliverable(s) == LinesOf(s)
    ensures Deliverable(s) <= LinesOf(s)
    decreases |s|
  {
    var n := IndexOf(s, '\n');
    if n < |s| {
      FittingLinesAreAllLines(s[n + 1..]);
    }
  }

  /** Behind complete lines that fit, the text that follows decides on its own. */
  lemma {:induction false} DeliverableSplit(a: string, b: string)
    requires Terminated(a) && !TooLong(a)
    ensures Deliverable(a + b) == LinesOf(a) + Deliverable(b)
    ensures TooLong(a + b) <==> TooLong(b)
    decreases |a|
  {
    hide IndexOf, StripCr, LinesOf, Terminated, Deliverable, TooLong;
    if a == "" {
      NoNewlineNoLines("");
      assert a + b == b;
    } else {
      TerminatedHasNewline(a);
      FirstNewline(a, b);
      var n := IndexOf(a, '\n');
      var tail := a[n + 1..];
      FirstLineThatFits(a, n, a[..n], tail);
      DeliverableSplit(tail, b);
      FirstLine(a, n, a[..n], tail);
      CutInFront(a, b, n);
      FirstLineThatFits(a + b, n, a[..n], tail + b);
    }
  }

  lemma FirstLineThatFits(s: string, n: nat, line: string, tail: string)
    requires n == IndexOf(s, '\n') < |s| && line == s[..n] && tail == s[n + 1..]
    ensures n >= LINE_BUFFER ==> TooLong(s)
    ensures n < LINE_BUFFER ==> Deliverable(s) == [StripCr(line)] + Deliverable(tail) && TooLong(s) == TooLong(tail)
  {
  }

  /** The reader is at the end: what it holds, if anything, is no complete line. */
  lemma NothingMoreFits(consumed: string, held: string, more: string)
    requires Terminated(consumed) && !TooLong(consumed) && '\n' !in held
    requires |held| <= LINE_BUFFER && (|held| == LINE_BUFFER || more == "")
    ensures Deliverable(consumed + held + more) == LinesOf(consumed)
    ensures TooLong(consumed + held + more) <==> |held| == LINE_BUFFER
  {
    hide LinesOf, Terminated;
    DeliverableSplit(consumed, held + more);
    assert consumed + held + more == consumed + (held + more);
    assert forall k :: 0 <= k < |held| ==> (held + more)[k] == held[k];
    assert IndexOf(held + more, '\n') >= |held|;
  }

  // ------------------------------------------------------------------
  // The input that is still to come
  // ------------------------------------------------------------------

  /** The first wakeup that `poll` returns with something to look at. */
  function Woken(incoming: seq<Wakeup>): Option<Wakeup> {
    if incoming == [] then None
    else if incoming[0].Spurious? then Woken(incoming[1..])
    else Some(incoming[0])
  }

  /** The connection is lost: an error, or the end of the stream. */
  predicate Closes(w: Option<Wakeup>) {
    w.None? || w.value.Failed? || w.value == Data("")
  }

  /** What `recv` takes into this much space. */
  function Intake(w: Option<Wakeup>, space: nat): string {
    match w
    case Some(Data(bytes)) => if |bytes| <= space then bytes else bytes[..space]
    case _ => ""
  }

  /** Every byte that comes before the connection is lost. */
  function Arriving(incoming: seq<Wakeup>): string {
    if incoming == [] || Closes(Some(incoming[0])) then ""
    else (match incoming[0] case Data(bytes) => bytes case _ => "") + Arriving(incoming[1..])
  }

  /** As long as nothing fails, that is every byte. */
  lemma {:induction false} ArrivingIsStream(incoming: seq<Wakeup>)
    requires forall i :: 0 <= i < |incoming| ==> !Closes(Some(incoming[i]))
    ensures Arriving(incoming) == Stream(incoming)
  {
    if incoming != [] {
      ArrivingIsStream(incoming[1..]);
    }
  }

  /** A bound on how often the reader can still make progress on this input. */
  function Weight(incoming: seq<Wakeup>): nat {
    if incoming == [] then 0
    else (match incoming[0] case Data(bytes) => 2 * |bytes| + 1 case _ => 1) + Weight(incoming[1..])
  }

  /** Every byte that is still to come, whatever the chunks. */
  function Stream(incoming: seq<Wakeup>): string {
    if incoming == [] then ""
    else (match incoming[0] case Data(bytes) => bytes case _ => "") + Stream(incoming[1..])
  }

  /** Of one stream, every reader has delivered an initial stretch of the same list of lines. */
  lemma DeliveredIsPrefixOfStream(consumed: string, rest: string)
    requires Terminated(consumed)
    ensures LinesOf(consumed) <= LinesOf(consumed + rest)
  {
    LinesOfSplit(consumed, rest);
  }

  /** What is taken and what stays on the socket make up what was available. */
  lemma IntakeAndRest(available: string, space: nat)
    requires |available| > space
    ensures available[..space] + available[space..] == available && available[space..] != ""
    ensures Intake(Some(Data(available)), space) == available[..space]
  {
  }

  lemma Regroup(a: string, b: string, c: string, d: string)
    ensures a + b + (c + d) == a + ((b + c) + d)
  {
  }

  /** Bytes that stay on the socket are the next to come. */
  lemma PutBack(bytes: string, incoming: seq<Wakeup>)
    requires bytes != ""
    ensures Stream([Data(bytes)] + incoming) == bytes + Stream(incoming)
    ensures Arriving([Data(bytes)] + incoming) == bytes + Arriving(incoming)
    ensures Weight([Data(bytes)] + incoming) == 2 * |bytes| + 1 + Weight(incoming)
  {
    assert ([Data(bytes)] + incoming)[1..] == incoming;
  }

  class LineReader {
    const buffer: array<char>
    var length: nat
    var incoming: seq<Wakeup>

    ghost const input: seq<Wakeup>      // everything the socket will ever bring
    ghost var received: string          // every byte recv has delivered
    ghost var consumed: string          // the prefix of it that was handed out as lines
    ghost var delivered: seq<string>    // those lines

    ghost predicate Framed()
      reads this, buffer
    {
      && buffer.Length == LINE_BUFFER && length <= LINE_BUFFER
      && received == consumed + buffer[..length]
      && Terminated(consumed) && !TooLong(consumed)
      && delivered == LinesOf(consumed)
    }

    /** Nothing is lost or reordered: what was received and what is to come is the input. */
    ghost predicate Valid()
      reads this, buffer
    {
      Framed() && received + Stream(incoming) == Stream(input)
    }

    /** Nothing has been missed: the connection has not been lost yet. */
    ghost predicate Open()
      reads this
    {
      received + Arriving(incoming) == Arriving(input)
    }

    /** The buffer alone decides what comes next. */
    ghost predicate Decided()
      reads this, buffer
      requires length <= buffer.Length
    {
      length == buffer.Length || '\n' in buffer[..length]
    }

    /** The lines handed out so far are the first lines of the input. */
    lemma DeliveredFromInput()
      requires Valid()
      ensures delivered <= LinesOf(Stream(input))
    {
      var rest := buffer[..length] + Stream(incoming);
      assert Stream(input) == consumed + rest;
      DeliveredIsPrefixOfStream(consumed, rest);
    }

    /** What the next read will take from the socket. */
    ghost function NextIntake(): string
      reads this, buffer
      requires length <= buffer.Length
    {
      if Decided() then "" else Intake(Woken(incoming), buffer.Length - length)
    }

    /** Once the connection is lost, everything that arrived and fits has been handed out. */
    lemma AtTheEnd(loss: Loss)
      requires Valid() && '\n' !in buffer[..length]
      requires if loss == Disconnected then received == Arriving(input) && length < LINE_BUFFER
               else Open() && length == LINE_BUFFER
      ensures delivered == Deliverable(Arriving(input))
      ensures TooLong(Arriving(input)) <==> loss != Disconnected
    {
      hide LinesOf, Terminated, TooLong, Deliverable, Arriving, Stream;
      var more := if loss == Disconnected then "" else Arriving(incoming);
      NothingMoreFits(consumed, buffer[..length], more);
      assert Arriving(input) == consumed + buffer[..length] + more;
    }

    /** Bytes not yet handed out, counted so that both recv and extraction decrease it. */
    function Budget(): nat
      reads this
    {
      length + Weight(incoming)
    }

    constructor (input: seq<Wakeup>)
      ensures Valid() && Open() && received == "" && delivered == []
      ensures incoming == this.input == input
      ensures fresh(buffer)
    {
      buffer := new char[LINE_BUFFER](_ => '\0');
      length, incoming, this.input := 0, input, input;
      received, consumed, delivered := "", "", [];
    }

    /** The memmove: the rest of the buffer moves to its front. */
    method Compact(used: nat)
      requires length <= buffer.Length && used <= length
      modifies this`length, buffer
      ensures length == old(length) - used
      ensures buffer[..length] == old(buffer[..length])[used..]
    {
      forall i | 0 <= i < length - used {
        buffer[i] := buffer[i + used];
      }
      length := length - used;
    }

    method ExtractLine(lineSize: nat) returns (r: ReadResult)
      requires Framed()
      modifies this`length, this`consumed, this`delivered, buffer
      ensures Framed()
      ensures r.NoLine? <==> '\n' !in old(buffer[..length])
      ensures r.Line? ==> delivered == old(delivered) + [r.text] && length < old(length)
      ensures r.Line? ==> |r.text| + 1 <= lineSize
      ensures !r.Line? ==> length == old(length) && delivered == old(delivered) && buffer[..] == old(buffer[..])
      ensures r.Lost? ==> r.loss == LineTooLarge && lineSize < length
    {
      hide LinesOf, Terminated, TooLong;
      ghost var held := buffer[..length];
      var newline := IndexOf(buffer[..length], '\n');
      if newline == length {
        assert held[..newline] == held;
        return NoLine;
      }
      var lineLength := newline;
      if lineLength > 0 && buffer[lineLength - 1] == '\r' {
        lineLength := lineLength - 1;
      }
      if lineLength + 1 > lineSize {
        return Lost(LineTooLarge);
      }
      var text := buffer[..lineLength];
      var used := newline + 1;
      assert text == StripCr(held[..newline]);
      Compact(used);
      OneLineMore(consumed, held, newline);
      consumed := consumed + held[..used];
      delivered := delivered + [text];
      return Line(text);
    }

    /** `received` grows by what was read; everything before it stays as it was. */
    method Receive(bytes: string)
      requires Framed() && length + |bytes| <= LINE_BUFFER
      modifies this`length, this`received, buffer
      ensures Framed()
      ensures received == old(received) + bytes && length == old(length) + |bytes|
      ensures buffer[..length] == old(buffer[..length]) + bytes
    {
      ghost var held := buffer[..length];
      forall i | 0 <= i < |bytes| {
        buffer[length + i] := bytes[i];
      }
      length := length + |bytes|;
      received := received + bytes;
      assert buffer[..length] == held + bytes;
    }

    /** `recv` into the free part of the buffer; what does not fit stays on the socket. */
    method Recv(available: string)
      requires Framed() && length < buffer.Length && available != ""
      modifies this`length, this`received, this`incoming, buffer
      ensures Framed() && delivered == old(delivered)
      ensures received == old(received) + Intake(Some(Data(available)), buffer.Length - old(length))
      ensures buffer[..length] == old(buffer[..length]) + Intake(Some(Data(available)), buffer.Length - old(length))
      ensures received + Stream(incoming) == old(received) + (available + old(Stream(incoming)))
      ensures received + Arriving(incoming) == old(received) + (available + old(Arriving(incoming)))
      ensures Budget() < old(Budget()) + 2 * |available| + 1
    {
      hide LinesOf, Terminated, TooLong, Stream, Arriving, Weight;
      var space := buffer.Length - length;
      if |available| > space {
        hide Intake;
        var rest := available[space..];
        IntakeAndRest(available, space);
        PutBack(rest, incoming);
        Regroup(received, available[..space], rest, Stream(incoming));
        Regroup(received, available[..space], rest, Arriving(incoming));
        incoming := [Data(rest)] + incoming;
        Receive(available[..space]);
      } else {
        Receive(available);
      }
    }

    /** The last step of `read_line`: receive once, and look for a line once more. */
    method ReceiveLine(available: string, lineSize: nat) returns (r: ReadResult)
      requires Framed() && length < buffer.Length && available != "" && '\n' !in buffer[..length]
      modifies this`length, this`received, this`consumed, this`delivered, this`incoming, buffer
      ensures Framed() && Budget() < old(Budget()) + 2 * |available| + 1
      ensures var intake := Intake(Some(Data(available)), buffer.Length - old(length));
        && received == old(received) + intake
        && (r.NoLine? <==> '\n' !in old(buffer[..length]) + intake)
      ensures received + Stream(incoming) == old(received) + (available + old(Stream(incoming)))
      ensures received + Arriving(incoming) == old(received) + (available + old(Arriving(incoming)))
      ensures delivered == if r.Line? then old(delivered) + [r.text] else old(delivered)
      ensures r.Lost? ==> r.loss == LineTooLarge && lineSize < LINE_BUFFER
      ensures r.NoLine? ==> '\n' !in buffer[..length] && delivered == LinesOf(received)
    {
      hide LinesOf, Terminated, TooLong, IndexOf, Weight, Stream, Arriving, Intake;
      Recv(available);
      r := ExtractLine(lineSize);
      if r.NoLine? {
        LinesOfSplit(consumed, buffer[..length]);
        NoNewlineNoLines(buffer[..length]);
      }
    }

    /** The held text decides, or else the first wakeup that brings something does.  With a line
        buffer as large as the receive buffer, the only limit is an unterminated full buffer. */
    method ReadLine(lineSize: nat) returns (r: ReadResult)
      requires Valid()
      modifies this, buffer
      ensures Valid()
      ensures delivered == if r.Line? then old(delivered) + [r.text] else old(delivered)
      ensures Budget() <= old(Budget()) && (!r.Lost? ==> Budget() < old(Budget()))
      ensures received == old(received) + old(NextIntake())
      ensures r == Lost(Disconnected) <==> old(!Decided() && Closes(Woken(incoming)))
      ensures r == Lost(BufferFull) <==> old(length == LINE_BUFFER && '\n' !in buffer[..length])
      ensures r == Lost(BufferFull) ==> length == LINE_BUFFER
      ensures r == Lost(LineTooLarge) ==> lineSize < LINE_BUFFER
      ensures lineSize >= LINE_BUFFER ==> (r.Line? <==> '\n' in old(buffer[..length] + NextIntake()))
      ensures lineSize >= LINE_BUFFER && !r.Line? ==> '\n' !in buffer[..length] && delivered == LinesOf(received)
      ensures old(Open()) && r == Lost(Disconnected) ==> received == Arriving(input) && length < LINE_BUFFER
      ensures old(Open()) && r != Lost(Disconnected) ==> Open()
    {
      hide LinesOf, Terminated, TooLong, IndexOf, StripCr, Weight, Stream, Arriving, Woken;
      r := ExtractLine(lineSize);
      if !r.NoLine? {
        return;
      }
      LinesOfSplit(consumed, buffer[..length]);
      NoNewlineNoLines(buffer[..length]);
      if length == buffer.Length {
        return Lost(BufferFull);
      }
      while true
        invariant Framed()
        invariant '\n' !in buffer[..length] && delivered == old(delivered) == LinesOf(received)
        invariant received == old(received) && Stream(incoming) == old(Stream(incoming))
        invariant Arriving(incoming) == old(Arriving(incoming)) && Woken(incoming) == old(Woken(incoming))
        invariant length == old(length) < buffer.Length && buffer[..length] == old(buffer[..length])
        invariant Budget() <= old(Budget())
        decreases |incoming|
      {
        NextWakeup(incoming);
        if incoming == [] {
          return Lost(Disconnected);
        }
        var wakeup := incoming[0];
        incoming := incoming[1..];
        match wakeup {
          case Interrupted => return NoLine;
          case TimedOut => return NoLine;
          case Failed => return Lost(Disconnected);
          case Spurious =>
          case Data(bytes) =>
            // The second full-buffer test of the source cannot succeed here.
            assert length < buffer.Length;
            if bytes == "" {
              return Lost(Disconnected);
            }
            r := ReceiveLine(bytes, lineSize);
            return;
        }
      }
    }
  }

  /** The first wakeup of an input and what it means for the rest. */
  lemma NextWakeup(incoming: seq<Wakeup>)
    ensures incoming == [] ==> Weight(incoming) == 0 && Stream(incoming) == Arriving(incoming) == "" && Woken(incoming).None?
    ensures incoming != [] ==>
      && Weight(incoming) == Weight(incoming[1..]) + (if incoming[0].Data? then 2 * |incoming[0].bytes| + 1 else 1)
      && Stream(incoming) == (if incoming[0].Data? then incoming[0].bytes else "") + Stream(incoming[1..])
      && Woken(incoming) == (if incoming[0].Spurious? then Woken(incoming[1..]) else Some(incoming[0]))
      && Arriving(incoming)
         == if Closes(Some(incoming[0])) then ""
            else (if incoming[0].Data? then incoming[0].bytes else "") + Arriving(incoming[1..])
  {
  }

  /** Reading until the connection is lost.  Whatever the chunks, the lines that come out are those
      of the bytes that arrived, up to the first line that does not fit the buffer; and a rest
      without a newline is left over. */
  method ReadAll(input: seq<Wakeup>) returns (lines: seq<string>, rest: string, loss: Loss, ghost consumed: string)
    ensures lines == Deliverable(Arriving(input))
    ensures loss == if TooLong(Arriving(input)) then BufferFull else Disconnected
    ensures lines == LinesOf(consumed) && Terminated(consumed) && '\n' !in rest
    ensures loss == Disconnected ==> lines == LinesOf(Arriving(input)) && Arriving(input) == consumed + rest
  {
    hide LinesOf, Terminated, TooLong, Deliverable, Arriving, Stream, Weight, IndexOf;
    var reader := new LineReader(input);
    lines := [];
    while true
      invariant reader.Valid() && reader.Open() && reader.input == input
      invariant fresh(reader) && fresh(reader.buffer)
      invariant lines == reader.delivered
      decreases reader.Budget()
    {
      var result := reader.ReadLine(LINE_BUFFER);
      match result {
        case Line(text) => lines := lines + [text];
        case NoLine =>
        case Lost(why) =>
          reader.AtTheEnd(why);
          FittingLinesAreAllLines(Arriving(input));
          return lines, reader.buffer[..reader.length], why, reader.consumed;
      }
    }
  }

  /** How the bytes were cut into chunks, and what else woke the reader up, does not matter: two
      readers of the same bytes deliver the same lines, come to the same end, and, unless that is a
      line that does not fit, have delivered every line and are left with the same rest. */
  method FragmentationIsInvisible(input1: seq<Wakeup>, input2: seq<Wakeup>)
    returns (lines1: seq<string>, rest1: string, loss1: Loss, lines2: seq<string>, rest2: string, loss2: Loss)
    requires forall i :: 0 <= i < |input1| ==> !Closes(Some(input1[i]))
    requires forall i :: 0 <= i < |input2| ==> !Closes(Some(input2[i]))
    requires Stream(input1) == Stream(input2)
    ensures lines1 == lines2 && loss1 == loss2
    ensures loss1 == Disconnected ==> lines1 == LinesOf(Stream(input1)) && rest1 == rest2
  {
    hide LinesOf, Terminated, TooLong, Deliverable, Arriving, Stream, Closes;
    ghost var consumed1, consumed2;
    lines1, rest1, loss1, consumed1 := ReadAll(input1);
    lines2, rest2, loss2, consumed2 := ReadAll(input2);
    ArrivingIsStream(input1);
    ArrivingIsStream(input2);
    if loss1 == Disconnected {
      SplitIsUnique(consumed1, rest1, consumed2, rest2);
    }
  }
}
