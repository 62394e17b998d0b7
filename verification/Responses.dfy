/**
 Response lines and the eight-slot cache of early or late answers
 (`parse_response`, `save_response` and `take_response` in `src/flex.c`).
 */
module Responses {
  import opened Text

  const RESPONSE_BODY := 255      // characters that fit AG_RESPONSE_BODY
  const SAVED_RESPONSES := 8

  datatype Response = Response(sequence: nat, code: nat, body: string)

  /** A slot keeps its contents after it has been freed, as the struct does. */
  datatype Slot = Slot(used: bool, response: Response)

  /** `(unsigned)value`. */
  function Low32(value: nat): (r: nat)
    ensures r < 0x1_0000_0000
    ensures value < 0x1_0000_0000 ==> r == value
  {
    value % 0x1_0000_0000
  }

  /** A number that ends at a bar: its value and the text after the bar. */
  function NumberField(s: string, base: nat): Option<(nat, string)> {
    var scan := Strtoul(s, base);
    if scan.overflow || scan.end == 0 || scan.end == |s| || s[scan.end] != '|' then None
    else Some((scan.value, s[scan.end + 1..]))
  }

  /** `R<sequence>|<code>|<body>`. */
  function ParseResponse(line: string): Option<Response> {
    if line == "" || line[0] != 'R' then None
    else
      match NumberField(line[1..], 10)
      case None => None
      case Some((sequence, cursor)) =>
        match NumberField(cursor, 16)
        case None => None
        case Some((code, body)) => Some(Response(Low32(sequence), code, body))
  }

  /** The text is a number in hexadecimal digits of either case that fits `unsigned long`. */
  predicate IsHexCode(digits: string) {
    && digits != "" && DigitsValue(digits, 16) <= ULONG_MAX
    && forall k :: 0 <= k < |digits| ==> DigitOf(digits[k]) < 16
  }

  /** The answer of a well-behaved radio is read back as it was meant, whatever its code. */
  lemma ParseAnswer(sequence: nat, code: string, body: string)
    requires sequence < 0x1_0000_0000 && IsHexCode(code)
    ensures ParseResponse("R" + (Decimal(sequence) + ("|" + (code + ("|" + body)))))
         == Some(Response(sequence, DigitsValue(code, 16), body))
  {
    hide DigitsValue, NumberField, ParseResponse;
    var cursor := code + ("|" + body);
    SequenceField(sequence, cursor);
    CodeField(code, body);
    ResponseOfFields(Decimal(sequence) + ("|" + cursor), sequence, cursor, DigitsValue(code, 16), body);
  }

  /** Conversely, whatever is read as a response is `R` and three fields between bars, and its body
      is the text after the second bar. */
  lemma ResponseShape(line: string) returns (a: string, b: string)
    requires ParseResponse(line).Some?
    ensures '|' !in a && '|' !in b && line == "R" + a + "|" + b + "|" + ParseResponse(line).value.body
  {
    hide NumberField;
    var fields := line[1..];
    var cursor := NumberField(fields, 10).value.1;
    a := FieldShape(fields, 10);
    b := FieldShape(cursor, 16);
    assert line == "R" + fields;
    assert line == "R" + (a + "|" + (b + "|" + ParseResponse(line).value.body));
  }

  lemma FieldShape(s: string, base: nat) returns (a: string)
    requires NumberField(s, base).Some? && base <= 16
    ensures '|' !in a && s == a + "|" + NumberField(s, base).value.1
  {
    var end := Strtoul(s, base).end;
    NumberHasNoBar(s, base);
    a := s[..end];
    assert forall k :: 0 <= k < |a| ==> a[k] == s[k];
  }

  lemma NumberHasNoBar(s: string, base: nat)
    requires base <= 16
    ensures forall k :: 0 <= k < Strtoul(s, base).end ==> s[k] != '|'
  {
    hide Strtoul, SpacesEnd, DigitsEnd, DigitsValue;
    var a := SpacesEnd(s, 0);
    var b := if a < |s| && s[a] in "+-" then a + 1 else a;
    var p := if base == 16 && b + 2 < |s| && s[b] == '0' && s[b + 1] in "xX" && DigitOf(s[b + 2]) < 16 then b + 2 else b;
    StrtoulEnd(s, base, a, b, p);
    forall k | 0 <= k < Strtoul(s, base).end ensures s[k] != '|' {
      if k < a {
        assert IsSpace(s[k]);
      } else if k >= p {
        assert DigitOf(s[k]) < base;
      }
    }
  }

  lemma StrtoulEnd(s: string, base: nat, a: nat, b: nat, p: nat)
    requires a == SpacesEnd(s, 0) && b == (if a < |s| && s[a] in "+-" then a + 1 else a) && b <= p <= |s|
    requires p == if base == 16 && b + 2 < |s| && s[b] == '0' && s[b + 1] in "xX" && DigitOf(s[b + 2]) < 16 then b + 2 else b
    ensures Strtoul(s, base).end == 0 || Strtoul(s, base).end == DigitsEnd(s, p, base)
  {
    hide SpacesEnd, DigitsEnd, DigitsValue, DigitOf, IsSpace;
  }

  lemma ResponseOfFields(fields: string, sequence: nat, cursor: string, code: nat, body: string)
    requires sequence < 0x1_0000_0000
    requires NumberField(fields, 10) == Some((sequence, cursor))
    requires NumberField(cursor, 16) == Some((code, body))
    ensures ParseResponse("R" + fields) == Some(Response(sequence, code, body))
  {
    assert ("R" + fields)[1..] == fields;
  }

  lemma SequenceField(sequence: nat, rest: string)
    requires sequence < 0x1_0000_0000
    ensures NumberField(Decimal(sequence) + ("|" + rest), 10) == Some((sequence, rest))
  {
    hide Strtoul, Decimal, DigitsValue;
    var digits, tail := Decimal(sequence), "|" + rest;
    StrtoulReadsDecimal(sequence, tail);
    assert (digits + tail)[|digits|] == tail[0] == '|';
    assert (digits + tail)[|digits| + 1..] == rest;
  }

  lemma CodeField(code: string, body: string)
    requires IsHexCode(code)
    ensures NumberField(code + ("|" + body), 16) == Some((DigitsValue(code, 16), body))
  {
    hide Strtoul, DigitsValue;
    var tail := "|" + body;
    StrtoulReadsDigits(code, 16, tail);
    assert (code + tail)[|code|] == tail[0] == '|';
    assert (code + tail)[|code| + 1..] == body;
  }

  // ------------------------------------------------------------------
  // The cache
  // ------------------------------------------------------------------

  /** The responses that are waiting to be taken. */
  function Bag(slots: seq<Slot>): multiset<Response> {
    if slots == [] then multiset{}
    else (if slots[0].used then multiset{slots[0].response} else multiset{}) + Bag(slots[1..])
  }

  function UsedCount(slots: seq<Slot>): nat {
    |Bag(slots)|
  }

  lemma {:induction false} BagConcat(a: seq<Slot>, b: seq<Slot>)
    ensures Bag(a + b) == Bag(a) + Bag(b)
  {
    if a == [] {
      assert a + b == b;
    } else {
      assert (a + b)[1..] == a[1..] + b;
      BagConcat(a[1..], b);
    }
  }

  /** Changing one slot changes the bag by that slot alone. */
  lemma BagUpdate(slots: seq<Slot>, i: nat, slot: Slot)
    requires i < |slots|
    ensures Bag(slots[i := slot]) + Bag([slots[i]]) == Bag(slots) + Bag([slot])
  {
    assert slots == slots[..i] + [slots[i]] + slots[i + 1..];
    assert slots[i := slot] == slots[..i] + [slot] + slots[i + 1..];
    BagConcat(slots[..i] + [slots[i]], slots[i + 1..]);
    BagConcat(slots[..i] + [slot], slots[i + 1..]);
    BagConcat(slots[..i], [slots[i]]);
    BagConcat(slots[..i], [slot]);
  }

  /** The first index whose slot satisfies the test, or the length. */
  function FirstFree(slots: seq<Slot>): (i: nat)
    ensures i <= |slots| && (i < |slots| ==> !slots[i].used)
    ensures forall k :: 0 <= k < i ==> slots[k].used
  {
    if slots == [] || !slots[0].used then 0 else 1 + FirstFree(slots[1..])
  }

  function FirstMatch(slots: seq<Slot>, sequence: nat): (i: nat)
    ensures i <= |slots| && (i < |slots| ==> slots[i].used && slots[i].response.sequence == sequence)
    ensures forall k :: 0 <= k < i ==> !(slots[k].used && slots[k].response.sequence == sequence)
  {
    if slots == [] || (slots[0].used && slots[0].response.sequence == sequence) then 0
    else 1 + FirstMatch(slots[1..], sequence)
  }

  function Saved(slots: seq<Slot>, response: Response): seq<Slot> {
    var i := FirstFree(slots);
    if i == |slots| then slots
    else slots[i := Slot(true, response.(body := Clip(response.body, RESPONSE_BODY)))]
  }

  function Taken(slots: seq<Slot>, sequence: nat): seq<Slot> {
    var i := FirstMatch(slots, sequence);
    if i == |slots| then slots else slots[i := slots[i].(used := false)]
  }

  /** Saving adds the response, its body cut to the slot, unless every slot is used. */
  lemma SaveAddsToBag(slots: seq<Slot>, response: Response)
    ensures |Saved(slots, response)| == |slots|
    ensures Bag(Saved(slots, response))
         == if FirstFree(slots) == |slots| then Bag(slots)
            else Bag(slots) + multiset{response.(body := Clip(response.body, RESPONSE_BODY))}
    ensures FirstFree(slots) == |slots| <==> UsedCount(slots) == |slots|
  {
    hide Bag, Clip;
    var i := FirstFree(slots);
    UsedCountBound(slots);
    if i < |slots| {
      var slot := Slot(true, response.(body := Clip(response.body, RESPONSE_BODY)));
      BagUpdate(slots, i, slot);
      BagOfOne(slots[i]);
      BagOfOne(slot);
    }
  }

  lemma BagOfOne(slot: Slot)
    ensures Bag([slot]) == if slot.used then multiset{slot.response} else multiset{}
  {
    assert [slot][1..] == [];
  }

  /** Taking removes one response with the wanted number, and finds one whenever there is one. */
  lemma TakeRemovesFromBag(slots: seq<Slot>, sequence: nat)
    ensures |Taken(slots, sequence)| == |slots|
    ensures var i := FirstMatch(slots, sequence);
      if i < |slots| then Bag(slots) == Bag(Taken(slots, sequence)) + multiset{slots[i].response}
      else Taken(slots, sequence) == slots && forall r :: r in Bag(slots) ==> r.sequence != sequence
  {
    hide Bag;
    var i := FirstMatch(slots, sequence);
    if i < |slots| {
      BagUpdate(slots, i, slots[i].(used := false));
      BagOfOne(slots[i]);
      BagOfOne(slots[i].(used := false));
    } else {
      forall r | r in Bag(slots) ensures r.sequence != sequence {
        var k := SlotOf(slots, r);
      }
    }
  }

  lemma {:induction false} UsedCountBound(slots: seq<Slot>)
    ensures UsedCount(slots) <= |slots|
    ensures UsedCount(slots) == |slots| <==> forall k :: 0 <= k < |slots| ==> slots[k].used
  {
    if slots != [] {
      UsedCountBound(slots[1..]);
      assert (forall k :: 0 <= k < |slots| ==> slots[k].used)
        <==> slots[0].used && forall k :: 0 <= k < |slots[1..]| ==> slots[1..][k].used;
    }
  }

  lemma {:induction false} SlotOf(slots: seq<Slot>, r: Response) returns (k: nat)
    requires r in Bag(slots)
    ensures k < |slots| && slots[k].used && slots[k].response == r
  {
    if slots[0].used && slots[0].response == r {
      k := 0;
    } else {
      k := SlotOf(slots[1..], r);
      k := k + 1;
    }
  }

  method SaveResponse(slots: array<Slot>, response: Response)
    modifies slots
    ensures slots[..] == Saved(old(slots[..]), response)
  {
    var index := 0;
    while index < slots.Length
      invariant 0 <= index <= slots.Length
      invariant slots[..] == old(slots[..])
      invariant forall k :: 0 <= k < index ==> slots[k].used
    {
      if !slots[index].used {
        assert slots[..][index] == slots[index];
        assert FirstFree(slots[..]) == index;
        slots[index] := Slot(true, Response(response.sequence, response.code, Clip(response.body, RESPONSE_BODY)));
        return;
      }
      index := index + 1;
    }
    assert FirstFree(slots[..]) == slots.Length;
  }

  method TakeResponse(slots: array<Slot>, sequence: nat) returns (taken: Option<Response>)
    modifies slots
    ensures slots[..] == Taken(old(slots[..]), sequence)
    ensures var i := FirstMatch(old(slots[..]), sequence);
      taken == if i < slots.Length then Some(old(slots[..])[i].response) else None
  {
    var index := 0;
    while index < slots.Length
      invariant 0 <= index <= slots.Length
      invariant slots[..] == old(slots[..])
      invariant forall k :: 0 <= k < index ==> !(slots[k].used && slots[k].response.sequence == sequence)
    {
      if slots[index].used && slots[index].response.sequence == sequence {
        assert slots[..][index] == slots[index];
        assert FirstMatch(slots[..], sequence) == index;
        taken := Some(slots[index].response);
        slots[index] := slots[index].(used := false);
        return;
      }
      index := index + 1;
    }
    assert FirstMatch(slots[..], sequence) == slots.Length;
    return None;
  }
}
