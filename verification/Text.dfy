/**
 The C string operations that the rest of the program is built from: searching,
 case-insensitive comparison, number parsing, and the two `key=value` scanners.

 A string here is the text before the terminating NUL.
 */
module Text {

  datatype Option<+T> = None | Some(value: T)

  // ------------------------------------------------------------------
  // Searching and cutting
  // ------------------------------------------------------------------

  /** The offset of the first `c`, or `|s|` when there is none. */
  function IndexOf(s: string, c: char): (i: nat)
    ensures i <= |s|
    ensures forall k :: 0 <= k < i ==> s[k] != c
    ensures i < |s| ==> s[i] == c
  {
    if s == "" || s[0] == c then 0 else 1 + IndexOf(s[1..], c)
  }

  lemma IndexOfUnique(s: string, c: char, i: nat)
    requires i <= |s| && forall k :: 0 <= k < i ==> s[k] != c
    requires i < |s| ==> s[i] == c
    ensures IndexOf(s, c) == i
  {
  }

  /** What a C function sees of a buffer: everything before the first NUL. */
  function CText(s: string): (t: string)
    ensures t <= s && '\0' !in t
    ensures |t| < |s| ==> s[|t|] == '\0'
  {
    s[..IndexOf(s, '\0')]
  }

  /** `snprintf(buffer, limit + 1, "%s", s)`. */
  function Clip(s: string, limit: nat): (t: string)
    ensures t <= s && |t| <= limit
    ensures |t| < |s| ==> |t| == limit
  {
    if |s| <= limit then s else s[..limit]
  }

  /** Clipping to a buffer that is longer than `word` cannot create or hide `word`. */
  lemma ClipKeepsShortWord(s: string, limit: nat, word: string)
    requires |word| < limit
    ensures Clip(s, limit) == word <==> s == word
  {
  }

  // ------------------------------------------------------------------
  // strcasecmp
  // ------------------------------------------------------------------

  function Lower(c: char): char {
    if 'A' <= c <= 'Z' then (c as int + 32) as char else c
  }

  function LowerAll(s: string): (r: string)
    ensures |r| == |s|
    ensures forall i :: 0 <= i < |s| ==> r[i] == Lower(s[i])
  {
    seq(|s|, i requires 0 <= i < |s| => Lower(s[i]))
  }

  /** `strcasecmp(a, b) == 0` in the C locale. */
  predicate SameText(a: string, b: string) {
    LowerAll(a) == LowerAll(b)
  }

  predicate IsAlnum(c: char) {
    'a' <= c <= 'z' || 'A' <= c <= 'Z' || '0' <= c <= '9'
  }

  const UPPER_CASE := "ABCDEFGHIJKLMNOPQRSTUVWXYZ"
  const LOWER_CASE := "abcdefghijklmnopqrstuvwxyz"
  const DIGITS := "0123456789"

  /** The alphabets hold the letters and digits in the order of their codes. */
  lemma AlphabetOrder(k: int)
    ensures 0 <= k < 26 ==> UPPER_CASE[k] as int == 'A' as int + k && LOWER_CASE[k] as int == 'a' as int + k
    ensures 0 <= k < 10 ==> DIGITS[k] as int == '0' as int + k
  {
    if 0 <= k < 26 {
      assert UPPER_CASE[k] as int == 'A' as int + k;
      assert LOWER_CASE[k] as int == 'a' as int + k;
    }
  }

  /** Letter case by the alphabet: a capital becomes the letter at the same place, and nothing else
      changes. */
  lemma LowerByAlphabet(c: char)
    ensures forall k :: 0 <= k < 26 && c == UPPER_CASE[k] ==> Lower(c) == LOWER_CASE[k]
    ensures c !in UPPER_CASE ==> Lower(c) == c
  {
    hide Lower;
    forall k | 0 <= k < 26 && c == UPPER_CASE[k] ensures Lower(c) == LOWER_CASE[k] {
      AlphabetOrder(k);
      LowerOf(c, LOWER_CASE[k]);
    }
    if 'A' <= c <= 'Z' {
      AlphabetOrder(c as int - 'A' as int);
      assert UPPER_CASE[c as int - 'A' as int] == c;
    } else {
      LowerOf(c, c);
    }
  }

  lemma LowerOf(c: char, d: char)
    ensures 'A' <= c <= 'Z' && d as int == c as int + 32 ==> Lower(c) == d
    ensures !('A' <= c <= 'Z') ==> Lower(c) == c
  {
  }

  lemma AlnumByAlphabet(c: char)
    ensures IsAlnum(c) <==> c in UPPER_CASE || c in LOWER_CASE || c in DIGITS
  {
    if 'A' <= c <= 'Z' {
      AlphabetOrder(c as int - 'A' as int);
      assert UPPER_CASE[c as int - 'A' as int] == c;
    } else if 'a' <= c <= 'z' {
      AlphabetOrder(c as int - 'a' as int);
      assert LOWER_CASE[c as int - 'a' as int] == c;
    } else if '0' <= c <= '9' {
      AlphabetOrder(c as int - '0' as int);
      assert DIGITS[c as int - '0' as int] == c;
    } else {
      forall k | 0 <= k < 26 ensures UPPER_CASE[k] != c && LOWER_CASE[k] != c { AlphabetOrder(k); }
      forall k | 0 <= k < 10 ensures DIGITS[k] != c { AlphabetOrder(k); }
    }
  }

  /** Case-insensitive equality, character by character. */
  lemma SameTextMeans(a: string, b: string)
    ensures SameText(a, b) <==> |a| == |b| && forall i :: 0 <= i < |a| ==> Lower(a[i]) == Lower(b[i])
  {
    if SameText(a, b) {
      assert forall i :: 0 <= i < |a| ==> LowerAll(a)[i] == Lower(a[i]) && LowerAll(b)[i] == Lower(b[i]);
    }
  }

  // ------------------------------------------------------------------
  // Numbers
  // ------------------------------------------------------------------

  /** The largest `unsigned long` of the 64-bit releases. */
  const ULONG_MAX: nat := 0xFFFF_FFFF_FFFF_FFFF

  /** What `strtoul` reports: the value, the end pointer, and whether it set ERANGE. */
  datatype Scan = Scan(value: nat, end: nat, overflow: bool)

  predicate IsSpace(c: char) {
    c == ' ' || 9 <= c as int <= 13
  }

  /** White space in the C locale: space, tab, newline, vertical tab, form feed, carriage return. */
  lemma SixSpaces(c: char)
    ensures IsSpace(c) <==> c in [' ', '\t', '\n', '\U{000B}', '\U{000C}', '\r']
  {
    assert '\t' as int == 9 && '\n' as int == 10 && '\r' as int == 13;
  }

  /** The value of `c` as a digit, or 99. */
  function DigitOf(c: char): nat {
    if '0' <= c <= '9' then c as int - '0' as int
    else if 'a' <= c <= 'z' then c as int - 'a' as int + 10
    else if 'A' <= c <= 'Z' then c as int - 'A' as int + 10
    else 99
  }

  /** The end of the digits of `s` that start at `i`. */
  function DigitsEnd(s: string, i: nat, base: nat): (end: nat)
    requires i <= |s|
    ensures i <= end <= |s|
    ensures forall k :: i <= k < end ==> DigitOf(s[k]) < base
    decreases |s| - i
  {
    if i == |s| || DigitOf(s[i]) >= base then i else DigitsEnd(s, i + 1, base)
  }

  /** The value of a digit or letter is its place in the alphabets; anything else is no digit. */
  lemma DigitByAlphabet(c: char)
    ensures forall k :: 0 <= k < 10 && c == DIGITS[k] ==> DigitOf(c) == k
    ensures forall k :: 0 <= k < 26 && (c == LOWER_CASE[k] || c == UPPER_CASE[k]) ==> DigitOf(c) == 10 + k
    ensures c !in DIGITS && c !in LOWER_CASE && c !in UPPER_CASE ==> DigitOf(c) == 99
  {
    hide IsAlnum;
    AlnumByAlphabet(c);
    forall k | 0 <= k < 10 && c == DIGITS[k] ensures DigitOf(c) == k { AlphabetOrder(k); }
    forall k | 0 <= k < 26 && (c == LOWER_CASE[k] || c == UPPER_CASE[k]) ensures DigitOf(c) == 10 + k { AlphabetOrder(k); }
    NoDigit(c);
  }

  lemma NoDigit(c: char)
    ensures !IsAlnum(c) ==> DigitOf(c) == 99
  {
  }

  function DigitsValue(s: string, base: nat): nat {
    if s == "" then 0 else DigitsValue(s[..|s| - 1], base) * base + DigitOf(s[|s| - 1])
  }

  function Power(base: nat, k: nat): nat {
    if k == 0 then 1 else base * Power(base, k - 1)
  }

  /** Digits count by their place, the first ones most. */
  lemma {:induction false} DigitsByPlace(a: string, b: string, base: nat)
    ensures DigitsValue(a + b, base) == DigitsValue(a, base) * Power(base, |b|) + DigitsValue(b, base)
    ensures forall c :: DigitsValue([c], base) == DigitOf(c)
    decreases |b|
  {
    forall c ensures DigitsValue([c], base) == DigitOf(c) { OneDigit(c, base); }
    if b == "" {
      assert a + b == a;
    } else {
      var front, last := b[..|b| - 1], b[|b| - 1];
      DigitsByPlace(a, front, base);
      assert (a + b)[..|a + b| - 1] == a + front;
      var x, p := DigitsValue(a, base), Power(base, |front|);
      assert Power(base, |b|) == base * p;
      TimesBase(x, p, DigitsValue(front, base), base);
    }
  }

  lemma OneDigit(c: char, base: nat)
    ensures DigitsValue([c], base) == DigitOf(c)
  {
    assert [c][..0] == "" && DigitsValue("", base) == 0;
  }

  lemma TimesBase(x: nat, p: nat, y: nat, base: nat)
    ensures (x * p + y) * base == x * (base * p) + y * base
  {
  }

  /** The end of the white space of `s` that starts at `i`. */
  function SpacesEnd(s: string, i: nat): (end: nat)
    requires i <= |s|
    ensures i <= end <= |s|
    ensures forall k :: i <= k < end ==> IsSpace(s[k])
    decreases |s| - i
  {
    if i == |s| || !IsSpace(s[i]) then i else SpacesEnd(s, i + 1)
  }

  /** `-value` in `unsigned long`. */
  function Negated(value: nat): nat
    requires value <= ULONG_MAX
  {
    if value == 0 then 0 else ULONG_MAX + 1 - value
  }

  /** `strtoul(s, &end, base)` for base 10 or 16, with leading space, a sign and a `0x` prefix. */
  function Strtoul(s: string, base: nat): (r: Scan)
    ensures r.end <= |s|
    ensures r.end > 0 ==> IsSpace(s[0]) || s[0] in "+-" || DigitOf(s[0]) < base
  {
    var a := SpacesEnd(s, 0);
    var b := if a < |s| && s[a] in "+-" then a + 1 else a;
    var p := if base == 16 && b + 2 < |s| && s[b] == '0' && s[b + 1] in "xX" && DigitOf(s[b + 2]) < 16 then b + 2 else b;
    var end := DigitsEnd(s, p, base);
    if end == p then Scan(0, 0, false)
    else
      var value := DigitsValue(s[p..end], base);
      if value > ULONG_MAX then Scan(ULONG_MAX, end, true)
      else if b > a && s[a] == '-' then Scan(Negated(value), end, false)
      else Scan(value, end, false)
  }

  /** Negating is subtracting from zero in 64 bits. */
  lemma NegatedMeans(value: nat)
    requires value <= ULONG_MAX
    ensures (Negated(value) + value) % (ULONG_MAX + 1) == 0 && Negated(value) <= ULONG_MAX
  {
  }

  /** `%u`. */
  function Decimal(n: nat): (s: string)
    ensures |s| >= 1
    ensures forall i :: 0 <= i < |s| ==> '0' <= s[i] <= '9'
    ensures DigitsValue(s, 10) == n
    ensures n > 0 ==> s[0] != '0'
  {
    var last := [('0' as int + n % 10) as char];
    if n < 10 then last else Decimal(n / 10) + last
  }

  function Pow10(k: nat): nat {
    if k == 0 then 1 else 10 * Pow10(k - 1)
  }

  lemma {:induction false} DecimalLength(n: nat, k: nat)
    requires 1 <= k && n < Pow10(k)
    ensures |Decimal(n)| <= k
  {
    assert Pow10(0) == 1;
    if n >= 10 {
      DecimalLength(n / 10, k - 1);
    }
  }

  lemma {:induction false} DigitsEndOf(s: string, i: nat, n: nat, base: nat)
    requires i <= n <= |s| && forall k :: i <= k < n ==> DigitOf(s[k]) < base
    requires n == |s| || DigitOf(s[n]) >= base
    ensures DigitsEnd(s, i, base) == n
    decreases n - i
  {
    if i < n {
      DigitsEndOf(s, i + 1, n, base);
    }
  }

  lemma {:induction false} SpacesEndOf(s: string, i: nat, n: nat)
    requires i <= n <= |s| && forall k :: i <= k < n ==> IsSpace(s[k])
    requires n == |s| || !IsSpace(s[n])
    ensures SpacesEnd(s, i) == n
    decreases n - i
  {
    if i < n {
      SpacesEndOf(s, i + 1, n);
    }
  }

  /** All that `strtoul` accepts: white space up to `a`, a sign up to `b`, for base 16 a `0x` up to
      `p`, digits up to `end`.  It reports the value of the digits, negated after a minus sign, and
      overflow exactly if they do not fit. */
  lemma StrtoulReadsNumber(s: string, base: nat, a: nat, b: nat, p: nat, end: nat)
    requires (base == 10 || base == 16) && a <= b <= p < end <= |s|
    requires forall k :: 0 <= k < a ==> IsSpace(s[k])
    requires b == a || (b == a + 1 && s[a] in "+-")
    requires p == b || (p == b + 2 && base == 16 && s[b] == '0' && s[b + 1] in "xX")
    requires forall k :: p <= k < end ==> DigitOf(s[k]) < base
    requires end == |s| || (DigitOf(s[end]) >= base && (base == 16 ==> s[end] !in "xX"))
    ensures var v := DigitsValue(s[p..end], base);
      Strtoul(s, base) == if v > ULONG_MAX then Scan(ULONG_MAX, end, true)
                          else Scan(if b > a && s[a] == '-' then Negated(v) else v, end, false)
  {
    hide Strtoul, DigitsEnd, SpacesEnd, DigitsValue;
    assert !IsSpace(s[a]) && (b == a ==> s[a] !in "+-");
    assert p == b && base == 16 && b + 2 < |s| ==> s[b + 1] !in "xX";
    SpacesEndOf(s, 0, a);
    DigitsEndOf(s, p, end, base);
    StrtoulParts(s, base, a, b, p, end);
  }

  /** Reading digits of the base gives their value, and stops where the digits stop. */
  lemma StrtoulReadsDigits(digits: string, base: nat, rest: string)
    requires (base == 10 || base == 16) && digits != "" && DigitsValue(digits, base) <= ULONG_MAX
    requires forall k :: 0 <= k < |digits| ==> DigitOf(digits[k]) < base
    requires rest == "" || (DigitOf(rest[0]) >= base && (base == 16 ==> rest[0] !in "xX"))
    ensures Strtoul(digits + rest, base) == Scan(DigitsValue(digits, base), |digits|, false)
  {
    hide Strtoul, DigitsValue;
    var s, n := digits + rest, |digits|;
    assert s[0..n] == digits && (n < |s| ==> s[n] == rest[0]);
    assert forall k :: 0 <= k < n ==> s[k] == digits[k];
    StrtoulReadsNumber(s, base, 0, 0, 0, n);
  }

  /** The steps of `strtoul`. */
  lemma StrtoulParts(s: string, base: nat, a: nat, b: nat, p: nat, end: nat)
    requires a == SpacesEnd(s, 0) && a <= b <= p < end <= |s|
    requires b == if a < |s| && s[a] in "+-" then a + 1 else a
    requires p == if base == 16 && b + 2 < |s| && s[b] == '0' && s[b + 1] in "xX" && DigitOf(s[b + 2]) < 16 then b + 2 else b
    requires end == DigitsEnd(s, p, base)
    ensures var v := DigitsValue(s[p..end], base);
      Strtoul(s, base) == if v > ULONG_MAX then Scan(ULONG_MAX, end, true)
                          else Scan(if b > a && s[a] == '-' then Negated(v) else v, end, false)
  {
    hide DigitsEnd, SpacesEnd, DigitsValue, Negated, DigitOf, IsSpace;
  }

  /** Reading back what `%u` printed gives the number, and stops where the digits stop. */
  lemma StrtoulReadsDecimal(n: nat, rest: string)
    requires n <= ULONG_MAX
    requires rest == "" || DigitOf(rest[0]) >= 10
    ensures Strtoul(Decimal(n) + rest, 10) == Scan(n, |Decimal(n)|, false)
  {
    StrtoulReadsDigits(Decimal(n), 10, rest);
  }

  // ------------------------------------------------------------------
  // key=value scanning
  // ------------------------------------------------------------------

  /** The non-empty pieces of `s` between spaces. */
  function Tokens(s: string): (ts: seq<string>)
    ensures forall t <- ts :: t != "" && ' ' !in t
  {
    if s == "" then []
    else if s[0] == ' ' then Tokens(s[1..])
    else
      var n := IndexOf(s, ' ');
      [s[..n]] + Tokens(s[n..])
  }

  /** The text before the first `=` is exactly `key`. */
  predicate Keyed(token: string, key: string) {
    IndexOf(token, '=') == |key| < |token| && token[..|key|] == key
  }

  /** The value of the first token that carries `key`. */
  function Find(tokens: seq<string>, key: string): Option<string> {
    if tokens == [] then None
    else if Keyed(tokens[0], key) then Some(tokens[0][|key| + 1..])
    else Find(tokens[1..], key)
  }

  function Lookup(payload: string, key: string): Option<string> {
    Find(Tokens(payload), key)
  }

  lemma {:induction false} TokensSkipSpaces(s: string, n: nat)
    requires n <= |s| && forall i :: 0 <= i < n ==> s[i] == ' '
    ensures Tokens(s) == Tokens(s[n..])
  {
    if n == 0 {
      assert s[0..] == s;
    } else {
      TokensSkipSpaces(s[1..], n - 1);
      assert s[1..][n - 1..] == s[n..];
    }
  }

  /** Spaces separate: the tokens of two texts with a space between them are those of each. */
  lemma {:induction false} TokensSplit(a: string, b: string)
    ensures Tokens(a + " " + b) == Tokens(a) + Tokens(b)
    decreases |a|
  {
    hide Tokens, IndexOf;
    var s := a + " " + b;
    if a == "" {
      assert s[1..] == b;
      LeadingSpace(s);
      NoTokens();
    } else if a[0] == ' ' {
      assert s[1..] == a[1..] + " " + b;
      LeadingSpace(s);
      LeadingSpace(a);
      TokensSplit(a[1..], b);
    } else {
      var n := IndexOf(a, ' ');
      assert s[n] == ' ' && s[..n] == a[..n];
      assert forall k :: 0 <= k < n ==> s[k] == a[k];
      IndexOfUnique(s, ' ', n);
      LeadingToken(s, n);
      LeadingToken(a, n);
      if n == |a| {
        assert s[n..] == " " + b && (" " + b)[1..] == b && a[n..] == "";
        LeadingSpace(" " + b);
        NoTokens();
      } else {
        assert s[n..] == a[n..] + " " + b;
        TokensSplit(a[n..], b);
      }
    }
  }

  lemma NoTokens()
    ensures Tokens("") == []
  {
  }

  lemma LeadingSpace(s: string)
    requires s != "" && s[0] == ' '
    ensures Tokens(s) == Tokens(s[1..])
  {
  }

  lemma LeadingToken(s: string, n: nat)
    requires s != "" && s[0] != ' ' && n == IndexOf(s, ' ')
    ensures Tokens(s) == [s[..n]] + Tokens(s[n..])
  {
  }

  /** A text without spaces is its own only token. */
  lemma OneToken(t: string)
    requires t != "" && ' ' !in t
    ensures Tokens(t) == [t]
  {
    TokensOfJoined([t]);
  }

  /** One turn of either scanner: the token it looks at, and where it goes on. */
  method NextToken(payload: string, cursor: nat) returns (start: nat, end: nat)
    requires cursor < |payload|
    ensures cursor <= start <= end <= |payload| && cursor < end
    ensures Tokens(payload[cursor..])
         == (if start == end then [] else [payload[start..end]]) + Tokens(payload[end..])
  {
    hide Tokens;
    start := cursor;
    while start < |payload| && payload[start] == ' '
      invariant cursor <= start <= |payload|
      invariant forall i :: cursor <= i < start ==> payload[i] == ' '
    {
      start := start + 1;
    }
    end := start + IndexOf(payload[start..], ' ');
    var tail := payload[cursor..];
    TokensSkipSpaces(tail, start - cursor);
    assert tail[start - cursor..] == payload[start..];
    if start < |payload| {
      LeadingToken(payload[start..], end - start);
      assert payload[start..][..end - start] == payload[start..end];
      assert payload[start..][end - start..] == payload[end..];
    } else {
      assert payload[start..] == "";
      NoTokens();
    }
  }

  /** Looking at one token decides the lookup or leaves it to the rest. */
  lemma LookupStep(before: string, token: string, after: string, key: string)
    requires Tokens(before) == (if token == "" then [] else [token]) + Tokens(after)
    ensures Lookup(before, key)
         == if Keyed(token, key) then Some(token[|key| + 1..]) else Lookup(after, key)
  {
    if token == "" {
      assert Tokens(before) == Tokens(after);
    } else {
      assert Tokens(before)[0] == token && Tokens(before)[1..] == Tokens(after);
    }
  }

  /** The meaning of the session's scanner: an overlong value is cut to the buffer. */
  function LenientValue(payload: string, key: string, size: nat): Option<string>
    requires size > 0
  {
    match Lookup(payload, key)
    case None => None
    case Some(v) => Some(Clip(v, size - 1))
  }

  /** The meaning of the discovery scanner: an empty or overlong value is a failure. */
  function StrictValue(payload: string, key: string, size: nat): Option<string> {
    match Lookup(payload, key)
    case None => None
    case Some(v) => if v == "" || |v| >= size then None else Some(v)
  }

  /** Where the strict scanner succeeds, the lenient one reports the same value; the converse
      fails exactly for an empty value or one that the lenient scanner had to cut. */
  lemma ScannersAgree(payload: string, key: string, size: nat)
    requires size > 0
    ensures var strict, lenient := StrictValue(payload, key, size), LenientValue(payload, key, size);
      && (strict.Some? ==> strict == lenient)
      && (strict.Some? <==> lenient.Some? && lenient.value != "" && lenient == Lookup(payload, key))
  {
  }

  lemma SliceOfSlice(s: string, a: nat, b: nat, n: nat)
    requires a <= b <= |s| && n <= b - a
    ensures s[a..][..n] == s[a..b][..n]
  {
  }

  method LenientField(payload: string, key: string, size: nat) returns (value: Option<string>)
    requires size > 0
    ensures value == LenientValue(payload, key, size)
  {
    var cursor := 0;
    assert payload[0..] == payload;
    while cursor < |payload|
      invariant cursor <= |payload|
      invariant Lookup(payload, key) == Lookup(payload[cursor..], key)
    {
      var start, end := NextToken(payload, cursor);
      var token := payload[start..end];
      var equals := IndexOf(token, '=');
      LookupStep(payload[cursor..], token, payload[end..], key);
      if equals < |token| && equals == |key| && token[..equals] == key {
        var length := end - start - equals - 1;
        ghost var whole := payload[start + equals + 1..end];
        assert token[|key| + 1..] == whole == whole[..|whole|];
        if length >= size {
          length := size - 1;
        }
        SliceOfSlice(payload, start + equals + 1, end, length);
        return Some(payload[start + equals + 1..][..length]);
      }
      cursor := end;
    }
    return None;
  }

  method StrictField(payload: string, key: string, size: nat) returns (value: Option<string>)
    ensures value == StrictValue(payload, key, size)
  {
    var cursor := 0;
    assert payload[0..] == payload;
    while cursor < |payload|
      invariant cursor <= |payload|
      invariant Lookup(payload, key) == Lookup(payload[cursor..], key)
    {
      var start, end := NextToken(payload, cursor);
      var token := payload[start..end];
      var equals := IndexOf(token, '=');
      LookupStep(payload[cursor..], token, payload[end..], key);
      if equals < |token| && equals == |key| && token[..equals] == key {
        var length := end - start - equals - 1;
        assert token[|key| + 1..] == payload[start + equals + 1..end];
        if length == 0 || length >= size {
          return None;
        }
        return Some(payload[start + equals + 1..end]);
      }
      cursor := end;
    }
    return None;
  }

  function Joined(tokens: seq<string>): string {
    if tokens == [] then ""
    else if |tokens| == 1 then tokens[0]
    else tokens[0] + " " + Joined(tokens[1..])
  }

  /** Splitting undoes joining with single spaces. */
  lemma {:induction false} TokensOfJoined(tokens: seq<string>)
    requires forall i :: 0 <= i < |tokens| ==> tokens[i] != "" && ' ' !in tokens[i]
    ensures Tokens(Joined(tokens)) == tokens
  {
    if tokens != [] {
      var t, rest := tokens[0], tokens[1..];
      var s := Joined(tokens);
      if rest == [] {
        IndexOfUnique(s, ' ', |t|);
        assert s[..|t|] == t && s[|t|..] == "";
      } else {
        assert s == t + (" " + Joined(rest));
        assert s[..|t|] == t;
        IndexOfUnique(s, ' ', |t|);
        assert s[|t|..] == " " + Joined(rest);
        assert (" " + Joined(rest))[1..] == Joined(rest);
        TokensOfJoined(rest);
      }
      assert s[0] != ' ' by { assert s[0] == t[0] && t[0] in t; }
    }
  }
}
