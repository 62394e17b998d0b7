/**
 The writer's side of the `key=value` payloads that the radio sends: what is written there is what
 the scanners of `Text` find.
 */
module Fields {
  import opened Text

  function Token(key: string, value: string): string {
    key + "=" + value
  }

  lemma KeyedToken(key: string, value: string, wanted: string)
    requires '=' !in key
    ensures Keyed(Token(key, value), wanted) <==> key == wanted
    ensures Token(key, value)[|key| + 1..] == value
  {
    var t := Token(key, value);
    assert t[..|key|] == key;
    IndexOfUnique(t, '=', |key|);
  }

  /** A `key=value` list. */
  function TokensOf(fields: seq<(string, string)>): (ts: seq<string>)
    ensures |ts| == |fields|
  {
    seq(|fields|, i requires 0 <= i < |fields| => Token(fields[i].0, fields[i].1))
  }

  function Value(fields: seq<(string, string)>, key: string): Option<string> {
    if fields == [] then None
    else if fields[0].0 == key then Some(fields[0].1)
    else Value(fields[1..], key)
  }

  lemma {:induction false} ValueAt(fields: seq<(string, string)>, key: string, k: nat)
    requires k <= |fields| && forall j :: 0 <= j < k ==> fields[j].0 != key
    requires k < |fields| ==> fields[k].0 == key
    ensures Value(fields, key) == if k < |fields| then Some(fields[k].1) else None
  {
    if k > 0 {
      ValueAt(fields[1..], key, k - 1);
    }
  }

  /** A field whose text can stand in a payload. */
  predicate Writable(field: (string, string)) {
    && '=' !in field.0 && ' ' !in field.0 && ' ' !in field.1
  }

  lemma {:induction false} FindField(fields: seq<(string, string)>, key: string)
    requires forall i :: 0 <= i < |fields| ==> Writable(fields[i])
    ensures Find(TokensOf(fields), key) == Value(fields, key)
  {
    if fields != [] {
      KeyedToken(fields[0].0, fields[0].1, key);
      assert TokensOf(fields)[1..] == TokensOf(fields[1..]);
      FindField(fields[1..], key);
    }
  }

  /** Looking a key up in the written payload gives the first value written for it. */
  lemma LookupWritten(fields: seq<(string, string)>, key: string)
    requires forall i :: 0 <= i < |fields| ==> Writable(fields[i])
    ensures Lookup(Joined(TokensOf(fields)), key) == Value(fields, key)
  {
    var tokens := TokensOf(fields);
    forall i | 0 <= i < |tokens| ensures tokens[i] != "" && ' ' !in tokens[i] {
      assert Writable(fields[i]);
    }
    TokensOfJoined(tokens);
    FindField(fields, key);
  }

  lemma FieldWritten(fields: seq<(string, string)>, key: string, k: nat)
    requires forall i :: 0 <= i < |fields| ==> Writable(fields[i])
    requires k <= |fields| && forall j :: 0 <= j < k ==> fields[j].0 != key
    requires k < |fields| ==> fields[k].0 == key
    ensures Lookup(Joined(TokensOf(fields)), key) == if k < |fields| then Some(fields[k].1) else None
  {
    LookupWritten(fields, key);
    ValueAt(fields, key, k);
  }
}
