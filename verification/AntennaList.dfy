/**
 The antenna list of the create command: its text, its size, and that it can be read back
 (`initialize_session` in `src/flex.c`).
 */
module AntennaList {
  import opened Text
  import opened Policy

  const ANTENNA_LIST := MAX_ANTENNAS * (MAX_ANTENNA_ID + 1)

  function Ids(policy: seq<AntennaPolicy>): seq<string> {
    seq(|policy|, i requires 0 <= i < |policy| => policy[i].id)
  }

  function CommaJoined(ids: seq<string>): string {
    if ids == [] then ""
    else if |ids| == 1 then ids[0]
    else CommaJoined(ids[..|ids| - 1]) + "," + ids[|ids| - 1]
  }

  function SplitAtCommas(s: string): seq<string> {
    var n := IndexOf(s, ',');
    if n == |s| then [s] else [s[..n]] + SplitAtCommas(s[n + 1..])
  }

  lemma JoinedGrows(ids: seq<string>, n: nat)
    requires n < |ids|
    ensures CommaJoined(ids[..n + 1]) == CommaJoined(ids[..n]) + ((if n == 0 then "" else ",") + ids[n])
  {
    assert ids[..n + 1][..n] == ids[..n];
  }

  lemma {:induction false} JoinedOnlyGrows(ids: seq<string>, n: nat)
    requires n <= |ids|
    ensures |CommaJoined(ids[..n])| <= |CommaJoined(ids)|
    decreases |ids| - n
  {
    if n == |ids| {
      assert ids[..n] == ids;
    } else {
      JoinedGrows(ids, n);
      JoinedOnlyGrows(ids, n + 1);
    }
  }

  /** `n` IDs of at most 31 characters need at most `32 n - 1` characters, and exactly that many
      when each has 31. */
  lemma {:induction false} JoinedLength(ids: seq<string>)
    requires ids != [] && forall i :: 0 <= i < |ids| ==> |ids[i]| <= MAX_ANTENNA_ID
    ensures |CommaJoined(ids)| <= |ids| * (MAX_ANTENNA_ID + 1) - 1
    ensures (forall i :: 0 <= i < |ids| ==> |ids[i]| == MAX_ANTENNA_ID) ==>
      |CommaJoined(ids)| == |ids| * (MAX_ANTENNA_ID + 1) - 1
  {
    if |ids| > 1 {
      JoinedLength(ids[..|ids| - 1]);
    }
  }

  lemma SplitSingle(s: string)
    requires ',' !in s
    ensures SplitAtCommas(s) == [s]
  {
    assert s[..|s|] == s;
    IndexOfUnique(s, ',', |s|);
  }

  lemma FirstPiece(s: string, n: nat)
    requires n == IndexOf(s, ',')
    ensures n == |s| ==> SplitAtCommas(s) == [s]
    ensures n < |s| ==> SplitAtCommas(s) == [s[..n]] + SplitAtCommas(s[n + 1..])
  {
  }

  lemma {:induction false} SplitSnoc(a: string, b: string)
    requires ',' !in b
    ensures SplitAtCommas(a + "," + b) == SplitAtCommas(a) + [b]
    decreases |a|
  {
    hide IndexOf, SplitAtCommas;
    var s := a + "," + b;
    var n := IndexOf(a, ',');
    assert s[..n] == a[..n] && s[n] == ',';
    assert forall k :: 0 <= k < n ==> s[k] == a[k];
    IndexOfUnique(s, ',', n);
    FirstPiece(s, n);
    FirstPiece(a, n);
    if n == |a| {
      assert s[n + 1..] == b && a[..|a|] == a;
      SplitSingle(b);
    } else {
      assert s[n + 1..] == a[n + 1..] + "," + b;
      SplitSnoc(a[n + 1..], b);
    }
  }

  /** Splitting the list at commas gives the IDs back, in order. */
  lemma {:induction false} SplitUndoesJoin(ids: seq<string>)
    requires ids != [] && forall i :: 0 <= i < |ids| ==> ',' !in ids[i]
    ensures SplitAtCommas(CommaJoined(ids)) == ids
  {
    hide IndexOf, SplitAtCommas;
    if |ids| == 1 {
      SplitSingle(ids[0]);
    } else {
      var before := ids[..|ids| - 1];
      SplitUndoesJoin(before);
      SplitSnoc(CommaJoined(before), ids[|ids| - 1]);
      assert before + [ids[|ids| - 1]] == ids;
    }
  }
}
