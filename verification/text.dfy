/** The string rewriting the script applies before parsing a decimal. */
module Text {
  import opened Seqs

  /** `s.replace(from, to)` with a one-character string pattern: JavaScript
      replaces the FIRST occurrence only. */
  function ReplaceFirst(s: string, from: char, to: char): (r: string)
    ensures |r| == |s|
    ensures from !in s ==> r == s
    ensures from in s ==>
      var k := FirstIndex(s, from);
      && r[k] == to
      && forall j :: 0 <= j < |s| && j != k ==> r[j] == s[j]
  {
    if |s| == 0 then s
    else if s[0] == from then [to] + s[1..]
    else
      var rest := ReplaceFirst(s[1..], from, to);
      assert from in s ==> from in s[1..] && FirstIndex(s, from) == 1 + FirstIndex(s[1..], from);
      [s[0]] + rest
  }

  /** When the replacement character does not already occur, replacing it back
      restores the original text: the rewrite loses nothing. */
  lemma ReplaceFirstRoundTrip(s: string, from: char, to: char)
    requires to !in s
    ensures ReplaceFirst(ReplaceFirst(s, from, to), to, from) == s
  {
    var r := ReplaceFirst(s, from, to);
    if from in s {
      var k := FirstIndex(s, from);
      assert to in r;
      var k' := FirstIndex(r, to);
      assert k' == k by {
        assert forall j :: 0 <= j < k ==> r[j] == s[j] != to;
      }
      var back := ReplaceFirst(r, to, from);
      assert forall j :: 0 <= j < |s| ==> back[j] == s[j];
    }
  }
}
