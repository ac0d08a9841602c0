/** The ordinal string operations of System.String that the translators use. */
module Text {

  /** `s.StartsWith(prefix)`, compared character by character. */
  predicate StartsWith(s: string, prefix: string)
    ensures StartsWith(s, prefix) <==> |prefix| <= |s| && forall k :: 0 <= k < |prefix| ==> s[k] == prefix[k]
  {
    |prefix| <= |s| && s[..|prefix|] == prefix
  }

  /** `s.Contains(part)`, searched position by position from the left. */
  predicate Contains(s: string, part: string)
    ensures Contains(s, part) <==> exists k :: 0 <= k <= |s| && StartsWith(s[k..], part)
    decreases |s|
  {
    if StartsWith(s, part) then
      assert s[0..] == s;
      true
    else if s == [] then
      assert forall k :: 0 <= k <= |s| ==> k == 0 && s[k..] == s;
      false
    else
      assert forall k :: 1 <= k <= |s| ==> s[k..] == s[1..][k - 1..];
      assert s[0..] == s;
      Contains(s[1..], part)
  }

  /** The index of the first `c` in `s`, or `|s|` when there is none. */
  function IndexOf(s: string, c: char): (k: nat)
    ensures k <= |s|
    ensures c !in s[..k]
    ensures k < |s| ==> s[k] == c
  {
    if s == [] then 0
    else if s[0] == c then 0
    else 1 + IndexOf(s[1..], c)
  }

  /** `s.Split(new char[] { sep })`: the pieces between the separators, empty ones kept. */
  function Split(s: string, sep: char): (pieces: seq<string>)
    ensures |pieces| >= 1
    ensures forall i :: 0 <= i < |pieces| ==> sep !in pieces[i]
    ensures Join(pieces, sep) == s
    decreases |s|
  {
    var k := IndexOf(s, sep);
    if k == |s| then
      assert s[..k] == s;
      [s]
    else
      var rest := Split(s[k + 1..], sep);
      assert s == s[..k] + [sep] + s[k + 1..];
      [s[..k]] + rest
  }

  /** `string.Join(sep, pieces)`, the inverse of `Split`. */
  function Join(pieces: seq<string>, sep: char): string
    requires |pieces| >= 1
  {
    if |pieces| == 1 then pieces[0] else pieces[0] + [sep] + Join(pieces[1..], sep)
  }

  /**
   * The second piece of a split is the text between the first and the second
   * separator (or the end of the string when there is only one separator).
   */
  lemma SecondPiece(s: string, sep: char)
    requires sep in s
    ensures var i := IndexOf(s, sep);
            i < |s| && |Split(s, sep)| >= 2 &&
            Split(s, sep)[1] == s[i + 1..][..IndexOf(s[i + 1..], sep)]
  {
    var i := IndexOf(s, sep);
    var rest := s[i + 1..];
    var j := IndexOf(rest, sep);
    if j < |rest| {
      assert Split(rest, sep)[0] == rest[..j];
    }
  }

  /** A string that contains a string holding `c` holds `c` itself. */
  lemma ContainsChar(s: string, part: string, c: char)
    requires Contains(s, part) && c in part
    ensures c in s
  {
    var k :| 0 <= k <= |s| && StartsWith(s[k..], part);
    var m :| 0 <= m < |part| && part[m] == c;
    assert s[k..][m] == c;
  }
}
