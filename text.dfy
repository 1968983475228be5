/** ASCII string helpers shared by the parser and the categorizer: the subset of
    JavaScript's `toLowerCase`, `trim`, `includes` and the regex class `\s` that the
    core relies on, restricted to ASCII text. */
module Text {

  /** JavaScript's `\s` and the characters `trim` removes, restricted to ASCII:
      space, tab, line feed, vertical tab, form feed, carriage return. */
  predicate IsSpace(c: char) {
    c == ' ' || 9 <= c as int <= 13
  }

  predicate IsDigit(c: char) {
    '0' <= c <= '9'
  }

  predicate AllDigits(s: string) {
    forall i :: 0 <= i < |s| ==> IsDigit(s[i])
  }

  function LowerChar(c: char): char {
    if 'A' <= c <= 'Z' then (c as int + 32) as char else c
  }

  /** `toLowerCase` on ASCII text. */
  function Lower(s: string): string {
    seq(|s|, i requires 0 <= i < |s| => LowerChar(s[i]))
  }

  /** The decimal value of a run of digits, as `parseInt` reads it. */
  function DigitsValue(s: string): nat
    requires AllDigits(s)
  {
    if s == [] then 0 else 10 * DigitsValue(s[..|s| - 1]) + (s[|s| - 1] as int - '0' as int)
  }

  /** `text.startsWith(pat)`. */
  predicate StartsWith(text: string, pat: string) {
    |pat| <= |text| && text[..|pat|] == pat
  }

  /** The pattern occurs in the text starting at position `i`. */
  predicate OccursAt(text: string, pat: string, i: int) {
    0 <= i <= |text| - |pat| && text[i..i + |pat|] == pat
  }

  /** `text.includes(pat)`, scanning the start positions left to right. */
  predicate Contains(text: string, pat: string)
    decreases |text|
  {
    StartsWith(text, pat) || (|text| > 0 && Contains(text[1..], pat))
  }

  /** `includes` holds exactly when the pattern occurs at some position of the text. */
  lemma {:induction false} ContainsIff(text: string, pat: string)
    ensures Contains(text, pat) <==> exists i :: OccursAt(text, pat, i)
    decreases |text|
  {
    if StartsWith(text, pat) {
      assert OccursAt(text, pat, 0);
    } else if |text| == 0 {
    } else {
      ContainsIff(text[1..], pat);
      if Contains(text[1..], pat) {
        var i :| OccursAt(text[1..], pat, i);
        assert text[i + 1..i + 1 + |pat|] == pat;
        assert OccursAt(text, pat, i + 1);
      }
      if exists i :: OccursAt(text, pat, i) {
        var i :| OccursAt(text, pat, i);
        assert i != 0;
        assert text[1..][i - 1..i - 1 + |pat|] == pat;
        assert OccursAt(text[1..], pat, i - 1);
      }
    }
  }

  function TrimStart(s: string): (r: string)
    ensures |r| <= |s| && r == s[|s| - |r|..]
    ensures r != [] ==> !IsSpace(r[0])
    ensures forall i :: 0 <= i < |s| - |r| ==> IsSpace(s[i])
  {
    if s != [] && IsSpace(s[0]) then TrimStart(s[1..]) else s
  }

  function TrimEnd(s: string): (r: string)
    ensures |r| <= |s| && r == s[..|r|]
    ensures r != [] ==> !IsSpace(r[|r| - 1])
    ensures forall i :: |r| <= i < |s| ==> IsSpace(s[i])
  {
    if s != [] && IsSpace(s[|s| - 1]) then TrimEnd(s[..|s| - 1]) else s
  }

  /** `trim`: drop leading and trailing white space, and nothing else. */
  function Trim(s: string): (r: string)
    ensures r != [] ==> !IsSpace(r[0]) && !IsSpace(r[|r| - 1])
    ensures exists i :: OccursAt(s, r, i) && TrimmedAround(s, i, i + |r|)
  {
    var t := TrimStart(s);
    var r := TrimEnd(t);
    TrimmedSlice(s, t, r);
    r
  }

  /** A suffix `t` of `s` whose dropped front is white space, and a prefix `r` of `t` whose
      dropped back is white space: `r` sits in `s` with only white space around it. */
  lemma TrimmedSlice(s: string, t: string, r: string)
    requires |r| <= |t| <= |s| && t == s[|s| - |t|..] && r == t[..|r|]
    requires forall k :: 0 <= k < |s| - |t| ==> IsSpace(s[k])
    requires forall k :: |r| <= k < |t| ==> IsSpace(t[k])
    ensures exists i :: OccursAt(s, r, i) && TrimmedAround(s, i, i + |r|)
  {
    var i := |s| - |t|;
    assert s[i..i + |r|] == r by {
      assert s[i..][..|r|] == s[i..i + |r|];
    }
    forall k | i + |r| <= k < |s| ensures IsSpace(s[k]) {
      assert s[k] == t[k - i];
    }
    assert OccursAt(s, r, i) && TrimmedAround(s, i, i + |r|);
  }

  /** Everything before position `i` and from position `j` on is white space. */
  predicate TrimmedAround(s: string, i: int, j: int) {
    (forall k :: 0 <= k < i && k < |s| ==> IsSpace(s[k])) &&
    (forall k :: j <= k < |s| && 0 <= k ==> IsSpace(s[k]))
  }
}
