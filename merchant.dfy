/** `extractMerchant`: the merchant name guessed from a transaction description. */
module Merchant {
  import opened Wrappers
  import opened Text
  import opened Sequences

  /** The type words the description may start with, in the order the pattern's
      alternation tries them. */
  function TypeWords(): seq<string> {
    ["DEBIT", "CREDIT", "TRANSACTION", "CHECK", "ACH", "TRANSFER", "WITHDRAWAL", "DEPOSIT"]
  }

  /** The text starts with the word, letters compared without regard to case. */
  predicate StartsWithWord(s: string, w: string) {
    |w| <= |s| && forall i :: 0 <= i < |w| ==> LowerChar(s[i]) == LowerChar(w[i])
  }

  /** The first word of `words` the text starts with; the alternation takes the first
      alternative that matches, since the `[\s-]*` after it always matches. */
  function MatchedWord(s: string, words: seq<string>): (r: Option<nat>)
    ensures r.Some? ==> r.value < |words| && StartsWithWord(s, words[r.value])
    ensures r.Some? ==> forall j :: 0 <= j < r.value ==> !StartsWithWord(s, words[j])
    ensures r.None? ==> forall j :: 0 <= j < |words| ==> !StartsWithWord(s, words[j])
  {
    if words == [] then None
    else if StartsWithWord(s, words[0]) then Some(0)
    else match MatchedWord(s, words[1..])
      case None => None
      case Some(i) => Some(i + 1)
  }

  /** The characters of the class `[\s-]`. */
  predicate IsSep(c: char) {
    IsSpace(c) || c == '-'
  }

  predicate NoSep(s: string) {
    forall i :: 0 <= i < |s| ==> !IsSep(s[i])
  }

  /** `[\s-]*` at the start of the text, removed. */
  function DropSeps(s: string): (r: string)
    ensures |r| <= |s| && r == s[|s| - |r|..]
    ensures r != [] ==> !IsSep(r[0])
    ensures forall i :: 0 <= i < |s| - |r| ==> IsSep(s[i])
  {
    if s != [] && IsSep(s[0]) then DropSeps(s[1..]) else s
  }

  /** The first `replace` of `extractMerchant`: at most one type word, matched without regard to case
      and without a word boundary, then the separators after it. */
  function StripTypeWord(s: string): (r: string)
    ensures |r| <= |s| && r == s[|s| - |r|..]
    ensures r == s <==> MatchedWord(s, TypeWords()).None?
    ensures r != s && r != [] ==> !IsSep(r[0])
  {
    TypeWordsNonEmpty();
    StripWord(s, TypeWords())
  }

  lemma TypeWordsNonEmpty()
    ensures forall j :: 0 <= j < |TypeWords()| ==> |TypeWords()[j]| > 0
  {
  }

  /** The text without the first of the (non-empty) words it starts with, if any, and
      without the separators after that word. */
  function StripWord(s: string, words: seq<string>): (r: string)
    requires forall j :: 0 <= j < |words| ==> |words[j]| > 0
    ensures |r| <= |s| && r == s[|s| - |r|..]
    ensures r == s <==> MatchedWord(s, words).None?
    ensures r != s && r != [] ==> !IsSep(r[0])
  {
    match MatchedWord(s, words)
    case None => s
    case Some(i) =>
      var w := words[i];
      var r := DropSeps(s[|w|..]);
      SuffixOfSuffix(s, |w|, r);
      r
  }

  /** The text after the first matched type word and its separators. */
  lemma {:induction false} StripMatched(s: string, i: nat)
    requires MatchedWord(s, TypeWords()) == Some(i)
    ensures |TypeWords()[i]| <= |s| && StripTypeWord(s) == DropSeps(s[|TypeWords()[i]|..])
  {
  }

  /** The position of the first separator, or the length when there is none. */
  function SepIndex(s: string): (i: nat)
    ensures i <= |s| && NoSep(s[..i])
    ensures i < |s| ==> IsSep(s[i])
  {
    if s == [] || IsSep(s[0]) then 0
    else
      var i := 1 + SepIndex(s[1..]);
      assert forall k :: 1 <= k < i ==> s[..i][k] == s[1..][..i - 1][k - 1];
      i
  }

  /** `split(/[\s-]/)`: the runs between single separators, empty runs included. */
  function Fields(s: string): (r: seq<string>)
    ensures |r| >= 1
    ensures forall j :: 0 <= j < |r| ==> NoSep(r[j])
    ensures NoSep(s) ==> r == [s]
    decreases |s|
  {
    var i := SepIndex(s);
    if i == |s| then
      assert s[..i] == s;
      [s]
    else
      var rest := Fields(s[i + 1..]);
      var r := [s[..i]] + rest;
      assert forall j :: 1 <= j < |r| ==> r[j] == rest[j - 1];
      r
  }

  /** The separator characters of the text, in order. */
  function Seps(s: string): (r: seq<char>)
    ensures forall k :: 0 <= k < |r| ==> IsSep(r[k])
    ensures NoSep(s) ==> r == []
  {
    if s == [] then [] else (if IsSep(s[0]) then [s[0]] else []) + Seps(s[1..])
  }

  lemma {:induction false} SepsAppend(a: string, b: string)
    ensures Seps(a + b) == Seps(a) + Seps(b)
  {
    if a != [] {
      assert (a + b)[1..] == a[1..] + b;
      SepsAppend(a[1..], b);
    } else {
      assert a + b == b;
    }
  }

  /** The fields put back together with the separators between them. */
  function Join(fields: seq<string>, seps: seq<char>): string
    requires |fields| == |seps| + 1
  {
    if seps == [] then fields[0] else fields[0] + [seps[0]] + Join(fields[1..], seps[1..])
  }

  /** At a separator, the first field ends and the fields of the rest follow. */
  lemma FieldsStep(s: string)
    requires SepIndex(s) < |s|
    ensures Fields(s) == [s[..SepIndex(s)]] + Fields(s[SepIndex(s) + 1..])
  {
  }

  lemma {:induction false} SepsStep(s: string)
    requires SepIndex(s) < |s|
    ensures Seps(s) == [s[SepIndex(s)]] + Seps(s[SepIndex(s) + 1..])
  {
    var i := SepIndex(s);
    var rest := s[i + 1..];
    assert s == s[..i] + ([s[i]] + rest);
    SepsAppend(s[..i], [s[i]] + rest);
    SepsAppend([s[i]], rest);
    assert Seps([s[i]]) == [s[i]] by {
      assert [s[i]][1..] == [];
    }
  }

  /** Joining a field and a separator in front of the rest. */
  lemma JoinCons(f: string, c: char, fs: seq<string>, ss: seq<char>)
    requires |fs| == |ss| + 1
    ensures Join([f] + fs, [c] + ss) == f + [c] + Join(fs, ss)
  {
    assert ([f] + fs)[1..] == fs && ([c] + ss)[1..] == ss;
  }

  /** A text with no separator is one field and has no separators. */
  lemma {:induction false} FieldsWhole(s: string)
    requires SepIndex(s) == |s|
    ensures Fields(s) == [s] && Seps(s) == []
  {
    var i := SepIndex(s);
    assert s[..i] == s;
  }

  lemma Recompose(s: string, i: nat)
    requires i < |s|
    ensures s == s[..i] + [s[i]] + s[i + 1..]
  {
  }

  /** `split` loses nothing: there is one more field than separators, and joining the
      fields with the separators in order gives the text back. */
  lemma {:induction false} FieldsJoin(s: string)
    ensures |Fields(s)| == |Seps(s)| + 1 && Join(Fields(s), Seps(s)) == s
    decreases |s|
  {
    var i := SepIndex(s);
    if i == |s| {
      FieldsWhole(s);
    } else {
      var rest := s[i + 1..];
      FieldsJoin(rest);
      FieldsStep(s);
      SepsStep(s);
      JoinCons(s[..i], s[i], Fields(rest), Seps(rest));
      Recompose(s, i);
    }
  }

  /** `find(p => p.length > 2)`: the position of the first field longer than two. */
  function FirstLong(parts: seq<string>): (r: Option<nat>)
    ensures r.Some? ==> r.value < |parts| && |parts[r.value]| > 2
    ensures r.Some? ==> forall j :: 0 <= j < r.value ==> |parts[j]| <= 2
    ensures r.None? ==> forall j :: 0 <= j < |parts| ==> |parts[j]| <= 2
  {
    FirstIndex(parts, (p: string) => |p| > 2)
  }

  /** The description after the type word is stripped and the rest trimmed. */
  function Stripped(description: string): string {
    Trim(StripTypeWord(description))
  }

  /** The first field longer than two characters, or else the whole stripped text. */
  function Token(stripped: string): (m: string)
    ensures FirstLong(Fields(stripped)).Some? ==>
      m == Fields(stripped)[FirstLong(Fields(stripped)).value] && NoSep(m) && |m| > 2
    ensures FirstLong(Fields(stripped)).None? ==> m == stripped
  {
    var parts := Fields(stripped);
    match FirstLong(parts)
    case Some(i) => parts[i]
    case None => stripped
  }

  /** `substring(0, 50)`. */
  function Truncate(m: string): (r: string)
    ensures |r| == if |m| < 50 then |m| else 50
    ensures StartsWith(m, r)
    ensures NoSep(m) ==> NoSep(r)
  {
    var n := if |m| < 50 then |m| else 50;
    assert forall k :: 0 <= k < n ==> m[..n][k] == m[k];
    m[..n]
  }

  /** `extractMerchant`: strip one type word and trim; take the first field longer than
      two characters, or else the whole stripped text; keep at most 50 characters. */
  function ExtractMerchant(description: string): (r: string)
    ensures var m := Token(Stripped(description));
      |r| == (if |m| < 50 then |m| else 50) && StartsWith(m, r)
    ensures FirstLong(Fields(Stripped(description))).Some? ==> NoSep(r)
  {
    Truncate(Token(Stripped(description)))
  }
}

/** Worked examples of the type-word stripping. */
module MerchantExamples {
  import opened Text
  import opened Wrappers
  import opened Merchant

  /** A text starting with "ACH" (in any case) starts with no earlier type word, since
      none of them begins with an `a`. */
  lemma {:induction false} MatchedWordAch(s: string)
    requires StartsWithWord(s, "ACH")
    ensures MatchedWord(s, TypeWords()) == Some(4)
  {
    var words := TypeWords();
    assert LowerChar(s[0]) == 'a';
    assert !StartsWithWord(s, words[0]) && !StartsWithWord(s, words[1]);
    assert !StartsWithWord(s, words[2]) && !StartsWithWord(s, words[3]);
    assert MatchedWord(s, words[4..]) == Some(0);
    assert MatchedWord(s, words[3..]) == Some(1);
    assert MatchedWord(s, words[2..]) == Some(2);
    assert MatchedWord(s, words[1..]) == Some(3);
  }

  /** A text starting with "ACH" loses those three letters and the separators after them. */
  lemma {:induction false} StripTypeWordAch(s: string)
    requires StartsWithWord(s, "ACH")
    ensures StripTypeWord(s) == DropSeps(s[3..])
  {
    assert |TypeWords()[4]| == 3;
    MatchedWordAch(s);
    StripMatched(s, 4);
  }

  /** The type word needs no word boundary: "ACH" is stripped from the start of any
      word. */
  lemma {:induction false} StripTypeWordNoBoundary(rest: string)
    ensures StripTypeWord("ACH" + rest) == DropSeps(rest)
  {
    var s := "ACH" + rest;
    assert s[..3] == "ACH";
    StripTypeWordAch(s);
    assert s[3..] == rest;
  }

  /** One leading separator before a word is dropped. */
  lemma {:induction false} DropOneSpace(x: string)
    requires x != [] && !IsSep(x[0])
    ensures DropSeps(" " + x) == x
  {
    assert (" " + x)[1..] == x;
  }

  /** "ACH" followed by a word with no separator at its start and no space at its end
      leaves that word. */
  lemma {:induction false} StrippedAch(rest: string)
    requires rest != [] && !IsSep(rest[0]) && !IsSpace(rest[|rest| - 1])
    ensures Stripped("ACH" + rest) == rest
  {
    StripTypeWordNoBoundary(rest);
    assert DropSeps(rest) == rest;
    assert TrimStart(rest) == rest;
    assert TrimEnd(rest) == rest;
  }

  /** A single word of more than two characters is its own merchant. */
  lemma {:induction false} TokenWord(w: string)
    requires NoSep(w) && |w| > 2
    ensures Token(w) == w
  {
    assert Fields(w) == [w];
    assert FirstLong([w]) == Some(0);
  }

  /** "ACH" glued to a word of three to fifty characters leaves that word as the
      merchant. */
  lemma {:induction false} ExtractMerchantAch(rest: string)
    requires NoSep(rest) && 2 < |rest| <= 50
    ensures ExtractMerchant("ACH" + rest) == rest
  {
    StrippedAch(rest);
    TokenWord(rest);
  }

  /** So "ACHIEVE" yields the merchant "IEVE". */
  lemma ExtractMerchantAchieve(description: string)
    requires description == "ACHIEVE"
    ensures ExtractMerchant(description) == "IEVE"
  {
    var rest := "IEVE";
    assert description == "ACH" + rest;
    ExtractMerchantAch(rest);
  }

  /** A text starting with "CHECK" (in any case) starts with no earlier type word. */
  lemma {:induction false} MatchedWordCheck(s: string)
    requires StartsWithWord(s, "CHECK")
    ensures MatchedWord(s, TypeWords()) == Some(3)
  {
    var words := TypeWords();
    assert LowerChar(s[0]) == 'c' && LowerChar(s[1]) == 'h';
    assert !StartsWithWord(s, words[0]) && !StartsWithWord(s, words[1]) && !StartsWithWord(s, words[2]);
    assert MatchedWord(s, words[3..]) == Some(0);
    assert MatchedWord(s, words[2..]) == Some(1);
    assert MatchedWord(s, words[1..]) == Some(2);
  }

  /** A text starting with "CHECK" loses those five letters and the separators after them. */
  lemma {:induction false} StripTypeWordCheck(s: string)
    requires StartsWithWord(s, "CHECK")
    ensures StripTypeWord(s) == DropSeps(s[5..])
  {
    assert |TypeWords()[3]| == 5;
    MatchedWordCheck(s);
    StripMatched(s, 3);
  }

  lemma {:induction false} StartsWithCheck(x: string)
    ensures StartsWithWord("CHECK " + x, "CHECK")
  {
    var s := "CHECK " + x;
    assert forall k :: 0 <= k < 5 ==> s[k] == "CHECK"[k];
  }

  lemma {:induction false} AfterCheck(x: string)
    ensures ("CHECK " + x)[5..] == " " + x
  {
  }

  /** "CHECK", one space, then a word: the word is left. */
  lemma {:induction false} StripCheckSpace(x: string)
    requires x != [] && !IsSep(x[0])
    ensures StripTypeWord("CHECK " + x) == x
  {
    var s := "CHECK " + x;
    calc {
      StripTypeWord(s);
    == { StartsWithCheck(x); StripTypeWordCheck(s); }
      DropSeps(s[5..]);
    == { AfterCheck(x); }
      DropSeps(" " + x);
    == { DropOneSpace(x); }
      x;
    }
  }

  /** Only one type word is stripped: "CHECK DEPOSIT ..." keeps "DEPOSIT ...". */
  lemma {:induction false} StripTypeWordOnce(rest: string)
    ensures StripTypeWord("CHECK DEPOSIT" + rest) == "DEPOSIT" + rest
  {
    var x := "DEPOSIT" + rest;
    assert "CHECK DEPOSIT" + rest == "CHECK " + x;
    StripCheckSpace(x);
  }
}
