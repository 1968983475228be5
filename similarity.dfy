/** Edit-distance similarity between transaction texts, used to find transactions
    similar to a given one for batch recategorization. */
module Similarity {
  import opened Text
  import opened Categories
  import opened Categorizer
  import opened Sequences

  function Min(x: nat, y: nat): nat {
    if x <= y then x else y
  }

  /** The edit distance the single-row table computes, by its recurrence on the last
      characters: a matching last character costs nothing; otherwise one more than the
      best of substituting, deleting from `a` or inserting into `a`. */
  function EditDistance(a: string, b: string): nat
    decreases |a| + |b|
  {
    if |a| == 0 then |b|
    else if |b| == 0 then |a|
    else if a[|a| - 1] == b[|b| - 1] then EditDistance(a[..|a| - 1], b[..|b| - 1])
    else 1 + Min(Min(EditDistance(a[..|a| - 1], b[..|b| - 1]), EditDistance(a, b[..|b| - 1])),
                 EditDistance(a[..|a| - 1], b))
  }

  /** One cell of the table in terms of its three neighbours, and the table's borders. */
  lemma EditDistanceCell(a: string, b: string, i: nat, j: nat)
    requires i <= |a| && j <= |b|
    ensures i == 0 ==> EditDistance(a[..i], b[..j]) == j
    ensures j == 0 ==> EditDistance(a[..i], b[..j]) == i
    ensures 0 < i && 0 < j ==>
      (EditDistance(a[..i], b[..j]) ==
         if a[i - 1] == b[j - 1] then EditDistance(a[..i - 1], b[..j - 1])
         else 1 + Min(Min(EditDistance(a[..i - 1], b[..j - 1]), EditDistance(a[..i], b[..j - 1])),
                      EditDistance(a[..i - 1], b[..j])))
  {
    if 0 < i && 0 < j {
      assert a[..i][..i - 1] == a[..i - 1];
      assert b[..j][..j - 1] == b[..j - 1];
    }
  }

  /** `getEditDistance`: one row of costs, updated in place, with the value of the
      cell to the left carried in `lastValue`. */
  method GetEditDistance(str1: string, str2: string) returns (distance: nat)
    ensures distance == EditDistance(str1, str2)
  {
    var costs := new nat[|str2| + 1];
    for i := 0 to |str1| + 1
      invariant 0 < i ==> forall k :: 0 <= k <= |str2| ==> costs[k] == EditDistance(str1[..i - 1], str2[..k])
    {
      NextRow(str1, str2, costs, i);
    }
    assert str1[..|str1|] == str1 && str2[..|str2|] == str2;
    distance := costs[|str2|];
  }

  /** One pass of the outer loop: turns row `i - 1` of the table, held in `costs`, into
      row `i` (row 0 is written from scratch). */
  method NextRow(str1: string, str2: string, costs: array<nat>, i: nat)
    requires costs.Length == |str2| + 1 && i <= |str1|
    requires 0 < i ==> forall k :: 0 <= k <= |str2| ==> costs[k] == EditDistance(str1[..i - 1], str2[..k])
    modifies costs
    ensures forall k :: 0 <= k <= |str2| ==> costs[k] == EditDistance(str1[..i], str2[..k])
  {
    ghost var previous := costs[..];
    var lastValue: nat := i;
    EditDistanceCell(str1, str2, i, 0);
    for j := 0 to |str2| + 1
      invariant i == 0 ==> forall k :: 0 <= k < j ==> costs[k] == k
      invariant 0 < i ==> lastValue == EditDistance(str1[..i], str2[..if j == 0 then 0 else j - 1])
      invariant 0 < i ==> forall k :: 0 <= k < j - 1 ==> costs[k] == EditDistance(str1[..i], str2[..k])
      invariant 0 < i ==> forall k :: (if j == 0 then 0 else j - 1) <= k <= |str2| ==> costs[k] == previous[k]
    {
      EditDistanceCell(str1, str2, i, j);
      if i == 0 {
        costs[j] := j;
      } else if j > 0 {
        var newValue := costs[j - 1];
        if str1[i - 1] != str2[j - 1] {
          newValue := Min(Min(newValue, lastValue), costs[j]) + 1;
        }
        costs[j - 1] := lastValue;
        lastValue := newValue;
      }
    }
    if i > 0 {
      costs[|str2|] := lastValue;
    }
    forall k | 0 <= k <= |str2| && i == 0 ensures costs[k] == EditDistance(str1[..0], str2[..k]) {
      EditDistanceCell(str1, str2, 0, k);
    }
  }

  /** A string is at distance zero from itself. */
  lemma {:induction false} EditDistanceSelf(a: string)
    ensures EditDistance(a, a) == 0
    decreases |a|
  {
    if |a| > 0 {
      EditDistanceSelf(a[..|a| - 1]);
    }
  }

  /** The distance does not depend on the order of the arguments. */
  lemma {:induction false} EditDistanceSymmetric(a: string, b: string)
    ensures EditDistance(a, b) == EditDistance(b, a)
    decreases |a| + |b|
  {
    if |a| > 0 && |b| > 0 {
      EditDistanceSymmetric(a[..|a| - 1], b[..|b| - 1]);
      if a[|a| - 1] != b[|b| - 1] {
        EditDistanceSymmetric(a, b[..|b| - 1]);
        EditDistanceSymmetric(a[..|a| - 1], b);
      }
    }
  }

  /** The distance from the empty string is the other string's length, and every
      distance lies between the length difference and the longer length. */
  lemma {:induction false} EditDistanceBounds(a: string, b: string)
    ensures EditDistance(a, []) == |a| && EditDistance([], b) == |b|
    ensures |a| - |b| <= EditDistance(a, b) && |b| - |a| <= EditDistance(a, b)
    ensures EditDistance(a, b) <= if |a| < |b| then |b| else |a|
    decreases |a| + |b|
  {
    if |a| > 0 && |b| > 0 {
      EditDistanceBounds(a[..|a| - 1], b[..|b| - 1]);
      if a[|a| - 1] != b[|b| - 1] {
        EditDistanceBounds(a, b[..|b| - 1]);
        EditDistanceBounds(a[..|a| - 1], b);
      }
    }
  }

  /** Changing only the last character costs at most one edit. */
  lemma LastCharacterChanged(p: string, x: char, y: char)
    ensures EditDistance(p + [x], p + [y]) <= 1
  {
    assert (p + [x])[..|p|] == p && (p + [y])[..|p|] == p;
    EditDistanceSelf(p);
  }

  /** Multiplying by a positive number keeps a strict order. */
  lemma ScaleStrict(x: real, y: real, w: real)
    requires 0.0 < w && y < x
    ensures y * w < x * w
  {
  }

  /** Multiplying by a positive number keeps a weak order. */
  lemma ScaleWeak(x: real, y: real, w: real)
    requires 0.0 < w && x <= y
    ensures x * w <= y * w
  {
  }

  lemma QuotientTimes(p: real, w: real)
    requires 0.0 < w
    ensures (p / w) * w == p
  {
  }

  /** A quotient of `p` by `w` at most `bound` puts `p` at most `bound * w`. */
  lemma AtMost(q: real, p: real, w: real, bound: real)
    requires 0.0 < w && q * w == p && q <= bound
    ensures p <= bound * w
  {
    ScaleWeak(q, bound, w);
  }

  /** A quotient of `p` by `w` above `bound` puts `p` above `bound * w`. */
  lemma Above(q: real, p: real, w: real, bound: real)
    requires 0.0 < w && q * w == p && bound < q
    ensures bound * w < p
  {
    ScaleStrict(q, bound, w);
  }

  /** The quotient `part / whole` of a positive whole lies in [0, 1], and it exceeds
      0.6 exactly when five parts exceed three wholes. */
  lemma ShareBounds(part: nat, whole: nat, q: real)
    requires 0 < whole && part <= whole && q == part as real / whole as real
    ensures 0.0 <= q <= 1.0
    ensures q > 0.6 <==> 5 * part > 3 * whole
  {
    var w := whole as real;
    var p := part as real;
    QuotientTimes(p, w);
    if q <= 0.6 {
      AtMost(q, p, w, 0.6);
    } else {
      Above(q, p, w, 0.6);
    }
    if 1.0 < q {
      Above(q, p, w, 1.0);
    }
    if q < 0.0 {
      ScaleStrict(0.0, q, w);
    }
  }

  /** The share `part / whole` of a positive whole. */
  function Share(part: nat, whole: nat): (r: real)
    requires 0 < whole && part <= whole
    ensures 0.0 <= r <= 1.0
    ensures r > 0.6 <==> 5 * part > 3 * whole
  {
    var q := part as real / whole as real;
    ShareBounds(part, whole, q);
    q
  }

  /** `calculateStringSimilarity`: one minus the distance over the longer length, and
      1 for two empty strings. */
  function Similarity(str1: string, str2: string): (r: real)
    ensures 0.0 <= r <= 1.0
  {
    var longer := if |str1| > |str2| then str1 else str2;
    var shorter := if |str1| > |str2| then str2 else str1;
    if |longer| == 0 then 1.0
    else
      EditDistanceBounds(longer, shorter);
      Share(|longer| - EditDistance(longer, shorter), |longer|)
  }

  /** Similarity lies in [0, 1], and the threshold `> 0.6` is the integer test
      `5 (L - d) > 3 L` on the longer length `L` and the distance `d`. */
  lemma SimilarityThreshold(str1: string, str2: string)
    ensures 0.0 <= Similarity(str1, str2) <= 1.0
    ensures var L := if |str1| < |str2| then |str2| else |str1|;
      Similarity(str1, str2) > 0.6 <==> L == 0 || 5 * (L - EditDistance(str1, str2)) > 3 * L
  {
    EditDistanceSymmetric(str1, str2);
  }

  /** Similarity does not depend on the order of the arguments. */
  lemma SimilaritySymmetric(str1: string, str2: string)
    ensures Similarity(str1, str2) == Similarity(str2, str1)
  {
    EditDistanceSymmetric(str1, str2);
  }

  /** Two texts that differ only in the last of at least three characters are
      similar, as "starbucks #4521" and "starbucks #4522" are. */
  lemma LastCharacterChangedIsSimilar(p: string, x: char, y: char)
    requires |p| >= 2
    ensures Similarity(p + [x], p + [y]) > 0.6
  {
    LastCharacterChanged(p, x, y);
    SimilarityThreshold(p + [x], p + [y]);
  }

  /** A stored transaction as the similarity search sees it; an absent merchant is
      the empty string. */
  datatype Record = Record(description: string, merchant: string, category: Category)

  /** The record's text is similar enough to the target text. */
  predicate IsSimilar(target: string, x: Record) {
    Similarity(target, SearchText(x.description, x.merchant)) > 0.6
  }

  /** `findSimilarTransactions`: the `filter` of the records whose text is similar to
      the target's, every copy kept, in their original order. */
  function FindSimilar(description: string, merchant: string, transactions: seq<Record>): (r: seq<Record>)
    ensures IsSubsequence(r, transactions)
    ensures forall x :: multiset(r)[x] ==
                          if IsSimilar(SearchText(description, merchant), x) then multiset(transactions)[x] else 0
    ensures forall x :: x in r <==> x in transactions && IsSimilar(SearchText(description, merchant), x)
  {
    var target := SearchText(description, merchant);
    Filter(transactions, x => IsSimilar(target, x))
  }

  /** A record whose text equals the target's is always found. */
  lemma FindSimilarKeepsSameText(description: string, merchant: string, transactions: seq<Record>, x: Record)
    requires x in transactions && SearchText(x.description, x.merchant) == SearchText(description, merchant)
    ensures x in FindSimilar(description, merchant, transactions)
  {
    var text := SearchText(description, merchant);
    EditDistanceSelf(text);
    SimilarityThreshold(text, text);
    assert |text| > 0;
  }
}
