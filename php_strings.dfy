/** The PHP string primitives the find & replace routines rely on:
    strtolower, substr_count, str_replace and str_ireplace.
    Strings are sequences of characters; case folding is ASCII only
    (only 'A'..'Z' change), as strtolower has done since PHP 8.2. */
module PhpStrings {

  /** strtolower on one character. */
  function LowerChar(c: char): char {
    if 'A' <= c <= 'Z' then (c as int + 32) as char else c
  }

  /** strtolower: nothing added or removed ... */
  function ToLower(s: string): (r: string)
    ensures |r| == |s|
  {
    if s == [] then [] else [LowerChar(s[0])] + ToLower(s[1..])
  }

  /** ... and every character folded on its own. */
  lemma {:induction false} ToLowerAt(s: string, i: nat)
    requires i < |s|
    ensures ToLower(s)[i] == LowerChar(s[i])
  {
    if i > 0 {
      ToLowerAt(s[1..], i - 1);
    }
  }

  /** Whether a window of the subject matches the needle: exactly, or
      after ASCII folding of both sides. */
  predicate Same(window: string, needle: string, ignoreCase: bool) {
    if ignoreCase then ToLower(window) == ToLower(needle) else window == needle
  }

  /** Number of leftmost, non-overlapping matches of `needle` in
      `haystack`: after a match the scan resumes just past it. */
  function CountMatches(haystack: string, needle: string, ignoreCase: bool): nat
    requires needle != []
    decreases |haystack|
  {
    if |haystack| < |needle| then 0
    else if Same(haystack[..|needle|], needle, ignoreCase) then
      1 + CountMatches(haystack[|needle|..], needle, ignoreCase)
    else CountMatches(haystack[1..], needle, ignoreCase)
  }

  /** The needle occurs in the haystack at position i (under the same
      notion of equality the count uses). */
  predicate OccursAt(haystack: string, needle: string, ignoreCase: bool, i: nat) {
    i + |needle| <= |haystack| && Same(haystack[i..i + |needle|], needle, ignoreCase)
  }

  /** The count is positive exactly when the needle occurs somewhere: the
      leftmost scan misses no occurrence. */
  lemma {:induction false} CountPositiveIffOccurs(haystack: string, needle: string, ignoreCase: bool)
    requires needle != []
    ensures CountMatches(haystack, needle, ignoreCase) > 0
        <==> exists i: nat :: OccursAt(haystack, needle, ignoreCase, i)
    decreases |haystack|
  {
    if |haystack| < |needle| {
      forall i: nat ensures !OccursAt(haystack, needle, ignoreCase, i) {
      }
    } else if Same(haystack[..|needle|], needle, ignoreCase) {
      assert haystack[0..|needle|] == haystack[..|needle|];
      assert OccursAt(haystack, needle, ignoreCase, 0);
    } else {
      var tail := haystack[1..];
      CountPositiveIffOccurs(tail, needle, ignoreCase);
      assert !OccursAt(haystack, needle, ignoreCase, 0) by {
        assert haystack[0..|needle|] == haystack[..|needle|];
      }
      forall i: nat | OccursAt(tail, needle, ignoreCase, i)
        ensures OccursAt(haystack, needle, ignoreCase, i + 1)
      {
        assert tail[i..i + |needle|] == haystack[i + 1..i + 1 + |needle|];
      }
      forall i: nat | OccursAt(haystack, needle, ignoreCase, i)
        ensures OccursAt(tail, needle, ignoreCase, i - 1)
      {
        assert tail[i - 1..i - 1 + |needle|] == haystack[i..i + |needle|];
      }
    }
  }

  /** substr_count (an empty needle is an error in PHP, hence the requires). */
  function SubstrCount(haystack: string, needle: string): nat
    requires needle != []
  {
    CountMatches(haystack, needle, false)
  }

  /** Replace-all, left to right and non-overlapping; text between matches
      is copied from the subject unchanged. An empty search leaves the
      subject as it is. */
  function ReplaceAll(search: string, replace: string, subject: string, ignoreCase: bool): string
    decreases |subject|
  {
    if search == [] || |subject| < |search| then subject
    else if Same(subject[..|search|], search, ignoreCase) then
      replace + ReplaceAll(search, replace, subject[|search|..], ignoreCase)
    else [subject[0]] + ReplaceAll(search, replace, subject[1..], ignoreCase)
  }

  /** str_replace with a single search and replace string. */
  function StrReplace(search: string, replace: string, subject: string): string {
    ReplaceAll(search, replace, subject, false)
  }

  /** str_ireplace with a single search and replace string. */
  function StrIReplace(search: string, replace: string, subject: string): string {
    ReplaceAll(search, replace, subject, true)
  }

  lemma ToLowerSlices(s: string, k: nat)
    requires k <= |s|
    ensures ToLower(s)[..k] == ToLower(s[..k])
    ensures ToLower(s)[k..] == ToLower(s[k..])
  {
    forall i | 0 <= i < k
      ensures ToLower(s)[..k][i] == ToLower(s[..k])[i]
    {
      ToLowerAt(s, i);
      ToLowerAt(s[..k], i);
    }
    forall i | 0 <= i < |s| - k
      ensures ToLower(s)[k..][i] == ToLower(s[k..])[i]
    {
      ToLowerAt(s, k + i);
      ToLowerAt(s[k..], i);
    }
  }

  /** Counting on lower-cased copies (what the scan does in case-insensitive
      mode) counts exactly the case-insensitive matches in the original,
      the same matches str_ireplace replaces. */
  lemma {:induction false} LowerCount(haystack: string, needle: string)
    requires needle != []
    ensures SubstrCount(ToLower(haystack), ToLower(needle)) == CountMatches(haystack, needle, true)
    decreases |haystack|
  {
    var h, n := ToLower(haystack), ToLower(needle);
    if |haystack| >= |needle| {
      ToLowerSlices(haystack, |needle|);
      ToLowerSlices(haystack, 1);
      if h[..|n|] == n {
        LowerCount(haystack[|needle|..], needle);
      } else {
        LowerCount(haystack[1..], needle);
      }
    }
  }

  /** A product of two non-zero integers is non-zero. Kept as a lemma: the
      same fact asserted inside StrReplaceChanges makes that proof far
      costlier. */
  lemma MulNonZero(a: int, b: int)
    requires a != 0 && b != 0
    ensures a * b != 0
  {
  }

  /** Matches do not overlap, so together they fit into the haystack. */
  lemma {:induction false} CountBound(haystack: string, needle: string, ignoreCase: bool)
    requires needle != []
    ensures CountMatches(haystack, needle, ignoreCase) * |needle| <= |haystack|
    decreases |haystack|
  {
    if |haystack| >= |needle| {
      var rest := haystack[|needle|..];
      if Same(haystack[..|needle|], needle, ignoreCase) {
        CountBound(rest, needle, ignoreCase);
        assert (1 + CountMatches(rest, needle, ignoreCase)) * |needle|
            == |needle| + CountMatches(rest, needle, ignoreCase) * |needle|;
      } else {
        CountBound(haystack[1..], needle, ignoreCase);
      }
    }
  }

  /** Replacing changes the length by |replace| - |search| once per counted
      match: replace-all substitutes exactly the matches substr_count counts. */
  lemma {:induction false} ReplaceLength(search: string, replace: string, subject: string, ignoreCase: bool)
    requires search != []
    ensures |ReplaceAll(search, replace, subject, ignoreCase)|
         == |subject| + CountMatches(subject, search, ignoreCase) * (|replace| - |search|)
    decreases |subject|
  {
    if |subject| >= |search| {
      var rest := subject[|search|..];
      if Same(subject[..|search|], search, ignoreCase) {
        ReplaceLength(search, replace, rest, ignoreCase);
        assert (1 + CountMatches(rest, search, ignoreCase)) * (|replace| - |search|)
            == (|replace| - |search|) + CountMatches(rest, search, ignoreCase) * (|replace| - |search|);
      } else {
        ReplaceLength(search, replace, subject[1..], ignoreCase);
      }
    }
  }

  /** Without a match, replace-all returns the subject unchanged. */
  lemma {:induction false} NoMatchUnchanged(search: string, replace: string, subject: string, ignoreCase: bool)
    requires search != []
    requires CountMatches(subject, search, ignoreCase) == 0
    ensures ReplaceAll(search, replace, subject, ignoreCase) == subject
    decreases |subject|
  {
    if |subject| >= |search| {
      NoMatchUnchanged(search, replace, subject[1..], ignoreCase);
      assert subject == [subject[0]] + subject[1..];
    }
  }

  /** Case-sensitive replacement changes the subject exactly when the
      search text occurs and the replacement is a different string. */
  lemma {:induction false} StrReplaceChanges(search: string, replace: string, subject: string)
    requires search != []
    ensures StrReplace(search, replace, subject) != subject
        <==> SubstrCount(subject, search) > 0 && replace != search
    decreases |subject|
  {
    if SubstrCount(subject, search) == 0 {
      NoMatchUnchanged(search, replace, subject, false);
    } else if replace == search {
      SameReplaceUnchanged(search, subject);
    } else if |replace| != |search| {
      ReplaceLength(search, replace, subject, false);
      MulNonZero(SubstrCount(subject, search), |replace| - |search|);
    } else if subject[..|search|] == search {
      var r := StrReplace(search, replace, subject);
      assert r[..|search|] == replace;
    } else {
      StrReplaceChanges(search, replace, subject[1..]);
      assert subject == [subject[0]] + subject[1..];
    }
  }

  /** Case-sensitive replacement of a text by itself is the identity. */
  lemma {:induction false} SameReplaceUnchanged(search: string, subject: string)
    requires search != []
    ensures StrReplace(search, search, subject) == subject
    decreases |subject|
  {
    if |subject| >= |search| {
      if subject[..|search|] == search {
        SameReplaceUnchanged(search, subject[|search|..]);
        assert subject == subject[..|search|] + subject[|search|..];
      } else {
        SameReplaceUnchanged(search, subject[1..]);
        assert subject == [subject[0]] + subject[1..];
      }
    }
  }

  /** Replacement can create new matches, so running it twice is not the
      same as running it once: "aab" with "ab" -> "b" gives "ab". */
  lemma RepeatedReplaceCanMatchAgain()
    ensures StrReplace("ab", "b", "aab") == "ab"
    ensures SubstrCount("ab", "ab") == 1
  {
  }
}
