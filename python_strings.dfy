/**
  Python's containment test on strings, `needle in haystack`: true when
  `needle` appears as a contiguous run of characters somewhere in
  `haystack`. `In` is the executable form used by the model's code;
  `Occurs` is the reference definition (an index where a slice equals the
  needle), and `InIffOccurs` proves the two agree.
 */
module PyStrings {

  /** `needle` starts at index `i` of `haystack`. */
  ghost predicate OccursAt(needle: string, haystack: string, i: int) {
    0 <= i && i + |needle| <= |haystack| && haystack[i..i + |needle|] == needle
  }

  /** Reference meaning of `needle in haystack`: some index where it starts. */
  ghost predicate Occurs(needle: string, haystack: string) {
    exists i :: OccursAt(needle, haystack, i)
  }

  /** Executable `needle in haystack`: try every start position from the left. */
  function In(needle: string, haystack: string): bool
    decreases |haystack|
  {
    if |haystack| < |needle| then false
    else haystack[..|needle|] == needle || In(needle, haystack[1..])
  }

  /** An occurrence in the tail of a string is an occurrence one further on in the whole string, and back. */
  lemma OccursAtShift(needle: string, haystack: string, i: int)
    requires |haystack| > 0 && 0 <= i
    ensures OccursAt(needle, haystack[1..], i) <==> OccursAt(needle, haystack, i + 1)
  {
  }

  /** The executable test and the reference definition agree on every input. */
  lemma {:induction false} InIffOccurs(needle: string, haystack: string)
    ensures In(needle, haystack) <==> Occurs(needle, haystack)
    decreases |haystack|
  {
    if |haystack| < |needle| {
      assert forall i :: !OccursAt(needle, haystack, i);
    } else if haystack[..|needle|] == needle {
      assert OccursAt(needle, haystack, 0);
    } else {
      InIffOccurs(needle, haystack[1..]);
      if In(needle, haystack[1..]) {
        var j :| OccursAt(needle, haystack[1..], j);
        OccursAtShift(needle, haystack, j);
      } else {
        forall i | OccursAt(needle, haystack, i)
          ensures false
        {
          if i != 0 {
            OccursAtShift(needle, haystack, i - 1);
          }
        }
      }
    }
  }

  /** Text before and after the needle does not hide it: the test is containment, not equality. */
  lemma OccursWithSurroundingText(needle: string, before: string, after: string)
    ensures Occurs(needle, before + needle + after)
  {
    var s := before + needle + after;
    assert s[|before|..|before| + |needle|] == needle;
    assert OccursAt(needle, s, |before|);
  }

  /** A string shorter than the needle never contains it, so neither does a proper prefix or suffix of it. */
  lemma ShorterNeverContains(needle: string, haystack: string)
    requires |haystack| < |needle|
    ensures !Occurs(needle, haystack)
  {
  }
}
