/**
 * The string operations the source relies on: `toLowerCase`, `startsWith`
 * and `includes`. Strings are sequences of characters; lower-casing is
 * modelled for the ASCII letters only.
 */
module Text {

  /** `toLowerCase` on one character (ASCII letters only). */
  function LowerChar(c: char): char
  {
    if 'A' <= c <= 'Z' then (c as int + 32) as char else c
  }

  /** `toLowerCase` on a string: the same length, every character lowered. */
  function Lower(s: string): (r: string)
    ensures |r| == |s|
    ensures forall i :: 0 <= i < |s| ==> r[i] == LowerChar(s[i])
  {
    seq(|s|, i requires 0 <= i < |s| => LowerChar(s[i]))
  }

  /** Two characters that are equal, or the same ASCII letter in the two cases. */
  predicate SameUpToCase(a: char, b: char)
  {
    a == b ||
    ('A' <= a <= 'Z' && b == (a as int + 32) as char) ||
    ('A' <= b <= 'Z' && a == (b as int + 32) as char)
  }

  /** Lower-casing makes two characters equal exactly when they differ at most in letter case. */
  lemma LowerCharIgnoresCase(a: char, b: char)
    ensures LowerChar(a) == LowerChar(b) <==> SameUpToCase(a, b)
  {
  }

  /**
   * Lower-casing makes two strings equal exactly when they have the same
   * length and differ at most in the case of their letters.
   */
  lemma LowerIgnoresCase(s: string, t: string)
    ensures Lower(s) == Lower(t) <==>
      |s| == |t| && forall i :: 0 <= i < |s| ==> SameUpToCase(s[i], t[i])
  {
    if |s| == |t| {
      forall i | 0 <= i < |s| ensures LowerChar(s[i]) == LowerChar(t[i]) <==> SameUpToCase(s[i], t[i]) {
        LowerCharIgnoresCase(s[i], t[i]);
      }
      if Lower(s) != Lower(t) {
        var i :| 0 <= i < |s| && Lower(s)[i] != Lower(t)[i];
        assert !SameUpToCase(s[i], t[i]);
      }
    }
  }

  /** `text.startsWith(p)`. */
  predicate StartsWith(text: string, p: string)
  {
    p <= text
  }

  /** `text.includes(p)`: `p` occurs in `text` at some offset (the empty pattern everywhere). */
  predicate Contains(text: string, p: string)
    decreases |text|
  {
    StartsWith(text, p) || (|text| > 0 && Contains(text[1..], p))
  }

  /** An occurrence at offset `i` is found by `Contains`. */
  lemma {:induction false} ContainsAt(text: string, p: string, i: nat)
    requires i + |p| <= |text| && text[i..i + |p|] == p
    ensures Contains(text, p)
    decreases i
  {
    if i == 0 {
      assert text[..|p|] == p;
    } else {
      assert text[1..][i - 1..i - 1 + |p|] == text[i..i + |p|];
      ContainsAt(text[1..], p, i - 1);
    }
  }

  /** `p` occurs in `text` starting at offset `i`. */
  predicate OccursAt(text: string, p: string, i: int)
  {
    0 <= i && i + |p| <= |text| && text[i..i + |p|] == p
  }

  /** `startsWith` holds exactly when the pattern occurs at offset 0, character by character. */
  lemma StartsWithIff(text: string, p: string)
    ensures StartsWith(text, p) <==> OccursAt(text, p, 0)
    ensures StartsWith(text, p) <==> |p| <= |text| && forall k :: 0 <= k < |p| ==> text[k] == p[k]
  {
    if |p| <= |text| {
      assert text[0..|p|] == text[..|p|];
    }
  }

  /** `includes` holds exactly when the pattern occurs at some offset. */
  lemma {:induction false} ContainsIff(text: string, p: string)
    ensures Contains(text, p) <==> exists i :: OccursAt(text, p, i)
    decreases |text|
  {
    if Contains(text, p) {
      if StartsWith(text, p) {
        assert text[0..|p|] == p;
        assert OccursAt(text, p, 0);
      } else {
        ContainsIff(text[1..], p);
        var i :| OccursAt(text[1..], p, i);
        assert text[1..][i..i + |p|] == text[i + 1..i + 1 + |p|];
        assert OccursAt(text, p, i + 1);
      }
    }
    if exists i :: OccursAt(text, p, i) {
      var i :| OccursAt(text, p, i);
      ContainsAt(text, p, i);
    }
  }

  /** Every character of a pattern that `Contains` finds occurs in the text. */
  lemma {:induction false} ContainedCharsOccur(text: string, p: string, k: nat)
    requires Contains(text, p) && k < |p|
    ensures p[k] in text
    decreases |text|
  {
    if StartsWith(text, p) {
      assert text[k] == p[k];
    } else {
      ContainedCharsOccur(text[1..], p, k);
      assert text[1..] <= text[1..];
    }
  }

  /** A pattern longer than the text is never found. */
  lemma {:induction false} ContainsNoLonger(text: string, p: string)
    requires Contains(text, p)
    ensures |p| <= |text|
    decreases |text|
  {
    if !StartsWith(text, p) {
      ContainsNoLonger(text[1..], p);
    }
  }

  /** Whatever contains a pattern contains every prefix of it. */
  lemma {:induction false} ContainsPrefixOfPattern(text: string, p: string, q: string)
    requires Contains(text, p) && q <= p
    ensures Contains(text, q)
    decreases |text|
  {
    if !StartsWith(text, p) {
      ContainsPrefixOfPattern(text[1..], p, q);
    }
  }

  /** A pattern holding a character the text lacks is not found. */
  lemma MissingCharNotContained(text: string, p: string, k: nat)
    requires k < |p| && p[k] !in text
    ensures !Contains(text, p)
  {
    if Contains(text, p) {
      ContainedCharsOccur(text, p, k);
    }
  }

  /** A pattern longer than the text is not found. */
  lemma LongerNotContained(text: string, p: string)
    requires |p| > |text|
    ensures !Contains(text, p)
  {
    if Contains(text, p) {
      ContainsNoLonger(text, p);
    }
  }
}
