/**
 * The pure helpers of lib/utils.ts: the compatibility score
 * (`calculateCompatibilityScore`), the colour band of a score and text
 * truncation. Numbers are exact reals;
 * `Math.round` is `Round` of module Numbers.
 */
module Utils {
  import opened Text
  import opened Numbers

  // ---------------------------------------------------------------------
  // calculateCompatibilityScore (lib/utils.ts:41-58)

  /** A user skill and a required skill match when either, lower-cased, contains the other. */
  predicate SkillsMatch(req: string, skill: string)
  {
    Contains(Lower(req), Lower(skill)) || Contains(Lower(skill), Lower(req))
  }

  /** `requiredSkills.some(req => ...)`: `skill` matches some required skill. */
  predicate MatchesSome(skill: string, required: seq<string>)
    decreases |required|
  {
    required != [] && (SkillsMatch(required[0], skill) || MatchesSome(skill, required[1..]))
  }

  /** `userSkills.filter(...).length`: how many user skills match some required skill. */
  function MatchCount(userSkills: seq<string>, required: seq<string>): (n: nat)
    ensures n <= |userSkills|
    decreases |userSkills|
  {
    if userSkills == [] then 0
    else
      var last := userSkills[|userSkills| - 1];
      MatchCount(userSkills[..|userSkills| - 1], required) + (if MatchesSome(last, required) then 1 else 0)
  }

  /**
   * The skills term, `Math.min(skillsMatch / requiredSkills.length * 100, 100)`:
   * between 0 and 100, and 100 exactly when at least as many user skills
   * match as there are required skills.
   */
  function SkillsScore(userSkills: seq<string>, required: seq<string>): (s: real)
    requires |required| > 0
    ensures 0.0 <= s <= 100.0
    ensures s == 100.0 <==> MatchCount(userSkills, required) >= |required|
  {
    var count := MatchCount(userSkills, required) as real;
    var len := |required| as real;
    Quotient(count, len);
    MinReal(count / len * 100.0, 100.0)
  }

  /**
   * The experience term, `Math.min(userExperience / requiredExperience * 100, 100)`.
   * A zero requirement with positive experience divides to +Infinity, so the
   * term is 100. It is at most 100, not negative for non-negative inputs, and
   * 100 exactly when the experience meets a positive requirement.
   */
  function ExperienceScore(userExperience: real, requiredExperience: real): (s: real)
    requires requiredExperience != 0.0 || userExperience > 0.0
    ensures s <= 100.0
    ensures userExperience >= 0.0 && requiredExperience >= 0.0 ==> s >= 0.0
    ensures requiredExperience > 0.0 ==> (s == 100.0 <==> userExperience >= requiredExperience)
  {
    if requiredExperience == 0.0 then 100.0
    else
      Quotient(userExperience, requiredExperience);
      MinReal(userExperience / requiredExperience * 100.0, 100.0)
  }

  /**
   * The number `calculateCompatibilityScore` returns: an integer, or one of
   * the two non-finite values its arithmetic can reach.
   */
  datatype Score = Finite(value: int) | NaN | NegativeInfinity

  /**
   * `calculateCompatibilityScore`: 60% skills, 40% experience, rounded.
   * Nothing guards the divisions: with no required skills the skills term
   * is 0/0, so the score is NaN; with no required experience the experience
   * term is 0/0 (NaN) for no experience and -Infinity for a negative one.
   * Every other input gives an integer, within 0..100 when both experience
   * figures are non-negative.
   */
  function CompatibilityScore(
    userSkills: seq<string>,
    requiredSkills: seq<string>,
    userExperience: real,
    requiredExperience: real): (score: Score)
    ensures score == NaN <==>
      |requiredSkills| == 0 || (requiredExperience == 0.0 && userExperience == 0.0)
    ensures score == NegativeInfinity <==>
      |requiredSkills| > 0 && requiredExperience == 0.0 && userExperience < 0.0
    ensures score.Finite? && userExperience >= 0.0 && requiredExperience >= 0.0 ==>
      0 <= score.value <= 100
  {
    if |requiredSkills| == 0 || (requiredExperience == 0.0 && userExperience == 0.0) then NaN
    else if requiredExperience == 0.0 && userExperience < 0.0 then NegativeInfinity
    else
      Finite(Round(SkillsScore(userSkills, requiredSkills) * 0.6 +
                   ExperienceScore(userExperience, requiredExperience) * 0.4))
  }

  /** Lower-cases every string of a list. */
  function LowerAll(ss: seq<string>): (r: seq<string>)
    ensures |r| == |ss|
    ensures forall i :: 0 <= i < |ss| ==> r[i] == Lower(ss[i])
  {
    seq(|ss|, i requires 0 <= i < |ss| => Lower(ss[i]))
  }

  lemma {:induction false} MatchesSomeIgnoresCase(s1: string, s2: string, r1: seq<string>, r2: seq<string>)
    requires Lower(s1) == Lower(s2) && LowerAll(r1) == LowerAll(r2)
    ensures MatchesSome(s1, r1) == MatchesSome(s2, r2)
    decreases |r1|
  {
    if r1 != [] {
      assert Lower(r1[0]) == LowerAll(r1)[0] == LowerAll(r2)[0] == Lower(r2[0]);
      assert LowerAll(r1[1..]) == LowerAll(r1)[1..];
      assert LowerAll(r2[1..]) == LowerAll(r2)[1..];
      MatchesSomeIgnoresCase(s1, s2, r1[1..], r2[1..]);
    }
  }

  lemma {:induction false} MatchCountIgnoresCase(u1: seq<string>, u2: seq<string>, r1: seq<string>, r2: seq<string>)
    requires LowerAll(u1) == LowerAll(u2) && LowerAll(r1) == LowerAll(r2)
    ensures MatchCount(u1, r1) == MatchCount(u2, r2)
    decreases |u1|
  {
    if u1 != [] {
      var n := |u1| - 1;
      assert LowerAll(u1[..n]) == LowerAll(u1)[..n];
      assert LowerAll(u2[..n]) == LowerAll(u2)[..n];
      MatchCountIgnoresCase(u1[..n], u2[..n], r1, r2);
      assert Lower(u1[n]) == LowerAll(u1)[n] == LowerAll(u2)[n] == Lower(u2[n]);
      MatchesSomeIgnoresCase(u1[n], u2[n], r1, r2);
    }
  }

  /**
   * lib/utils.ts:48-51. Changing the letter case of any user or required
   * skill leaves the score unchanged.
   */
  lemma ScoreIgnoresCase(u1: seq<string>, u2: seq<string>, r1: seq<string>, r2: seq<string>,
                         userExperience: real, requiredExperience: real)
    requires LowerAll(u1) == LowerAll(u2) && LowerAll(r1) == LowerAll(r2)
    ensures CompatibilityScore(u1, r1, userExperience, requiredExperience) ==
            CompatibilityScore(u2, r2, userExperience, requiredExperience)
  {
    assert |r1| == |LowerAll(r1)| == |LowerAll(r2)| == |r2|;
    MatchCountIgnoresCase(u1, u2, r1, r2);
  }

  /** Two lists of skills that differ at most in the case of letters, skill by skill. */
  predicate CaseVariants(ss: seq<string>, tt: seq<string>)
  {
    |ss| == |tt| &&
    forall i :: 0 <= i < |ss| ==>
      |ss[i]| == |tt[i]| && forall j :: 0 <= j < |ss[i]| ==> SameUpToCase(ss[i][j], tt[i][j])
  }

  /** Lower-casing makes two skill lists equal exactly when they are case variants. */
  lemma LowerAllIgnoresCase(ss: seq<string>, tt: seq<string>)
    ensures LowerAll(ss) == LowerAll(tt) <==> CaseVariants(ss, tt)
  {
    if |ss| == |tt| {
      forall i | 0 <= i < |ss|
        ensures Lower(ss[i]) == Lower(tt[i]) <==>
          |ss[i]| == |tt[i]| && forall j :: 0 <= j < |ss[i]| ==> SameUpToCase(ss[i][j], tt[i][j])
      {
        LowerIgnoresCase(ss[i], tt[i]);
      }
      if LowerAll(ss) != LowerAll(tt) {
        var i :| 0 <= i < |ss| && LowerAll(ss)[i] != LowerAll(tt)[i];
        assert Lower(ss[i]) != Lower(tt[i]);
      }
    }
  }

  /**
   * lib/utils.ts:48-50. Upper- or lower-casing any letters of any user or
   * required skill leaves the score unchanged.
   */
  lemma ScoreIgnoresLetterCase(u1: seq<string>, u2: seq<string>, r1: seq<string>, r2: seq<string>,
                               userExperience: real, requiredExperience: real)
    requires CaseVariants(u1, u2) && CaseVariants(r1, r2)
    ensures CompatibilityScore(u1, r1, userExperience, requiredExperience) ==
            CompatibilityScore(u2, r2, userExperience, requiredExperience)
  {
    LowerAllIgnoresCase(u1, u2);
    LowerAllIgnoresCase(r1, r2);
    ScoreIgnoresCase(u1, u2, r1, r2, userExperience, requiredExperience);
  }

  lemma {:induction false} MatchCountAppend(a: seq<string>, b: seq<string>, required: seq<string>)
    ensures MatchCount(a + b, required) == MatchCount(a, required) + MatchCount(b, required)
    decreases |b|
  {
    if b == [] {
      assert a + b == a;
    } else {
      var n := |b| - 1;
      var ab := a + b;
      MatchCountAppend(a, b[..n], required);
      assert ab[..|ab| - 1] == a + b[..n];
      assert ab[|ab| - 1] == b[n];
      assert MatchCount(ab, required) == MatchCount(a + b[..n], required) + MatchCount([b[n]], required) by {
        assert [b[n]][..0] == [];
      }
    }
  }

  /**
   * lib/utils.ts:48-57. Adding a skill anywhere in the user's list never
   * lowers the score: the match count can only grow.
   */
  lemma AddingSkillNeverLowers(userSkills: seq<string>, i: nat, skill: string, required: seq<string>,
                               userExperience: real, requiredExperience: real)
    requires i <= |userSkills|
    requires |required| > 0
    requires requiredExperience != 0.0 || userExperience > 0.0
    ensures CompatibilityScore(userSkills, required, userExperience, requiredExperience).Finite?
    ensures CompatibilityScore(userSkills[..i] + [skill] + userSkills[i..], required, userExperience, requiredExperience).value >=
            CompatibilityScore(userSkills, required, userExperience, requiredExperience).value
  {
    var longer := userSkills[..i] + [skill] + userSkills[i..];
    MatchCountAppend(userSkills[..i] + [skill], userSkills[i..], required);
    MatchCountAppend(userSkills[..i], [skill], required);
    MatchCountAppend(userSkills[..i], userSkills[i..], required);
    assert userSkills[..i] + userSkills[i..] == userSkills;
    var c1 := MatchCount(userSkills, required) as real;
    var c2 := MatchCount(longer, required) as real;
    var len := |required| as real;
    assert c1 <= c2;
    QuotientMonotone(c1, c2, len);
    var e := ExperienceScore(userExperience, requiredExperience);
    var x1 := SkillsScore(userSkills, required) * 0.6 + e * 0.4;
    var x2 := SkillsScore(longer, required) * 0.6 + e * 0.4;
    assert x1 <= x2;
  }

  /**
   * lib/utils.ts:48-52. Matches are counted over the user's skills, so the
   * count can exceed the number of required skills; the skills term is still
   * capped at 100.
   */
  lemma CountCanExceedRequired()
    ensures MatchCount(["react", "reactjs"], ["React"]) == 2
    ensures SkillsScore(["react", "reactjs"], ["React"]) == 100.0
  {
    assert Lower("React") == "react";
    assert Lower("reactjs") == "reactjs";
    assert Lower("react") == "react";
    assert Contains("react", "react");
    ContainsAt("reactjs", "react", 0);
    assert SkillsMatch("React", "react");
    assert SkillsMatch("React", "reactjs");
    assert MatchesSome("react", ["React"]);
    assert MatchesSome("reactjs", ["React"]);
    assert ["react", "reactjs"][..1] == ["react"];
    assert ["react"][..0] == [];
  }

  /** "React" matches the user skill "react". */
  lemma ReactMatchesReact()
    ensures SkillsMatch("React", "react")
  {
    assert Lower("React") == "react" && Lower("react") == "react";
  }

  /** "Node" matches the user skill "node.js", as a substring of it. */
  lemma NodeMatchesNodeJs()
    ensures SkillsMatch("Node", "node.js")
  {
    assert Lower("Node") == "node" && Lower("node.js") == "node.js";
    ContainsAt("node.js", "node", 0);
  }

  /** No required skill of the example matches "typescript". */
  lemma NothingMatchesTypeScript(req: string)
    requires req in ["React", "Node", "AWS"]
    ensures !SkillsMatch(req, "typescript")
  {
    var t := "typescript";
    assert Lower(t) == t;
    var r := Lower(req);
    LongerNotContained(r, t);
    if r == "react" {
      MissingCharNotContained(t, r, 2);
    } else {
      assert r == "node" || r == "aws";
      MissingCharNotContained(t, r, 0);
    }
  }

  /**
   * An example of the score (lib/utils.ts:48-57): ["react", "node.js", "typescript"]
   * against ["React", "Node", "AWS"] with 5 years of 5 required. "react" and
   * "node.js" match by substring, "typescript" matches nothing, so the
   * skills term is 200/3, the experience term 100, and the score 80.
   */
  lemma WorkedExample(user: seq<string>, required: seq<string>)
    requires user == ["react", "node.js", "typescript"]
    requires required == ["React", "Node", "AWS"]
    ensures MatchCount(user, required) == 2
    ensures CompatibilityScore(user, required, 5.0, 5.0) == Finite(80)
  {
    ExampleMatchCount(user, required);
    ExampleScore(user, required);
  }

  /** The example's count: "react" and "node.js" match, "typescript" does not. */
  lemma ExampleMatchCount(user: seq<string>, required: seq<string>)
    requires user == ["react", "node.js", "typescript"]
    requires required == ["React", "Node", "AWS"]
    ensures MatchCount(user, required) == 2
  {
    ReactMatchesReact();
    assert MatchesSome(user[0], required);
    NodeMatchesNodeJs();
    assert MatchesSome(user[1], required[1..]);
    assert MatchesSome(user[1], required);
    forall req | req in required
      ensures !SkillsMatch(req, user[2])
    {
      NothingMatchesTypeScript(req);
    }
    NoneMatches(user[2], required);
    assert user[..2][..1][..0] == [];
    assert user[..2][..1] == [user[0]];
    assert user[..2] == [user[0], user[1]];
    assert MatchCount(user[..2][..1], required) == 1;
    assert MatchCount(user[..2], required) == 2;
  }

  /** A skill that matches none of the required skills is not counted by `some`. */
  lemma {:induction false} NoneMatches(skill: string, required: seq<string>)
    requires forall req | req in required :: !SkillsMatch(req, skill)
    ensures !MatchesSome(skill, required)
    decreases |required|
  {
    if required != [] {
      assert required[0] in required;
      NoneMatches(skill, required[1..]);
    }
  }

  /** With two of three skills matched and the experience met, the score is 80. */
  lemma ExampleScore(user: seq<string>, required: seq<string>)
    requires |required| == 3 && MatchCount(user, required) == 2
    ensures CompatibilityScore(user, required, 5.0, 5.0) == Finite(80)
  {
    var skills := SkillsScore(user, required);
    assert skills == 200.0 / 3.0;
    assert ExperienceScore(5.0, 5.0) == 100.0;
    assert skills * 0.6 + 100.0 * 0.4 == 80.0;
  }

  // ---------------------------------------------------------------------
  // getScoreColor (lib/utils.ts:23-28)

  const Green: string := "#10b981"
  const Amber: string := "#f59e0b"
  const Blue: string := "#3b82f6"
  const Gray: string := "#6b7280"

  /** The colour band of a score: 90 and up, 80 to 90, 70 to 80, below 70. */
  function ScoreColor(score: real): (c: string)
    ensures c == Green <==> score >= 90.0
    ensures c == Amber <==> 80.0 <= score < 90.0
    ensures c == Blue <==> 70.0 <= score < 80.0
    ensures c == Gray <==> score < 70.0
  {
    if score >= 90.0 then Green
    else if score >= 80.0 then Amber
    else if score >= 70.0 then Blue
    else Gray
  }

  // ---------------------------------------------------------------------
  // truncateText (lib/utils.ts:18-21)

  /**
   * `truncateText`: a text within `maxLength` is returned as it is; a longer
   * one is cut to its first `maxLength` characters (none for a negative
   * `maxLength`, as `substring` clamps) followed by "...".
   */
  function TruncateText(text: string, maxLength: int): (r: string)
    ensures |text| <= maxLength ==> r == text
    ensures |text| > maxLength ==>
      |r| == Max(0, maxLength) + 3 && r[..|r| - 3] <= text && r[|r| - 3..] == "..."
  {
    if |text| <= maxLength then text else text[..Max(0, maxLength)] + "..."
  }
}
