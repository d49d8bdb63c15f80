/**
 * `extractSkillsFromProfile` (lib/github.ts:228-268): the skill list of a
 * profile, built in an insertion-ordered set from the histogram's language
 * keys, then the vocabulary keywords found in each repository's name and
 * description, then those found in the bio; the first 15 are kept.
 */
module Skills {
  import opened Wrappers
  import opened Text
  import opened OrderedSets
  import opened Numbers
  import opened GitHub
  import opened Histograms

  /** The fixed technology vocabulary, in its order. */
  const TechKeywords: seq<string> := [
    "react", "vue", "angular", "nodejs", "express", "fastapi", "django", "flask",
    "typescript", "javascript", "python", "java", "golang", "rust", "php",
    "docker", "kubernetes", "aws", "gcp", "azure", "terraform", "jenkins",
    "mongodb", "postgresql", "mysql", "redis", "elasticsearch",
    "nextjs", "nuxt", "svelte", "tailwind", "bootstrap", "material-ui",
    "graphql", "rest", "api", "microservices", "serverless"
  ]

  /** At most this many skills are returned. */
  const MaxSkills: nat := 15

  /** `repo.description || ''`. */
  function DescriptionText(d: Option<string>): string
  {
    if d.Some? then d.value else ""
  }

  /** The text a repository is scanned in: `` `${name} ${description || ''}`.toLowerCase() ``. */
  function RepoText(r: Repository): string
  {
    Lower(r.name + " " + DescriptionText(r.description))
  }

  /** `if (bio)`: a bio that is present and not empty. */
  predicate BioPresent(bio: Option<string>)
  {
    bio.Some? && bio.value != ""
  }

  /** The keywords of `kws` that occur in `text`, in the order of `kws`. */
  function Hits(text: string, kws: seq<string>): seq<string>
    decreases |kws|
  {
    if kws == [] then []
    else
      var kw := kws[|kws| - 1];
      Hits(text, kws[..|kws| - 1]) + (if Contains(text, Lower(kw)) then [kw] else [])
  }

  /** The hits of the keywords `kws` in the repositories, repository by repository. */
  function RepoHits(repos: seq<Repository>, kws: seq<string>): seq<string>
    decreases |repos|
  {
    if repos == [] then [] else RepoHits(repos[..|repos| - 1], kws) + Hits(RepoText(repos[|repos| - 1]), kws)
  }

  /** The keyword hits of the bio; none when the bio is absent or empty. */
  function BioHits(bio: Option<string>): seq<string>
  {
    if BioPresent(bio) then Hits(Lower(bio.value), TechKeywords) else []
  }

  /** Everything offered to the set, in the order it is offered. */
  function Offered(repos: seq<Repository>, languages: Histogram, bio: Option<string>): seq<string>
  {
    Keys(languages) + RepoHits(repos, TechKeywords) + BioHits(bio)
  }

  /** The set before the cap: the offered skills without repeats, first occurrences first. */
  function AllSkills(repos: seq<Repository>, languages: Histogram, bio: Option<string>): seq<string>
  {
    Dedup(Offered(repos, languages, bio))
  }

  /** `Array.from(skills).slice(0, 15)`. */
  function SkillList(repos: seq<Repository>, languages: Histogram, bio: Option<string>): seq<string>
  {
    var all := AllSkills(repos, languages, bio);
    all[..Min(MaxSkills, |all|)]
  }

  lemma HitsStep(prefix: seq<string>, text: string, k: nat)
    requires k < |TechKeywords|
    ensures Dedup(prefix + Hits(text, TechKeywords[..k + 1])) ==
      if Contains(text, Lower(TechKeywords[k]))
      then Add(Dedup(prefix + Hits(text, TechKeywords[..k])), TechKeywords[k])
      else Dedup(prefix + Hits(text, TechKeywords[..k]))
  {
    var kw := TechKeywords[k];
    assert TechKeywords[..k + 1][..k] == TechKeywords[..k];
    var h := Hits(text, TechKeywords[..k]);
    if Contains(text, Lower(kw)) {
      assert prefix + (h + [kw]) == (prefix + h) + [kw];
      DedupSnoc(prefix + h, kw);
    } else {
      assert h + [] == h;
    }
  }

  /** Offering one more repository's hits extends the offered sequence by them. */
  lemma RepoHitsStep(keys: seq<string>, repos: seq<Repository>, r: nat)
    requires r < |repos|
    ensures keys + RepoHits(repos[..r + 1], TechKeywords) ==
      keys + RepoHits(repos[..r], TechKeywords) + Hits(RepoText(repos[r]), TechKeywords)
  {
    assert repos[..r + 1][..r] == repos[..r];
  }

  /** The bio's hits are offered after the repositories' hits, when there is a bio. */
  lemma BioStep(seen: seq<string>, bio: Option<string>)
    ensures Dedup(seen + BioHits(bio)) ==
      if BioPresent(bio) then Dedup(seen + Hits(Lower(bio.value), TechKeywords)) else Dedup(seen)
  {
    if !BioPresent(bio) {
      assert seen + BioHits(bio) == seen;
    }
  }

  /** One `techKeywords.forEach`: offers every keyword found in `text` to the set. */
  method AddKeywordHits(found: seq<string>, ghost offered: seq<string>, text: string) returns (result: seq<string>)
    requires found == Dedup(offered)
    ensures result == Dedup(offered + Hits(text, TechKeywords))
  {
    result := found;
    var k := 0;
    assert offered + Hits(text, TechKeywords[..0]) == offered;
    while k < |TechKeywords|
      invariant 0 <= k <= |TechKeywords|
      invariant result == Dedup(offered + Hits(text, TechKeywords[..k]))
    {
      var keyword := TechKeywords[k];
      HitsStep(offered, text, k);
      if Contains(text, Lower(keyword)) {
        result := Add(result, keyword);
      }
      k := k + 1;
    }
    assert TechKeywords[..k] == TechKeywords;
  }

  /** `Object.keys(profile.languages).forEach(lang => skills.add(lang))`, into an empty set. */
  method AddLanguages(keys: seq<string>) returns (found: seq<string>)
    ensures found == Dedup(keys)
  {
    found := [];
    var i := 0;
    while i < |keys|
      invariant 0 <= i <= |keys|
      invariant found == Dedup(keys[..i])
    {
      assert keys[..i + 1] == keys[..i] + [keys[i]];
      DedupSnoc(keys[..i], keys[i]);
      found := Add(found, keys[i]);
      i := i + 1;
    }
    assert keys[..i] == keys;
  }

  /**
   * lib/github.ts:228-268, as written: a set filled by nested loops, then
   * cut to 15 entries. The result is the specification's list, so it has at
   * most 15 entries and no repeats.
   */
  method ExtractSkills(repositories: seq<Repository>, languages: Histogram, bio: Option<string>)
    returns (skills: seq<string>)
    ensures skills == SkillList(repositories, languages, bio)
    ensures |skills| <= MaxSkills && NoDup(skills)
  {
    var keys := Keys(languages);
    var found := AddLanguages(keys);
    assert keys == keys + RepoHits(repositories[..0], TechKeywords);
    var r := 0;
    while r < |repositories|
      invariant 0 <= r <= |repositories|
      invariant found == Dedup(keys + RepoHits(repositories[..r], TechKeywords))
    {
      found := AddKeywordHits(found, keys + RepoHits(repositories[..r], TechKeywords), RepoText(repositories[r]));
      RepoHitsStep(keys, repositories, r);
      r := r + 1;
    }
    assert repositories[..r] == repositories;
    var seen := keys + RepoHits(repositories, TechKeywords);
    if BioPresent(bio) {
      found := AddKeywordHits(found, seen, Lower(bio.value));
    }
    BioStep(seen, bio);
    assert found == AllSkills(repositories, languages, bio);
    skills := found[..Min(MaxSkills, |found|)];
    SkillListBounded(repositories, languages, bio);
  }

  /** lib/github.ts:233, 267. At most 15 skills, none repeated (exact string comparison). */
  lemma SkillListBounded(repos: seq<Repository>, languages: Histogram, bio: Option<string>)
    ensures |SkillList(repos, languages, bio)| <= MaxSkills
    ensures NoDup(SkillList(repos, languages, bio))
  {
    var all := AllSkills(repos, languages, bio);
    DedupNoDup(Offered(repos, languages, bio));
    var m := Min(MaxSkills, |all|);
    forall i, j | 0 <= i < j < m ensures all[..m][i] != all[..m][j] {
      assert all[..m][i] == all[i] && all[..m][j] == all[j];
    }
  }

  /** The histogram's languages are the beginning of the uncapped skill list. */
  lemma KeysLeadAllSkills(repos: seq<Repository>, languages: Histogram, bio: Option<string>)
    requires Valid(languages)
    ensures Keys(languages) <= AllSkills(repos, languages, bio)
  {
    var keys := Keys(languages);
    var rest := RepoHits(repos, TechKeywords) + BioHits(bio);
    assert Offered(repos, languages, bio) == keys + rest;
    ValidKeys(languages);
    DedupOfNoDup(keys);
    DedupPrefix(keys, rest);
  }

  /**
   * lib/github.ts:236, 267. The histogram's languages come first, in key
   * order; with at most 15 languages every language is a skill.
   */
  lemma LanguagesFirst(repos: seq<Repository>, languages: Histogram, bio: Option<string>)
    requires Valid(languages)
    ensures var n := Min(MaxSkills, |languages|);
      |SkillList(repos, languages, bio)| >= n &&
      SkillList(repos, languages, bio)[..n] == Keys(languages)[..n]
    ensures |languages| <= MaxSkills ==> forall k :: k in Keys(languages) ==> k in SkillList(repos, languages, bio)
  {
    var keys := Keys(languages);
    var all := AllSkills(repos, languages, bio);
    var list := SkillList(repos, languages, bio);
    KeysLeadAllSkills(repos, languages, bio);
    var n := Min(MaxSkills, |languages|);
    assert |keys| == |languages|;
    assert list == all[..Min(MaxSkills, |all|)];
    assert list[..n] == keys[..n];
    if |languages| <= MaxSkills {
      assert keys <= list;
      forall k | k in keys ensures k in list {
        var a :| 0 <= a < |keys| && keys[a] == k;
        assert list[a] == k;
      }
    }
  }

  lemma {:induction false} HitsMembers(text: string, kws: seq<string>)
    ensures forall x :: x in Hits(text, kws) <==> x in kws && Contains(text, Lower(x))
    decreases |kws|
  {
    if kws != [] {
      var n := |kws| - 1;
      HitsMembers(text, kws[..n]);
      assert kws == kws[..n] + [kws[n]];
    }
  }

  /** Some repository's text contains `p`. */
  predicate FoundInRepos(repos: seq<Repository>, p: string)
  {
    exists i :: 0 <= i < |repos| && Contains(RepoText(repos[i]), p)
  }

  lemma FoundInReposSnoc(repos: seq<Repository>, p: string)
    requires repos != []
    ensures FoundInRepos(repos, p) <==>
      FoundInRepos(repos[..|repos| - 1], p) || Contains(RepoText(repos[|repos| - 1]), p)
  {
    var n := |repos| - 1;
    if i :| 0 <= i < |repos| && Contains(RepoText(repos[i]), p) {
      if i < n {
        assert repos[..n][i] == repos[i];
      }
    }
    if i :| 0 <= i < n && Contains(RepoText(repos[..n][i]), p) {
      assert repos[..n][i] == repos[i];
    }
  }

  lemma {:induction false} RepoHitsMembers(repos: seq<Repository>, kws: seq<string>)
    ensures forall x :: x in RepoHits(repos, kws) <==> x in kws && FoundInRepos(repos, Lower(x))
    decreases |repos|
  {
    if repos != [] {
      var n := |repos| - 1;
      RepoHitsMembers(repos[..n], kws);
      HitsMembers(RepoText(repos[n]), kws);
      forall x ensures FoundInRepos(repos, Lower(x)) <==>
        FoundInRepos(repos[..n], Lower(x)) || Contains(RepoText(repos[n]), Lower(x))
      {
        FoundInReposSnoc(repos, Lower(x));
      }
    }
  }

  /**
   * lib/github.ts:236, 248-264. Before the cap, a string is a skill exactly
   * when it is a language of the histogram, or a vocabulary keyword that
   * occurs in some repository's lower-cased "name description" or in the
   * lower-cased bio (when there is a non-empty bio).
   */
  lemma SkillMembership(repos: seq<Repository>, languages: Histogram, bio: Option<string>)
    ensures forall x :: x in AllSkills(repos, languages, bio) <==>
      x in Keys(languages) ||
      (x in TechKeywords &&
        (FoundInRepos(repos, Lower(x)) ||
         (BioPresent(bio) && Contains(Lower(bio.value), Lower(x)))))
  {
    DedupMembers(Offered(repos, languages, bio));
    RepoHitsMembers(repos, TechKeywords);
    if BioPresent(bio) {
      HitsMembers(Lower(bio.value), TechKeywords);
    }
  }

  /**
   * With no repositories and no bio the skills are the histogram's languages,
   * in key order, up to 15.
   */
  lemma OnlyLanguages(languages: Histogram)
    requires Valid(languages)
    ensures SkillList([], languages, None) == Keys(languages)[..Min(MaxSkills, |languages|)]
  {
    assert Offered([], languages, None) == Keys(languages);
    ValidKeys(languages);
    DedupOfNoDup(Keys(languages));
  }

  /** A keyword found in some repository's text is a skill before the cap. */
  lemma RepoKeywordIsSkill(repos: seq<Repository>, languages: Histogram, bio: Option<string>, k: nat, i: nat)
    requires k < |TechKeywords| && i < |repos| && Contains(RepoText(repos[i]), Lower(TechKeywords[k]))
    ensures TechKeywords[k] in AllSkills(repos, languages, bio)
  {
    var kw := TechKeywords[k];
    assert FoundInRepos(repos, Lower(kw));
    RepoHitsMembers(repos, TechKeywords);
    assert kw in Offered(repos, languages, bio);
    DedupMembers(Offered(repos, languages, bio));
  }

  /** Every language of the histogram is a skill before the cap. */
  lemma KeyIsSkill(repos: seq<Repository>, languages: Histogram, bio: Option<string>, k: string)
    requires k in Keys(languages)
    ensures k in AllSkills(repos, languages, bio)
  {
    assert k in Offered(repos, languages, bio);
    DedupMembers(Offered(repos, languages, bio));
  }

  /**
   * lib/github.ts:233-236, 252. Deduplication is case-sensitive: when the
   * histogram has the key "TypeScript" and a repository's text contains
   * "typescript", both strings are skills.
   */
  lemma CaseSensitiveDuplicates(repos: seq<Repository>, languages: Histogram, bio: Option<string>, i: nat)
    requires i < |repos| && Contains(RepoText(repos[i]), "typescript")
    requires "TypeScript" in Keys(languages)
    ensures "TypeScript" in AllSkills(repos, languages, bio)
    ensures "typescript" in AllSkills(repos, languages, bio)
    ensures "TypeScript" != "typescript"
  {
    assert TechKeywords[8] == "typescript";
    assert Lower(TechKeywords[8]) == "typescript";
    RepoKeywordIsSkill(repos, languages, bio, 8, i);
    KeyIsSkill(repos, languages, bio, "TypeScript");
  }

  /**
   * lib/github.ts:251. Matching is by substring: a repository whose text
   * contains "javascript" yields both "javascript" and "java".
   */
  lemma SubstringHits(repos: seq<Repository>, languages: Histogram, bio: Option<string>, i: nat)
    requires i < |repos| && Contains(RepoText(repos[i]), "javascript")
    ensures "javascript" in AllSkills(repos, languages, bio)
    ensures "java" in AllSkills(repos, languages, bio)
  {
    assert Lower("javascript") == "javascript";
    assert Lower("java") == "java";
    assert TechKeywords[9] == "javascript" && TechKeywords[11] == "java";
    ContainsPrefixOfPattern(RepoText(repos[i]), "javascript", "java");
    RepoKeywordIsSkill(repos, languages, bio, 9, i);
    RepoKeywordIsSkill(repos, languages, bio, 11, i);
  }
}
