/**
 * The computation inside `getUserProfile` (lib/github.ts:164-226) once the
 * remote calls have answered: the 20-repository sample whose histograms are
 * merged, the star and fork totals, the primary languages, the experience
 * estimate, the recent-activity flag and the skills.
 */
module Profiles {
  import opened Wrappers
  import opened Numbers
  import opened OrderedSets
  import opened GitHub
  import opened Histograms
  import opened Skills

  /** Only the first 20 repositories have their languages fetched. */
  const SampleSize: nat := 20

  /** Experience estimates are clamped to 1..15 years. */
  const MinExperienceYears: int := 1
  const MaxExperienceYears: int := 15

  /** 30 days in milliseconds. */
  const ActivityWindowMs: int := 30 * 24 * 60 * 60 * 1000

  datatype Profile = Profile(
    user: User,
    repositories: seq<Repository>,
    languages: Histogram,
    totalStars: nat,
    totalForks: nat,
    primaryLanguages: seq<string>,
    recentActivity: bool,
    experienceYears: int,
    skills: seq<string>,
    readme: Option<string>)

  /** `repositories.slice(0, 20)`. */
  function Sample(repos: seq<Repository>): (s: seq<Repository>)
    ensures s <= repos
    ensures |s| <= SampleSize
    ensures |repos| <= SampleSize ==> s == repos
    ensures |repos| > SampleSize ==> |s| == SampleSize
  {
    repos[..Min(SampleSize, |repos|)]
  }

  /** `repositories.reduce((sum, repo) => sum + repo.stargazers_count, 0)`. */
  function TotalStars(repos: seq<Repository>): (t: nat)
    ensures repos == [] ==> t == 0
    ensures forall i :: 0 <= i < |repos| ==> repos[i].stars <= t
    decreases |repos|
  {
    if repos == [] then 0 else TotalStars(repos[..|repos| - 1]) + repos[|repos| - 1].stars
  }

  /** `repositories.reduce((sum, repo) => sum + repo.forks_count, 0)`. */
  function TotalForks(repos: seq<Repository>): (t: nat)
    ensures repos == [] ==> t == 0
    ensures forall i :: 0 <= i < |repos| ==> repos[i].forks <= t
    decreases |repos|
  {
    if repos == [] then 0 else TotalForks(repos[..|repos| - 1]) + repos[|repos| - 1].forks
  }

  lemma {:induction false} TotalsAppend(a: seq<Repository>, b: seq<Repository>)
    ensures TotalStars(a + b) == TotalStars(a) + TotalStars(b)
    ensures TotalForks(a + b) == TotalForks(a) + TotalForks(b)
    decreases |b|
  {
    if b == [] {
      assert a + b == a;
    } else {
      var n := |b| - 1;
      TotalsAppend(a, b[..n]);
      assert (a + b)[..|a + b| - 1] == a + b[..n];
    }
  }

  /**
   * lib/github.ts:184-185. The totals run over the whole repository list:
   * they are the sample's totals plus those of the repositories beyond it.
   */
  lemma TotalsCoverAllRepositories(repos: seq<Repository>)
    ensures TotalStars(repos) == TotalStars(Sample(repos)) + TotalStars(repos[|Sample(repos)|..])
    ensures TotalForks(repos) == TotalForks(Sample(repos)) + TotalForks(repos[|Sample(repos)|..])
  {
    var n := |Sample(repos)|;
    assert repos == repos[..n] + repos[n..];
    TotalsAppend(repos[..n], repos[n..]);
  }

  /** `user.created_at ? currentYear - creationYear : 1`. */
  function AccountAge(createdYear: Option<int>, currentYear: int): int
  {
    if createdYear.Some? then currentYear - createdYear.value else 1
  }

  /**
   * `Math.max(1, Math.min(accountAge, 15))`: always within 1..15, the account
   * age itself when that is within range, 1 for a missing creation date.
   */
  function ExperienceYears(createdYear: Option<int>, currentYear: int): (y: int)
    ensures MinExperienceYears <= y <= MaxExperienceYears
    ensures createdYear.None? ==> y == 1
    ensures var age := AccountAge(createdYear, currentYear);
      (MinExperienceYears <= age <= MaxExperienceYears ==> y == age) &&
      (age > MaxExperienceYears ==> y == MaxExperienceYears) &&
      (age < MinExperienceYears ==> y == MinExperienceYears)
  {
    Max(MinExperienceYears, Min(AccountAge(createdYear, currentYear), MaxExperienceYears))
  }

  /** `repo.pushed_at && new Date(repo.pushed_at).getTime() > cutoff`. */
  predicate PushedAfter(r: Repository, cutoff: int)
  {
    r.pushedAt.At? && r.pushedAt.ms > cutoff
  }

  /**
   * `repositories.some(...)`: true exactly when some repository was pushed
   * after `nowMs` minus 30 days.
   */
  function RecentActivity(repos: seq<Repository>, nowMs: int): (b: bool)
    ensures b <==> exists i :: 0 <= i < |repos| && PushedAfter(repos[i], nowMs - ActivityWindowMs)
    decreases |repos|
  {
    if repos == [] then false
    else PushedAfter(repos[0], nowMs - ActivityWindowMs) || RecentActivity(repos[1..], nowMs)
  }

  /**
   * lib/github.ts:122, 194-196. Through the `pushed_at || updated_at`
   * default, a repository listed without a push date but updated within the
   * last 30 days makes the account recently active.
   */
  lemma UpdatedDateCountsAsPush(raws: seq<RawRepository>, i: nat, nowMs: int)
    requires i < |raws| && raws[i].pushedAt == NoStamp
    requires raws[i].updatedAt.At? && raws[i].updatedAt.ms > nowMs - ActivityWindowMs
    ensures RecentActivity(ListRepositories(raws), nowMs)
  {
    assert PushedAfter(ListRepositories(raws)[i], nowMs - ActivityWindowMs);
  }

  /**
   * The derivation of `getUserProfile` from the answers of the remote calls:
   * the user, the listed repositories, and the language histograms fetched
   * for the sample (one per sampled repository, `{}` for a failed fetch).
   */
  method BuildProfile(
    user: User,
    repositories: seq<Repository>,
    languageResults: seq<Histogram>,
    readme: Option<string>,
    currentYear: int,
    nowMs: int) returns (p: Profile)
    requires |languageResults| == |Sample(repositories)|
    ensures p.user == user && p.repositories == repositories
    ensures p.languages == Merge(languageResults)
    ensures p.totalStars == TotalStars(repositories) && p.totalForks == TotalForks(repositories)
    ensures p.primaryLanguages == PrimaryLanguages(p.languages)
    ensures p.recentActivity == RecentActivity(repositories, nowMs)
    ensures p.experienceYears == ExperienceYears(user.createdYear, currentYear)
    ensures p.skills == SkillList(repositories, p.languages, user.bio)
    ensures p.readme == OrNull(readme)
    ensures MinExperienceYears <= p.experienceYears <= MaxExperienceYears
    ensures |p.skills| <= MaxSkills && NoDup(p.skills)
    ensures (forall i :: 0 <= i < |languageResults| ==> Valid(languageResults[i])) ==>
      Valid(p.languages) && forall lang :: Get(p.languages, lang) == Total(languageResults, lang)
  {
    var languages := MergeHistograms(languageResults);
    var totalStars := TotalStars(repositories);
    var totalForks := TotalForks(repositories);
    var primaryLanguages := PrimaryLanguages(languages);
    var recentActivity := RecentActivity(repositories, nowMs);
    var experienceYears := ExperienceYears(user.createdYear, currentYear);
    var skills := ExtractSkills(repositories, languages, user.bio);
    ghost var allValid := forall i :: 0 <= i < |languageResults| ==> Valid(languageResults[i]);
    if allValid {
      MergeSums(languageResults);
    }
    p := Profile(user, repositories, languages, totalStars, totalForks, primaryLanguages,
                 recentActivity, experienceYears, skills, OrNull(readme));
  }

  /**
   * A candidate with no repositories: no stars, no forks, no languages, no
   * recent activity, and only bio keywords as skills.
   */
  lemma NoRepositories(bio: Option<string>, nowMs: int)
    ensures TotalStars([]) == 0 && TotalForks([]) == 0
    ensures Merge([]) == [] && PrimaryLanguages(Merge([])) == []
    ensures !RecentActivity([], nowMs)
    ensures forall x :: x in AllSkills([], Merge([]), bio) ==> BioPresent(bio) && x in TechKeywords
  {
    SkillMembership([], [], bio);
  }
}
