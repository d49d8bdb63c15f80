/**
 * The records that `GitHubService` (lib/github.ts) hands around: users and
 * repositories, and the defaults `getUserRepositories` fills in for fields
 * the listing leaves empty. Dates reach the model already parsed.
 */
module GitHub {
  import opened Wrappers

  /**
   * A date field: empty, absent or `null` (`NoStamp`, falsy in JavaScript),
   * a non-empty string that is not a date (`Unparsable`, which parses to
   * NaN), or a date as milliseconds since the epoch.
   */
  datatype Stamp = NoStamp | Unparsable | At(ms: int)

  /** A user record: handle, self-description and the year the account was created. */
  datatype User = User(login: string, bio: Option<string>, createdYear: Option<int>)

  /** A repository as the listing endpoint returns it; falsy fields are `None` or `NoStamp`. */
  datatype RawRepository = RawRepository(
    name: string,
    description: Option<string>,
    language: Option<string>,
    stars: Option<nat>,
    forks: Option<nat>,
    updatedAt: Stamp,
    pushedAt: Stamp)

  /** A repository after `getUserRepositories` filled in its defaults. */
  datatype Repository = Repository(
    name: string,
    description: Option<string>,
    language: Option<string>,
    stars: nat,
    forks: nat,
    updatedAt: Stamp,
    pushedAt: Stamp)

  /** `s || null`: an empty string becomes `null`. */
  function OrNull(s: Option<string>): Option<string>
  {
    if s.Some? && s.value != "" then s else None
  }

  /** `n || 0`. */
  function OrZero(n: Option<nat>): nat
  {
    if n.Some? then n.value else 0
  }

  /** `a || b` on date fields. */
  function OrElse(a: Stamp, b: Stamp): Stamp
  {
    if a != NoStamp then a else b
  }

  /**
   * The mapping in `getUserRepositories`: empty texts become `null`, missing
   * counts 0, and `pushed_at` falls back to `updated_at` and then to `''`.
   */
  function Normalize(raw: RawRepository): (r: Repository)
    ensures r.name == raw.name
    ensures r.description.Some? <==> raw.description.Some? && raw.description.value != ""
    ensures r.description.Some? ==> r.description == raw.description
    ensures r.language.Some? <==> raw.language.Some? && raw.language.value != ""
    ensures r.language.Some? ==> r.language == raw.language
    ensures raw.stars.Some? ==> r.stars == raw.stars.value
    ensures raw.stars.None? ==> r.stars == 0
    ensures raw.forks.Some? ==> r.forks == raw.forks.value
    ensures raw.forks.None? ==> r.forks == 0
    ensures r.updatedAt == raw.updatedAt
    ensures r.pushedAt != NoStamp <==> raw.pushedAt != NoStamp || raw.updatedAt != NoStamp
    ensures raw.pushedAt != NoStamp ==> r.pushedAt == raw.pushedAt
    ensures raw.pushedAt == NoStamp ==> r.pushedAt == raw.updatedAt
  {
    Repository(
      raw.name,
      OrNull(raw.description),
      OrNull(raw.language),
      OrZero(raw.stars),
      OrZero(raw.forks),
      raw.updatedAt,
      OrElse(raw.pushedAt, OrElse(raw.updatedAt, NoStamp)))
  }

  /** `response.data.map(...)`: every listed repository normalised, order kept. */
  function ListRepositories(raws: seq<RawRepository>): (rs: seq<Repository>)
    ensures |rs| == |raws|
    ensures forall i :: 0 <= i < |raws| ==> rs[i] == Normalize(raws[i])
  {
    seq(|raws|, i requires 0 <= i < |raws| => Normalize(raws[i]))
  }
}
