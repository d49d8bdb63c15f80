# Talent search core, modelled in Dafny

This project models the deterministic core of a talent-search application:

- how a candidate profile is derived from a code-hosting account (`GitHubService` in lib/github.ts);
- the compatibility score (`calculateCompatibilityScore`) and two small display helpers (lib/utils.ts);
- the upload checks of the OCR service (lib/ocr.ts).

The remote calls (user lookup, repository listing, language histograms, README) are not modelled. Their answers are taken as parameters. Everything computed from them is modelled:

- the 20-repository sample;
- the merge of the per-repository language histograms;
- the star and fork totals;
- the top five languages;
- the experience estimate;
- the recent-activity flag;
- the skill list.

Modules, one per file:

| file | module | models |
|---|---|---|
| wrappers.dfy | `Wrappers` | `Option` and `Result` |
| numbers.dfy | `Numbers` | `Math.min`, `Math.max` and `Math.round` on exact numbers; facts about quotients |
| text.dfy | `Text` | `toLowerCase` (ASCII letters), `startsWith`, `includes` |
| ordered_sets.dfy | `OrderedSets` | a JavaScript `Set`: a sequence without repeats in insertion order (`Add`, `Dedup`) |
| histograms.dfy | `Histograms` | a language histogram (language name to bytes) as an association list in key-insertion order. Covers the merge (`MergeHistograms`, specified by `Merge`) and the stable sort behind `primaryLanguages` |
| github.dfy | `GitHub` | users, raw and normalised repositories, and the defaults `getUserRepositories` fills in |
| skills.dfy | `Skills` | `extractSkillsFromProfile`: the loops as methods, specified by `SkillList` |
| profiles.dfy | `Profiles` | the rest of `getUserProfile`, gathered in `BuildProfile` |
| utils.dfy | `Utils` | `calculateCompatibilityScore`, `getScoreColor`, `truncateText` |
| ocr.dfy | `Ocr` | `validateFile` and the MIME dispatch of `processBuffer` and `processFile` |

Arithmetic is exact. Integers are unbounded and the score is computed on reals. The score's non-finite outcomes are explicit values of the `Utils.Score` datatype: NaN exactly when no skill is required or both experience figures are 0, and -Infinity for negative experience against a zero requirement.

A date arrives already parsed, as a `GitHub.Stamp`. It is either:

- empty (`NoStamp`, falsy in JavaScript);
- unparsable (`Unparsable`, which gives NaN);
- a time in milliseconds (`At`).

The account creation date arrives as its year. The current year and the current time are parameters.

Four behaviours of the code are worth stating plainly:

- **Skill repeats.** Language names are added verbatim and repeats are removed by exact string comparison, so "TypeScript" and "typescript" can both be skills (`Skills.CaseSensitiveDuplicates`).
- **Top-language order.** The languages are sorted by non-increasing byte count, and languages with equal counts keep the histogram's key order (`Histograms.SortByBytesSpec`, `Histograms.PrimaryLanguagesTieBreak`).
- **Zero denominators.** Nothing guards the divisions of the score. No required skills gives NaN, whatever the experience. No experience against none required also gives NaN. Negative experience against none required gives -Infinity (`Utils.CompatibilityScore`).
- **Counting matches.** The count is of the user's skills that match some required skill, so it can exceed the number of required skills (`Utils.CountCanExceedRequired`). The skills term is then capped at 100.

## Model

| member | source | states |
|---|---|---|
| Numbers.Round | lib/utils.ts:57 | `Math.round`: the integer `n` with `n <= x + 1/2 < n + 1` |
| Text.Lower | lib/github.ts:249 | `toLowerCase` keeps the length and lowers every character |
| Text.LowerCharIgnoresCase | lib/utils.ts:49-50 | two characters lower-case alike exactly when they are equal or the upper- and lower-case forms of one ASCII letter |
| Text.LowerIgnoresCase | lib/utils.ts:49-50 | two strings lower-case alike exactly when they have the same length and agree character by character up to ASCII letter case |
| Text.StartsWithIff | lib/ocr.ts:61 | `startsWith` holds exactly when the pattern is no longer than the text and matches its first characters one by one |
| Text.ContainsIff | lib/github.ts:251 | `includes` holds exactly when the pattern occurs in the text at some offset, the empty pattern everywhere; the same test decides a skill match at lib/utils.ts:49-50 |
| OrderedSets.DedupMembers | lib/github.ts:233-236 | the set holds exactly the elements added to it |
| OrderedSets.DedupNoDup | lib/github.ts:233 | the set never holds an element twice |
| OrderedSets.DedupOfNoDup | lib/github.ts:236 | adding distinct keys to an empty set keeps them all, in order |
| OrderedSets.DedupPrefix | lib/github.ts:248-264 | later additions never move or remove earlier elements |
| OrderedSets.DedupAppend | lib/github.ts:248-264 | adding to the set of `a` the elements of `b` gives the set of `a + b` |
| Histograms.GetEntry | lib/github.ts:179 | reading a listed language of a well-formed histogram gives its entry's count |
| Histograms.PutGet | lib/github.ts:179 | after `h[lang] = bytes`, `lang` reads `bytes` and every other key is unchanged |
| Histograms.PutKeys | lib/github.ts:179 | writing a key changes the key order exactly as `Set.add` would: a new key goes last, an existing one stays |
| Histograms.MergeHistograms | lib/github.ts:176-181 | the nested loops compute the fold `Merge` of all fetched histograms |
| Histograms.AccumulateGet | lib/github.ts:178-180 | folding in one histogram adds its count to each language's running total |
| Histograms.AccumulateKeys | lib/github.ts:178-180 | folding in one histogram appends its new languages in its key order |
| Histograms.MergeSums | lib/github.ts:176-181 | the merged histogram is well formed; each language's count is the sum over all fetched histograms; its keys are the languages in first-seen order |
| Histograms.EmptyHistogramIsNeutral | lib/github.ts:139-143 | the `{}` returned for a failed fetch changes nothing in the merge, wherever it sits |
| Histograms.TotalPermutation | lib/github.ts:176-181 | the reference per-language sum behind `MergePermutation` does not depend on the order of the histograms |
| Histograms.MergePermutation | lib/github.ts:170-181 | for well-formed histograms, every merged language count depends only on which histograms were fetched, not on their order |
| Histograms.SortByBytesSpec | lib/github.ts:188 | the sort is a permutation, non-increasing in bytes, and stable (equal counts keep key order) |
| Histograms.PrimaryLanguagesRanked | lib/github.ts:187-190 | `primaryLanguages` has min(5, languages) distinct entries, all languages, in non-increasing bytes, and no omitted language has more bytes than a kept one |
| Histograms.SortKeepsTies | lib/github.ts:188 | of two entries with equal byte counts, the sorted histogram keeps the earlier one first |
| Histograms.PrimaryLanguagesTieBreak | lib/github.ts:187-190 | when a language is kept, every earlier language with the same byte count is kept too and is listed before it |
| GitHub.Normalize | lib/github.ts:111-126 | empty description and language become null, missing counts 0, `pushed_at` falls back to `updated_at`, then to empty |
| GitHub.ListRepositories | lib/github.ts:111 | every listed repository is normalised, in order |
| Skills.AddLanguages | lib/github.ts:236 | adding the histogram keys to the empty set gives the set of the keys |
| Skills.AddKeywordHits | lib/github.ts:250-254 | one keyword scan adds to the set exactly the keywords found in the text, in vocabulary order |
| Skills.ExtractSkills | lib/github.ts:228-268 | the loops compute `SkillList`: at most 15 skills, none repeated |
| Skills.SkillListBounded | lib/github.ts:267 | at most 15 skills and no repeats |
| Skills.KeysLeadAllSkills | lib/github.ts:236 | the histogram's languages open the set, in key order |
| Skills.LanguagesFirst | lib/github.ts:236 | the skill list starts with the first min(15, n) languages; with at most 15 languages all of them are skills |
| Skills.HitsMembers | lib/github.ts:250-254 | a keyword is a hit exactly when it occurs in the lower-cased text |
| Skills.RepoHitsMembers | lib/github.ts:248-255 | a keyword is a repository hit exactly when some repository's "name description" text contains it |
| Skills.SkillMembership | lib/github.ts:233-265 | before the cap, a string is a skill exactly when it is a language of the histogram, or a keyword found in some repository text or in a non-empty bio |
| Skills.OnlyLanguages | lib/github.ts:258 | without repositories and bio, the skills are the first 15 languages |
| Skills.KeyIsSkill | lib/github.ts:236 | every histogram language is a skill before the cap |
| Skills.RepoKeywordIsSkill | lib/github.ts:248-255 | a keyword found in any repository's text is a skill before the cap |
| Skills.CaseSensitiveDuplicates | lib/github.ts:233-252 | a "TypeScript" language key and a "typescript" repository hit are both skills |
| Skills.SubstringHits | lib/github.ts:251 | matching is by substring: "javascript" in a text also yields "java" |
| Profiles.Sample | lib/github.ts:170 | the sample is the first min(20, n) repositories |
| Profiles.TotalStars | lib/github.ts:184 | the sum of the stars: 0 for no repositories, at least each repository's count |
| Profiles.TotalForks | lib/github.ts:185 | the sum of the forks: 0 for no repositories, at least each repository's count |
| Profiles.TotalsAppend | lib/github.ts:184-185 | the totals of a concatenation are the sums of the totals |
| Profiles.TotalsCoverAllRepositories | lib/github.ts:184-185 | the totals count every repository, the sample and the ones beyond it |
| Profiles.ExperienceYears | lib/github.ts:193-197 | always within 1..15; 1 without a creation date; the account age when in range, clamped otherwise |
| Profiles.RecentActivity | lib/github.ts:194-196 | true exactly when some repository has a push date after now minus 30 days |
| Profiles.UpdatedDateCountsAsPush | lib/github.ts:122 | a repository without a push date but updated in the last 30 days makes the account active |
| Profiles.BuildProfile | lib/github.ts:170-221 | every field of the profile as specified above; experience within 1..15; at most 15 distinct skills; for well-formed histograms, the merged counts are the sums |
| Profiles.NoRepositories | lib/github.ts:176-200 | without repositories: no stars, forks, languages or activity, and only bio keywords as skills |
| Utils.MatchCount | lib/utils.ts:48-51 | the count of matching user skills is at most the number of user skills |
| Utils.SkillsScore | lib/utils.ts:52 | the skills term lies in 0..100 and is 100 exactly when at least as many user skills match as are required |
| Utils.ExperienceScore | lib/utils.ts:55 | the experience term is at most 100, non-negative for non-negative inputs, and 100 exactly when a positive requirement is met |
| Utils.CompatibilityScore | lib/utils.ts:41-58 | NaN exactly when no skill is required or both experience figures are 0; -Infinity for negative experience against none required; otherwise an integer, within 0..100 for non-negative experience |
| Utils.MatchCountIgnoresCase | lib/utils.ts:48-51 | the match count is the same after changing the case of any skill |
| Utils.ScoreIgnoresCase | lib/utils.ts:48-50 | the score is the same after changing the case of any user or required skill |
| Utils.LowerAllIgnoresCase | lib/utils.ts:48-50 | two skill lists lower-case to the same list exactly when they differ only in the case of ASCII letters |
| Utils.ScoreIgnoresLetterCase | lib/utils.ts:48-50 | flipping the case of ASCII letters in any user or required skill leaves the score unchanged |
| Utils.MatchCountAppend | lib/utils.ts:48-51 | the count over a concatenation is the sum of the counts |
| Utils.AddingSkillNeverLowers | lib/utils.ts:48-57 | inserting a user skill anywhere never lowers a finite score |
| Utils.CountCanExceedRequired | lib/utils.ts:48-52 | ["react", "reactjs"] against ["React"] counts 2 matches, and the term is capped at 100 |
| Utils.ReactMatchesReact | lib/utils.ts:49-50 | "React" matches "react" |
| Utils.NodeMatchesNodeJs | lib/utils.ts:49-50 | "Node" matches "node.js" by substring |
| Utils.NothingMatchesTypeScript | lib/utils.ts:49-50 | none of "React", "Node", "AWS" matches "typescript" |
| Utils.NoneMatches | lib/utils.ts:49-50 | a skill that matches no required skill is not counted |
| Utils.ExampleMatchCount | lib/utils.ts:48-51 | ["react", "node.js", "typescript"] against ["React", "Node", "AWS"] counts 2 |
| Utils.ExampleScore | lib/utils.ts:52-57 | 2 of 3 skills matched with experience met gives 80 |
| Utils.WorkedExample | lib/utils.ts:41-58 | the example above scores 80 |
| Utils.ScoreColor | lib/utils.ts:23-28 | green from 90, amber from 80 below 90, blue from 70 below 80, gray below 70 |
| Utils.TruncateText | lib/utils.ts:18-21 | a short text is unchanged; a longer one is its first `maxLength` characters (none if negative) followed by "..." |
| Ocr.ValidateFile | lib/ocr.ts:68-87 | the size error comes first, for anything over 10 MiB (exactly 10 MiB passes); within the limit, valid exactly for the five listed types; an error exactly when invalid |
| Ocr.ProcessBuffer | lib/ocr.ts:58-66 | PDF to the PDF path, other "image/" types to the image path, everything else fails with "Unsupported file type: " and the type |
| Ocr.ProcessFile | lib/ocr.ts:46-56 | the same three-way dispatch on the file's own type |
| Ocr.AllowedAreImagesOrPdf | lib/ocr.ts:70-76 | every allowed type is PDF or starts with "image/" |
| Ocr.ValidFileIsDispatched | lib/ocr.ts:46-87 | a file that passes validation is always dispatched: a PDF to the PDF path, every other one to the image path |
| Ocr.GifDispatchedButRejected | lib/ocr.ts:51-82 | "image/gif" goes to the image path but never passes validation |

## Left out

- The remote calls are left out: `searchUsers`, `getUser`, the repository listing, `listLanguages`, and `getRepositoryReadme` with its base64 decoding. They are network wrappers. Their answers are parameters of `Profiles.BuildProfile`, and a failed language fetch is the empty histogram `[]`.
- The `Promise.all` fan-out is concurrency. `Promise.all` returns its results in input order, so it is modelled as a fold over the histograms in sample order.
- `Date` parsing, `new Date()` and `Date.now()` are left out. The creation year, the current year and the current time in milliseconds are parameters. One `now` serves the whole `some` scan.
- An unparsable `created_at` is left out. It makes the experience NaN in the code; the model takes the year as an integer or absent.
- The order of integer-like keys is left out. JavaScript lists integer-like object keys before the others; language names are assumed not to look like integers.
- `toLowerCase` is modelled for ASCII letters only. String lengths count characters, not UTF-16 code units.
- `Utils.CompatibilityScore` is computed on exact reals, not on double-precision floats. `Math.round` of a negative half is rounded up, as in JavaScript.
- `Utils.ExperienceScore` requires a non-zero requirement or positive experience. The other cases are the non-finite outcomes that `Utils.CompatibilityScore` handles itself.
- `Utils.TruncateText` takes an integer `maxLength`. A fractional or NaN limit is not modelled.
- The repository fields `id`, `full_name`, `languages_url`, `created_at`, `html_url`, `clone_url` and `owner` are not modelled. Nothing in the model reads them.
- The owner login used for the language fetch (lib/github.ts:171) is not modelled: it only addresses the remote call.
- The OCR extraction routines (`extractTextFromPDF`, `extractTextFromImage`) return constant mock text and timings. The model keeps only which path is taken. `file.arrayBuffer()` is I/O.
- Not part of this model:
  - lib/ai.ts (calls to a language model);
  - `cn`, `formatNumber` and `debounce` in lib/utils.ts;
  - the UI components and pages;
  - the API routes.
- The source does not rank, batch or fall back: lib/ai.ts returns the language model's parsed answer unchanged, and nothing calls `calculateCompatibilityScore`, so there is nothing more to model.
