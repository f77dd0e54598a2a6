# Override resolution for Sonarr requests

This project models how Overseerr picks the Sonarr override for a TV series
(`server/api/overridesettings.ts`). An administrator defines an ordered list of
override settings. Each setting pairs a rule with an override payload. A rule
holds optional lists of genre ids, keyword ids and language codes.

`computeOverrideWeight` scores a rule against the series' genres, keywords and
original language. `getOverrides` returns the payload of the first rule with
the greatest positive weight. An empty tag list in that payload becomes absent.

Everything is in the module `OverrideSettings` (`overridesettings.dfy`):

- `Series`, `Rule`, `Override<Settings>` and `OverrideSetting<Settings>` are
  the data model. `Option` gives TypeScript's optional fields: `None` is absent
  and `Some([])` is empty. Apart from its tags, the payload is an opaque type
  parameter.
- `ComputeOverrideWeight` is a pure function. It is built from `CountMatches`
  (the `filter(...).length` of the source), `LanguageMatches` and `Step` (one
  conditional `weight = (weight + 1) * count`).
- `GetOverrides` is a method with the source's loop. It keeps the heaviest
  override so far and replaces it only on a strictly greater weight. The
  ghost predicate `IsHeaviest` specifies it: the first setting of maximum
  weight, whose weight must be positive.
- `NormaliseTags` is the final tag expression.

Two consequences of the code are worth stating:

- `computeOverrideWeight` has no early exit. A later configured criterion
  restarts from `(0 + 1) * count`, so only the last configured criterion can
  force the weight to 0 (`ZeroGenresRevivedByKeywords`,
  `ZeroGenresRevivedByLanguage`).
- Series genres and keywords are arrays filtered by membership in the rule's
  lists, so each duplicate id in the series counts once per occurrence.
  `Series` holds sequences and `CountMatches` counts duplicates.

## Model

| member | source | states |
|---|---|---|
| OverrideSettings.CountMatches | server/api/overridesettings.ts:48 | the number of series ids listed by the rule is at most the number of series ids; it is 0 exactly when no series id is listed, and it is all of them exactly when every series id is listed |
| OverrideSettings.LanguageMatches | server/api/overridesettings.ts:61 | the language count is 0 or 1, and it is 1 exactly when the original language is among the rule's languages |
| OverrideSettings.Step | server/api/overridesettings.ts:45-61 | a configured criterion gives a non-negative weight that is at least its count and is 0 exactly when its count is 0; an unconfigured criterion leaves the weight unchanged |
| OverrideSettings.ComputeOverrideWeight | server/api/overridesettings.ts:40-64 | the weight is a non-negative integer; it is 0 exactly when no criterion is configured or the last configured one (in the order genres, keywords, languages) has no match; otherwise it is at least that last count |
| OverrideSettings.EmptyRuleWeighsZero | server/api/overridesettings.ts:44-63 | a rule whose three criteria are all absent or empty weighs 0 |
| OverrideSettings.GenresOnlyWeight | server/api/overridesettings.ts:45-48 | a genres-only rule weighs the number of series genres whose id the rule lists |
| OverrideSettings.LanguagesOnlyWeight | server/api/overridesettings.ts:58-61 | a languages-only rule weighs 1 if it lists the original language and 0 otherwise |
| OverrideSettings.GenresAndLanguageWeight | server/api/overridesettings.ts:45-61 | with keywords unconfigured, g matching genres plus a matching language weigh g + 1 |
| OverrideSettings.TwoGenresAndLanguageWeighThree | server/api/overridesettings.ts:45-61 | two matching genres plus a matching language weigh 3 |
| OverrideSettings.ZeroGenresRevivedByKeywords | server/api/overridesettings.ts:45-56 | genres that match nothing do not zero the rule: when keywords are the last configured criterion, the weight is the keyword count |
| OverrideSettings.ZeroGenresRevivedByLanguage | server/api/overridesettings.ts:45-61 | genres that match nothing, followed by a matching language, weigh 1 and not 0 |
| OverrideSettings.CountMatchesMonotone | server/api/overridesettings.ts:48 | a rule that lists more ids matches at least as many series ids |
| OverrideSettings.StepMonotone | server/api/overridesettings.ts:46-47 | one reassignment of the weight is monotone in the previous weight and in the count |
| OverrideSettings.WiderGenresWeighAtLeast | server/api/overridesettings.ts:44-63 | a rule whose genre list, empty or not, is widened, with everything else equal, weighs at least as much |
| OverrideSettings.HeaviestIsUnique | server/api/overridesettings.ts:17-25 | at most one setting is the first of maximum positive weight, so the selection is determined by the inputs |
| OverrideSettings.HeaviestRuleIsConfigured | server/api/overridesettings.ts:19 | the selected setting's rule configures at least one criterion, so a rule with none is never selected, even as the only one |
| OverrideSettings.NormaliseTags | server/api/overridesettings.ts:32-37 | the returned payload equals the winner's in everything but tags; absent or empty tags become absent; non-empty tags pass through unchanged |
| OverrideSettings.NormaliseTagsIdempotent | server/api/overridesettings.ts:35 | normalised tags are never an empty list, and normalising twice equals normalising once |
| OverrideSettings.GetOverrides | server/api/overridesettings.ts:7-38 | an absent or empty overrides list gives no override; no override is returned exactly when every rule weighs 0; a returned override is the normalised payload of the first setting of maximum weight, and that weight is positive (ties go to the earliest setting, since replacement needs a strictly greater weight) |

## Left out

- The TMDB fetch `new TheMovieDb().getTvShow(...)` and its async plumbing: the series is a parameter of `GetOverrides` holding genre ids, keyword ids and the original language.
- The two `console.log` calls: they are logging and do not affect the result.
- The shape of `SonarrSettings` beyond its optional `overrides` list. The payload's fields other than `tags` are an opaque type parameter.
- `src/components/Settings/OverridesSection/index.tsx`: a React settings page. Its list edits (replace at an index, delete, append an empty rule, empty tags to undefined) are UI glue.
- Series with several spoken languages: the code checks only `original_language`, and so does the model.
- ComputeOverrideWeight: weights are unbounded integers, not JavaScript double-precision numbers. The weight is at most (|genres| + 1) * (|keywords| + 1) over the series' genre and keyword counts, far below where doubles lose precision.
