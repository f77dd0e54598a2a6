/** Resolution of Sonarr override rules for a TV series (server/api/overridesettings.ts).

    Each administrator-defined override setting pairs a matching rule (optional
    lists of genre ids, keyword ids and language codes) with an override payload.
    Every rule is weighed against the series' metadata; the payload of the first
    rule of greatest positive weight is returned, with an empty tag list turned
    into an absent one.
 */
module OverrideSettings {

  datatype Option<+T> = None | Some(value: T)

  /** The part of the TMDB series details the weighting reads: the ids of the
      series' genres, the ids of its keywords (`keywords.results`) and its
      `original_language`. */
  datatype Series = Series(genres: seq<int>, keywords: seq<int>, originalLanguage: string)

  /** The matching criteria of one override setting. `None` is an absent field,
      `Some([])` an empty one; the two mean the same to the weighting. */
  datatype Rule = Rule(genres: Option<seq<int>>, keywords: Option<seq<int>>, languages: Option<seq<string>>)

  /** An override payload: the downstream settings it carries (root folder,
      quality profile, ...) are opaque here, apart from the optional tag ids. */
  datatype Override<Settings> = Override(settings: Settings, tags: Option<seq<int>>)

  /** One administrator-defined entry of `sonarrSettings.overrides`. */
  datatype OverrideSetting<Settings> = OverrideSetting(rule: Rule, override: Override<Settings>)

  /** The best override found so far by the scan, with its weight. */
  datatype Heaviest<Settings> = Heaviest(override: Override<Settings>, weight: int)

  // ---------------------------------------------------------------------------
  // Weighting

  /** A criterion takes part in the weighting when it is present and non-empty. */
  predicate Configured<T>(criterion: Option<seq<T>>)
  {
    criterion.Some? && |criterion.value| > 0
  }

  /** How many entries of `ids` occur in `wanted`, duplicates included: the
      length of `ids.filter(id => wanted.includes(id))`. */
  function CountMatches(ids: seq<int>, wanted: seq<int>): (n: nat)
    ensures n <= |ids|
    ensures n == 0 <==> forall i :: 0 <= i < |ids| ==> ids[i] !in wanted
    ensures n == |ids| <==> forall i :: 0 <= i < |ids| ==> ids[i] in wanted
  {
    if ids == [] then 0
    else (if ids[0] in wanted then 1 else 0) + CountMatches(ids[1..], wanted)
  }

  /** The language criterion's match count: 1 when the series' original
      language is one of the rule's languages, 0 otherwise. */
  function LanguageMatches(languages: seq<string>, language: string): (n: nat)
    ensures n <= 1
    ensures n == 1 <==> language in languages
  {
    if language in languages then 1 else 0
  }

  /** One conditional reassignment of `weight`: a configured criterion sets it
      to `(weight + 1) * count`, an unconfigured one leaves it alone. */
  function Step(weight: int, configured: bool, count: nat): (w: int)
    requires weight >= 0
    ensures w >= 0
    ensures configured ==> (w == 0 <==> count == 0) && w >= count
    ensures !configured ==> w == weight
  {
    if configured then (weight + 1) * count else weight
  }

  function GenreCount(rule: Rule, series: Series): nat
    requires Configured(rule.genres)
  {
    CountMatches(series.genres, rule.genres.value)
  }

  function KeywordCount(rule: Rule, series: Series): nat
    requires Configured(rule.keywords)
  {
    CountMatches(series.keywords, rule.keywords.value)
  }

  function LanguageCount(rule: Rule, series: Series): nat
    requires Configured(rule.languages)
  {
    LanguageMatches(rule.languages.value, series.originalLanguage)
  }

  /** The match count of the LAST criterion the rule configures, in the order
      genres, keywords, languages; `None` when it configures none. */
  function LastConfiguredCount(rule: Rule, series: Series): Option<nat>
  {
    if Configured(rule.languages) then Some(LanguageCount(rule, series))
    else if Configured(rule.keywords) then Some(KeywordCount(rule, series))
    else if Configured(rule.genres) then Some(GenreCount(rule, series))
    else None
  }

  /** `computeOverrideWeight`: starting from 0, genres, then keywords, then
      languages each reassign the weight when configured. There is no early
      exit: only the last configured criterion decides whether the weight is 0. */
  function ComputeOverrideWeight(rule: Rule, series: Series): (w: int)
    ensures w >= 0
    ensures w == 0 <==> LastConfiguredCount(rule, series) in {None, Some(0)}
    ensures LastConfiguredCount(rule, series).Some? ==> w >= LastConfiguredCount(rule, series).value
  {
    var afterGenres := Step(0, Configured(rule.genres),
                            if Configured(rule.genres) then GenreCount(rule, series) else 0);
    var afterKeywords := Step(afterGenres, Configured(rule.keywords),
                              if Configured(rule.keywords) then KeywordCount(rule, series) else 0);
    Step(afterKeywords, Configured(rule.languages),
         if Configured(rule.languages) then LanguageCount(rule, series) else 0)
  }

  // ---------------------------------------------------------------------------
  // Properties of the weighting

  /** A rule with every criterion absent or empty weighs 0. */
  lemma EmptyRuleWeighsZero(rule: Rule, series: Series)
    requires !Configured(rule.genres) && !Configured(rule.keywords) && !Configured(rule.languages)
    ensures ComputeOverrideWeight(rule, series) == 0
  {
  }

  /** A genres-only rule weighs the number of series genres it lists. */
  lemma GenresOnlyWeight(rule: Rule, series: Series)
    requires Configured(rule.genres) && !Configured(rule.keywords) && !Configured(rule.languages)
    ensures ComputeOverrideWeight(rule, series) == CountMatches(series.genres, rule.genres.value)
  {
  }

  /** A languages-only rule weighs 1 when it lists the original language, 0 otherwise. */
  lemma LanguagesOnlyWeight(rule: Rule, series: Series)
    requires !Configured(rule.genres) && !Configured(rule.keywords) && Configured(rule.languages)
    ensures ComputeOverrideWeight(rule, series) == if series.originalLanguage in rule.languages.value then 1 else 0
  {
  }

  /** Matching genres and the language, with keywords unconfigured, weighs one
      more than the number of matching genres. */
  lemma GenresAndLanguageWeight(rule: Rule, series: Series)
    requires Configured(rule.genres) && !Configured(rule.keywords) && Configured(rule.languages)
    requires series.originalLanguage in rule.languages.value
    ensures ComputeOverrideWeight(rule, series) == CountMatches(series.genres, rule.genres.value) + 1
  {
  }

  /** Two matching genres and a matching language weigh 3. */
  lemma TwoGenresAndLanguageWeighThree()
    ensures ComputeOverrideWeight(Rule(Some([1, 2]), None, Some(["ja"])), Series([1, 2], [5], "ja")) == 3
  {
  }

  /** A genre criterion that matches nothing is not final: matching keywords,
      as the last configured criterion, give the keyword count as the weight. */
  lemma ZeroGenresRevivedByKeywords(rule: Rule, series: Series)
    requires Configured(rule.genres) && Configured(rule.keywords) && !Configured(rule.languages)
    requires CountMatches(series.genres, rule.genres.value) == 0
    ensures ComputeOverrideWeight(rule, series) == CountMatches(series.keywords, rule.keywords.value)
  {
  }

  /** Likewise a matching language revives genres that match nothing: the
      weight is (0 + 1) * 1, not 0. */
  lemma ZeroGenresRevivedByLanguage(rule: Rule, series: Series)
    requires Configured(rule.genres) && !Configured(rule.keywords) && Configured(rule.languages)
    requires CountMatches(series.genres, rule.genres.value) == 0
    requires series.originalLanguage in rule.languages.value
    ensures ComputeOverrideWeight(rule, series) == 1
  {
  }

  /** Listing more ids can only raise a match count. */
  lemma {:induction false} CountMatchesMonotone(ids: seq<int>, wanted: seq<int>, more: seq<int>)
    requires forall x :: x in wanted ==> x in more
    ensures CountMatches(ids, wanted) <= CountMatches(ids, more)
  {
    if ids != [] {
      CountMatchesMonotone(ids[1..], wanted, more);
    }
  }

  /** Each reassignment is monotone in the previous weight and in the count. */
  lemma StepMonotone(w: int, w': int, configured: bool, c: nat, c': nat)
    requires 0 <= w <= w' && c <= c'
    ensures Step(w, configured, c) <= Step(w', configured, c')
  {
    if configured {
      calc {
        (w + 1) * c;
      <= { assert (w + 1) * c <= (w + 1) * c'; }
        (w + 1) * c';
      <= { assert (w' - w) * c' >= 0; }
        (w' + 1) * c';
      }
    }
  }

  /** Specificity: a rule whose genre list (possibly empty) is widened,
      everything else equal, weighs at least as much. */
  lemma WiderGenresWeighAtLeast(rule: Rule, wider: Rule, series: Series)
    requires rule.genres.Some? && wider.genres.Some?
    requires forall g :: g in rule.genres.value ==> g in wider.genres.value
    requires wider.keywords == rule.keywords && wider.languages == rule.languages
    ensures ComputeOverrideWeight(rule, series) <= ComputeOverrideWeight(wider, series)
  {
    var g := if Configured(rule.genres) then GenreCount(rule, series) else 0;
    var g' := if Configured(wider.genres) then GenreCount(wider, series) else 0;
    var afterGenres, afterGenres' := Step(0, Configured(rule.genres), g), Step(0, Configured(wider.genres), g');
    if Configured(rule.genres) {
      assert rule.genres.value[0] in rule.genres.value;
      CountMatchesMonotone(series.genres, rule.genres.value, wider.genres.value);
      StepMonotone(0, 0, true, g, g');
    }
    assert afterGenres <= afterGenres';
    var k := if Configured(rule.keywords) then KeywordCount(rule, series) else 0;
    var l := if Configured(rule.languages) then LanguageCount(rule, series) else 0;
    StepMonotone(afterGenres, afterGenres', Configured(rule.keywords), k, k);
    StepMonotone(Step(afterGenres, Configured(rule.keywords), k),
                 Step(afterGenres', Configured(rule.keywords), k),
                 Configured(rule.languages), l, l);
  }

  // ---------------------------------------------------------------------------
  // Selection

  /** The settings the scan visits: an absent `overrides` list is visited as an empty one. */
  function Listed<S>(overrides: Option<seq<OverrideSetting<S>>>): seq<OverrideSetting<S>>
  {
    if overrides.Some? then overrides.value else []
  }

  /** `settings[k]` is the first of `settings[..n]` with the greatest weight, and that weight is positive. */
  ghost predicate IsHeaviestUpTo<S>(settings: seq<OverrideSetting<S>>, series: Series, n: int, k: int)
  {
    0 <= k < n <= |settings|
    && ComputeOverrideWeight(settings[k].rule, series) > 0
    && (forall j :: 0 <= j < n ==> ComputeOverrideWeight(settings[j].rule, series) <= ComputeOverrideWeight(settings[k].rule, series))
    && (forall j :: 0 <= j < k ==> ComputeOverrideWeight(settings[j].rule, series) < ComputeOverrideWeight(settings[k].rule, series))
  }

  ghost predicate IsHeaviest<S>(settings: seq<OverrideSetting<S>>, series: Series, k: int)
  {
    IsHeaviestUpTo(settings, series, |settings|, k)
  }

  /** At most one setting is the heaviest, so the selection is determined by its inputs. */
  lemma HeaviestIsUnique<S>(settings: seq<OverrideSetting<S>>, series: Series, k: int, k': int)
    requires IsHeaviest(settings, series, k) && IsHeaviest(settings, series, k')
    ensures k == k'
  {
  }

  /** The heaviest setting's rule configures at least one criterion: a rule
      with none never wins, even as the only one. */
  lemma HeaviestRuleIsConfigured<S>(settings: seq<OverrideSetting<S>>, series: Series, k: int)
    requires IsHeaviest(settings, series, k)
    ensures Configured(settings[k].rule.genres) || Configured(settings[k].rule.keywords)
            || Configured(settings[k].rule.languages)
  {
  }

  /** The returned payload: every field as in `override`, except that absent or
      empty tags become absent. */
  function NormaliseTags<S>(override: Override<S>): (r: Override<S>)
    ensures r.settings == override.settings
    ensures r.tags.Some? ==> r.tags == override.tags
    ensures r.tags.None? <==> override.tags.None? || override.tags.value == []
  {
    Override(override.settings,
             if override.tags.Some? && |override.tags.value| > 0 then override.tags else None)
  }

  /** Normalised tags are never an empty list, so normalising twice changes nothing. */
  lemma NormaliseTagsIdempotent<S>(override: Override<S>)
    ensures NormaliseTags(override).tags != Some([])
    ensures NormaliseTags(NormaliseTags(override)) == NormaliseTags(override)
  {
  }

  /** `getOverrides`, with the series given instead of fetched: a left-to-right
      scan that keeps the heaviest override so far and replaces it only on a
      strictly greater weight, starting from the threshold 0. */
  method GetOverrides<S>(overrides: Option<seq<OverrideSetting<S>>>, series: Series)
    returns (r: Option<Override<S>>)
    ensures overrides.None? || overrides == Some([]) ==> r.None?
    ensures r.None? <==> forall j :: 0 <= j < |Listed(overrides)| ==> ComputeOverrideWeight(Listed(overrides)[j].rule, series) == 0
    ensures r.Some? ==> exists k :: IsHeaviest(Listed(overrides), series, k)
                                    && r.value == NormaliseTags(Listed(overrides)[k].override)
  {
    var heaviest: Option<Heaviest<S>> := None;
    ghost var best := 0;
    if overrides.Some? {
      var settings := overrides.value;
      for i := 0 to |settings|
        invariant heaviest.None? <==> forall j :: 0 <= j < i ==> ComputeOverrideWeight(settings[j].rule, series) == 0
        invariant heaviest.Some? ==> IsHeaviestUpTo(settings, series, i, best)
                                     && heaviest.value == Heaviest(settings[best].override, ComputeOverrideWeight(settings[best].rule, series))
      {
        var weight := ComputeOverrideWeight(settings[i].rule, series);
        if weight > (if heaviest.Some? then heaviest.value.weight else 0) {
          heaviest := Some(Heaviest(settings[i].override, weight));
          best := i;
        }
      }
    }
    if heaviest.Some? {
      assert ComputeOverrideWeight(Listed(overrides)[best].rule, series) > 0;
      r := Some(NormaliseTags(heaviest.value.override));
    } else {
      r := None;
    }
  }
}
