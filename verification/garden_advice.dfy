/**
 The advice resolver of the garden advice CLI: two constant tip tables, the
 input normalisation (`strip` then `lower`), and `GetAdvice`, which looks the
 normalised season and plant type up independently and returns the two tips
 as two lines.
 */
module GardenAdvice {
  import opened Text
  import opened Lines

  /** An input that may be absent (Python's `None`). */
  datatype Option<+T> = None | Some(value: T)

  const NewLine: char := '\n'
  const EmDash: string := "\U{2014}"

  // Each text is a concatenation of short literals: the verifier checks a
  // long string literal character by character, and short pieces keep the
  // proofs about the texts cheap.
  const SummerTip: string := "Water a bit more often " + "and give delicate plants " + "some afternoon shade."
  const WinterTip: string := "Protect from frost " + "(old sheets/row covers) " + "and avoid waterlogging."
  const SpringTip: string := "Light mulch helps keep " + "moisture; start a mild " + "feed as growth kicks off."
  const AutumnTip: string := "Ease off the watering; " + "collect leaves for compost " + "and protect tender stems."
  const FlowerTip: string := "Pinch back spent blooms " + "to encourage more flowers."
  const VegetableTip: string := "Watch for pests; " + "regular checks beat " + "heavy sprays later."
  const SucculentTip: string := "Less is more" + EmDash + "water deeply but " + "infrequently; ensure " + "sharp drainage."

  const SeasonAdvice: map<string, string> := map[
    "summer" := SummerTip,
    "winter" := WinterTip,
    "spring" := SpringTip,
    "autumn" := AutumnTip
  ]

  const PlantAdvice: map<string, string> := map[
    "flower" := FlowerTip,
    "vegetable" := VegetableTip,
    "succulent" := SucculentTip
  ]

  const SeasonFallback: string := "No season-specific tip yet" + EmDash + "add one in SEASON_ADVICE."
  const PlantFallback: string := "No plant-type tip yet" + EmDash + "add one in PLANT_ADVICE."

  /** Python's `s or ""`: an absent input reads as the empty string. */
  function OrEmpty(s: Option<string>): (r: string)
    ensures r == "" <==> s == None || s == Some("")
    ensures s.Some? ==> r == s.value
  {
    match s
    case None => ""
    case Some(t) => t
  }

  /** `_normalise`: the input lower-cased, without surrounding whitespace. */
  function Normalise(s: Option<string>): (r: string)
    ensures Trimmed(r) && NoUpper(r)
    ensures SpacePadded(Lower(OrEmpty(s)), r)
    ensures |r| <= |OrEmpty(s)|
    ensures s == None ==> r == ""
  {
    LowerStripCommute(OrEmpty(s));
    Lower(Strip(OrEmpty(s)))
  }

  /** `dict.get(key, default)`. */
  function Get(m: map<string, string>, key: string, default: string): (r: string)
    ensures key in m ==> r == m[key]
    ensures key !in m ==> r == default
  {
    if key in m then m[key] else default
  }

  /** `get_advice`: the season tip, a line break, the plant tip. */
  function GetAdvice(season: Option<string>, plantType: Option<string>): (r: string)
    ensures |Split(r, NewLine)| == 2
    ensures r == Split(r, NewLine)[0] + [NewLine] + Split(r, NewLine)[1]
    ensures Count(r, NewLine) == 1
    ensures r[0] != NewLine && r[|r| - 1] != NewLine
    ensures Normalise(season) in SeasonAdvice ==> Split(r, NewLine)[0] == SeasonAdvice[Normalise(season)]
    ensures Normalise(season) !in SeasonAdvice ==> Split(r, NewLine)[0] == SeasonFallback
    ensures Normalise(plantType) in PlantAdvice ==> Split(r, NewLine)[1] == PlantAdvice[Normalise(plantType)]
    ensures Normalise(plantType) !in PlantAdvice ==> Split(r, NewLine)[1] == PlantFallback
  {
    var seasonKey := Normalise(season);
    var plantKey := Normalise(plantType);
    var seasonLine := Get(SeasonAdvice, seasonKey, SeasonFallback);
    var plantLine := Get(PlantAdvice, plantKey, PlantFallback);
    LookupIsSingleLine(seasonKey, plantKey);
    TwoLines(seasonLine, plantLine);
    Join([seasonLine, plantLine], NewLine)
  }

  /** A non-empty text without a line break: one line of output. */
  predicate SingleLine(s: string) {
    s != [] && NewLine !in s
  }

  /** Two single lines joined by a line break read back as exactly those two
      lines, and the result neither starts nor ends with a line break. */
  lemma TwoLines(a: string, b: string)
    requires SingleLine(a) && SingleLine(b)
    ensures var r := Join([a, b], NewLine);
      && r == a + [NewLine] + b
      && Split(r, NewLine) == [a, b]
      && Count(r, NewLine) == 1
      && r[0] != NewLine && r[|r| - 1] != NewLine
  {
    var r := Join([a, b], NewLine);
    assert r == a + [NewLine] + b;
    assert r[0] == a[0];
    assert r[|r| - 1] == b[|b| - 1];
    SplitJoin([a, b], NewLine);
  }

  /** Whatever the keys, each lookup yields a single line. */
  lemma LookupIsSingleLine(seasonKey: string, plantKey: string)
    ensures SingleLine(Get(SeasonAdvice, seasonKey, SeasonFallback))
    ensures SingleLine(Get(PlantAdvice, plantKey, PlantFallback))
  {
    TipsAreSingleLines();
  }

  /** Every tip and both fallback texts are single lines. */
  lemma TipsAreSingleLines()
    ensures forall k | k in SeasonAdvice :: SingleLine(SeasonAdvice[k])
    ensures forall k | k in PlantAdvice :: SingleLine(PlantAdvice[k])
    ensures SingleLine(SeasonFallback) && SingleLine(PlantFallback)
  {
    SummerTipIsOneLine();
    WinterTipIsOneLine();
    SpringTipIsOneLine();
    AutumnTipIsOneLine();
    FlowerTipIsOneLine();
    VegetableTipIsOneLine();
    SucculentTipIsOneLine();
    SeasonFallbackIsOneLine();
    PlantFallbackIsOneLine();
  }

  // One lemma per text, so that each proof looks at one short text only
  // and stays cheap.
  lemma SummerTipIsOneLine() ensures SingleLine(SummerTip) {}
  lemma WinterTipIsOneLine() ensures SingleLine(WinterTip) {}
  lemma SpringTipIsOneLine() ensures SingleLine(SpringTip) {}
  lemma AutumnTipIsOneLine() ensures SingleLine(AutumnTip) {}
  lemma FlowerTipIsOneLine() ensures SingleLine(FlowerTip) {}
  lemma VegetableTipIsOneLine() ensures SingleLine(VegetableTip) {}
  lemma SucculentTipIsOneLine() ensures SingleLine(SucculentTip) {}
  lemma SeasonFallbackIsOneLine() ensures SingleLine(SeasonFallback) {}
  lemma PlantFallbackIsOneLine() ensures SingleLine(PlantFallback) {}

  /** A trimmed string without upper-case letters is its own normal form. */
  lemma NormalFormIsFixed(t: string)
    requires Trimmed(t) && NoUpper(t)
    ensures Normalise(Some(t)) == t
  {
    StripTrimmed(t);
    LowerNoUpper(t);
  }

  /** Normalising twice is the same as normalising once. */
  lemma NormaliseIdempotent(s: Option<string>)
    ensures Normalise(Some(Normalise(s))) == Normalise(s)
  {
    NormalFormIsFixed(Normalise(s));
  }

  /** The contract of `Normalise` determines its result: the only trimmed
      string that the lower-cased input pads with whitespace. */
  lemma NormaliseUnique(s: Option<string>, t: string)
    requires Trimmed(t) && SpacePadded(Lower(OrEmpty(s)), t)
    ensures t == Normalise(s)
  {
    StripUnique(Lower(OrEmpty(s)), t);
    LowerStripCommute(OrEmpty(s));
  }

  /** Surrounding whitespace and ASCII case make no difference to the key. */
  lemma NormaliseIgnoresPaddingAndCase(p: string, a: string, q: string, b: string)
    requires AllSpace(p) && AllSpace(q) && EqualIgnoringCase(a, b)
    ensures Normalise(Some(p + a + q)) == Normalise(Some(b))
  {
    StripIgnoresPadding(p, a, q);
    LowerStripCommute(a);
    LowerStripCommute(b);
    LowerEqualIff(a, b);
  }

  /** Inputs that normalise alike get the same advice. */
  lemma GetAdviceAgnostic(s1: Option<string>, s2: Option<string>, p1: Option<string>, p2: Option<string>)
    requires Normalise(s1) == Normalise(s2) && Normalise(p1) == Normalise(p2)
    ensures GetAdvice(s1, p1) == GetAdvice(s2, p2)
  {
  }

  /** The season line depends only on the season and the plant line only on
      the plant type. */
  lemma LinesIndependent(s1: Option<string>, s2: Option<string>, p1: Option<string>, p2: Option<string>)
    ensures Split(GetAdvice(s1, p1), NewLine)[0] == Split(GetAdvice(s1, p2), NewLine)[0]
    ensures Split(GetAdvice(s1, p1), NewLine)[1] == Split(GetAdvice(s2, p1), NewLine)[1]
  {
  }

  /** The first line is a season tip exactly when the season is recognised,
      and the second line a plant tip exactly when the plant type is. */
  lemma RecognisedIff(season: Option<string>, plantType: Option<string>)
    ensures Split(GetAdvice(season, plantType), NewLine)[0] in SeasonAdvice.Values
            <==> Normalise(season) in SeasonAdvice
    ensures Split(GetAdvice(season, plantType), NewLine)[1] in PlantAdvice.Values
            <==> Normalise(plantType) in PlantAdvice
  {
    FallbacksAreNotTips();
  }

  /** A fallback text never coincides with a tip, so the reader can tell a
      miss from a hit. */
  lemma FallbacksAreNotTips()
    ensures SeasonFallback !in SeasonAdvice.Values
    ensures PlantFallback !in PlantAdvice.Values
  {
  }

  /** Every table key is already in normal form. */
  lemma KeysAreNormalForms()
    ensures forall k | k in SeasonAdvice :: Trimmed(k) && NoUpper(k)
    ensures forall k | k in PlantAdvice :: Trimmed(k) && NoUpper(k)
  {
  }

  /** Typing a key exactly as the table spells it yields that key's tips, so
      every tip can be reached. */
  lemma AdviceForKeys(season: string, plantType: string)
    requires season in SeasonAdvice && plantType in PlantAdvice
    ensures GetAdvice(Some(season), Some(plantType)) ==
            SeasonAdvice[season] + [NewLine] + PlantAdvice[plantType]
  {
    KeysAreNormalForms();
    NormalFormIsFixed(season);
    NormalFormIsFixed(plantType);
  }

  /** Absent, empty or whitespace-only inputs are accepted and get both
      fallback lines. */
  lemma BlankInputsFallBack(season: Option<string>, plantType: Option<string>)
    requires AllSpace(OrEmpty(season)) && AllSpace(OrEmpty(plantType))
    ensures Split(GetAdvice(season, plantType), NewLine)[0] == SeasonFallback
    ensures Split(GetAdvice(season, plantType), NewLine)[1] == PlantFallback
  {
    BlankNormalisesToEmpty(season);
    BlankNormalisesToEmpty(plantType);
    EmptyIsNotAKey();
  }

  /** No table has the empty key, so blank input always misses. */
  lemma EmptyIsNotAKey()
    ensures "" !in SeasonAdvice && "" !in PlantAdvice
  {
  }

  /** Input that is absent or only whitespace normalises to the empty key. */
  lemma BlankNormalisesToEmpty(s: Option<string>)
    requires AllSpace(OrEmpty(s))
    ensures Normalise(s) == ""
  {
    var l := Lower(OrEmpty(s));
    assert AllSpace(l);
    assert l[0..0] == "" && l[..0] == "" && l[0..] == l;
    NormaliseUnique(s, "");
  }

  /** For instance, `"  SUMMER "` normalises to the same key as `"summer"`. */
  lemma MixedCaseSeasonExample()
    ensures Normalise(Some("  SUMMER ")) == Normalise(Some("summer"))
  {
    assert "  " + "SUMMER" + " " == "  SUMMER ";
    NormaliseIgnoresPaddingAndCase("  ", "SUMMER", " ", "summer");
  }

  /** For instance, `" Flower "` normalises to the same key as `"flower"`. */
  lemma MixedCasePlantExample()
    ensures Normalise(Some(" Flower ")) == Normalise(Some("flower"))
  {
    assert " " + "Flower" + " " == " Flower ";
    NormaliseIgnoresPaddingAndCase(" ", "Flower", " ", "flower");
  }

  /** For instance, the padded mixed-case inputs `"  SUMMER "` and `" Flower "`
      get exactly the advice of `"summer"` and `"flower"`, since the lookup is
      case- and space-agnostic. */
  lemma MixedCaseAdviceExample()
    ensures GetAdvice(Some("  SUMMER "), Some(" Flower ")) == GetAdvice(Some("summer"), Some("flower"))
  {
    MixedCaseSeasonExample();
    MixedCasePlantExample();
    GetAdviceAgnostic(Some("  SUMMER "), Some("summer"), Some(" Flower "), Some("flower"));
  }
}
