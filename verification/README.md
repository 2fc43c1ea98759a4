# Garden advice resolver in Dafny

The garden advice CLI asks for a season and a plant type and prints a two-line
tip. All of its logic lives in `get_advice` and `_normalise` in
`garden_advice.py`. This project models that logic:

- `SEASON_ADVICE` and `PLANT_ADVICE` become the constant maps
  `GardenAdvice.SeasonAdvice` and `GardenAdvice.PlantAdvice`.
  Their texts and the two fallback texts are character for character those of
  the source, including the em dash (U+2014).
  The texts are written as concatenations of short literals; the characters
  are unchanged.
- `_normalise` becomes `GardenAdvice.Normalise`. Python's `s or ""` is modelled
  with an `Option<string>` input: `None` reads as `""`.
- `str.strip()` and `str.lower()` are modelled in module `Text`, restricted to
  ASCII (see "Left out").
- `"\n".join(lines)` is `Lines.Join`. Its partner `Lines.Split` models Python's
  `str.split("\n")`, which reads the output back into lines, and two round-trip
  lemmas connect the two.
- `get_advice` becomes `GardenAdvice.GetAdvice`. Its contract gives the exact
  two-line shape of the output and says which text each line holds.

Files: `text.dfy` (module `Text`), `lines.dfy` (module `Lines`),
`garden_advice.dfy` (module `GardenAdvice`).

## Model

| member | source | states |
|---|---|---|
| Text.Strip | garden_advice.py:35 | `strip()` returns a string with no whitespace at either end, and the input is that string with only whitespace added on either side |
| Text.StripUnique | garden_advice.py:35 | the contract of `strip()` fixes its result: any trimmed string that the input pads with whitespace equals `Strip` of the input |
| Text.StripTrimmed | garden_advice.py:35 | `strip()` leaves a string that has no surrounding whitespace unchanged |
| Text.StripIgnoresPadding | garden_advice.py:35 | extra whitespace on either side of the input does not change what `strip()` returns |
| Text.Lower | garden_advice.py:35 | `lower()` keeps the length, leaves no upper-case letter, changes each character only by ASCII case, and leaves non-letters alone |
| Text.LowerEqualIff | garden_advice.py:35 | two strings lower-case to the same string exactly when they differ only in ASCII case (both directions) |
| Text.LowerStripCommute | garden_advice.py:35 | lower-casing then stripping gives the same result as stripping then lower-casing |
| Lines.Join | garden_advice.py:49 | `"\n".join(lines)`; its meaning is fixed by its round trips with `Split` (SplitJoin, JoinSplit): splitting the join of break-free lines gives the lines back, and joining the split of any string gives the string back |
| Lines.Split | garden_advice.py:49 | reading a string back into lines gives one more line than it has line breaks, and no line contains a line break |
| Lines.SplitJoin | garden_advice.py:49 | joining lines that contain no line break, then splitting, gives the lines back |
| Lines.JoinSplit | garden_advice.py:49 | splitting any string into lines, then joining with the same separator, gives the string back |
| GardenAdvice.OrEmpty | garden_advice.py:35 | `s or ""`: an absent input and the empty string both read as `""`, and any other string is kept as it is |
| GardenAdvice.Normalise | garden_advice.py:33-35 | the key has no surrounding whitespace and no upper-case letter; it is the lower-cased input without its whitespace padding; an absent input gives `""` |
| GardenAdvice.NormaliseUnique | garden_advice.py:33-35 | the contract of `Normalise` fixes its result: it is the only trimmed string that the lower-cased input pads with whitespace |
| GardenAdvice.NormaliseIdempotent | garden_advice.py:33-35 | normalising a normalised key changes nothing |
| GardenAdvice.NormalFormIsFixed | garden_advice.py:33-35 | a trimmed string without upper-case letters normalises to itself |
| GardenAdvice.NormaliseIgnoresPaddingAndCase | garden_advice.py:33-35 | whitespace padding and ASCII case differences in the input do not change the key |
| GardenAdvice.BlankNormalisesToEmpty | garden_advice.py:35 | an absent, empty or whitespace-only input normalises to the empty key |
| GardenAdvice.Get | garden_advice.py:47-48 | `dict.get(key, default)` returns the key's entry when the key is present, and the default otherwise; that for the two real tables a line is a tip exactly when the key is present follows from RecognisedIff and FallbacksAreNotTips |
| GardenAdvice.GetAdvice | garden_advice.py:38-49 | the output is exactly two lines joined by one line break, with no break at either end; line one is the season's tip if the normalised season is a key and the season fallback otherwise; line two is the same for the plant type |
| GardenAdvice.TwoLines | garden_advice.py:46-49 | two single lines joined by a line break read back as exactly those two lines, with one line break that is neither first nor last |
| GardenAdvice.TipsAreSingleLines | garden_advice.py:18-30 | every tip in both tables, and both fallback texts, is non-empty and has no line break |
| GardenAdvice.LookupIsSingleLine | garden_advice.py:47-48 | whatever the key, each lookup with its fallback gives a single line |
| GardenAdvice.GetAdviceAgnostic | garden_advice.py:43-44 | inputs that normalise alike get the same advice |
| GardenAdvice.LinesIndependent | garden_advice.py:43-48 | the first line depends only on the season and the second only on the plant type |
| GardenAdvice.FallbacksAreNotTips | garden_advice.py:18-30 | neither fallback text is one of its table's tips |
| GardenAdvice.RecognisedIff | garden_advice.py:47-48 | line one is a season tip exactly when the normalised season is a key, and line two is a plant tip exactly when the normalised plant type is a key |
| GardenAdvice.KeysAreNormalForms | garden_advice.py:18-30 | every table key is trimmed and lower-case, so it is its own normal form |
| GardenAdvice.AdviceForKeys | garden_advice.py:38-49 | typing any key as the table spells it gives that key's season tip, a line break, and that key's plant tip, so every tip can be reached |
| GardenAdvice.EmptyIsNotAKey | garden_advice.py:18-30 | the empty string is not a key of either table |
| GardenAdvice.BlankInputsFallBack | garden_advice.py:41-48 | absent, empty or whitespace-only inputs are accepted and give both fallback lines |
| GardenAdvice.MixedCaseSeasonExample | garden_advice.py:9 | the input `"  SUMMER "` normalises to the same key as `"summer"` |
| GardenAdvice.MixedCasePlantExample | garden_advice.py:9 | the input `" Flower "` normalises to the same key as `"flower"` |
| GardenAdvice.MixedCaseAdviceExample | garden_advice.py:9 | the inputs `"  SUMMER "` and `" Flower "` get exactly the same advice as `"summer"` and `"flower"` |

## Left out

- `main` (garden_advice.py:52-61): console prompts, `input()`, `print()` and the `EOFError`/`KeyboardInterrupt` handling are I/O with no logic to verify.
- The `typing.Dict` import and annotations and the `__main__` guard (garden_advice.py:15, garden_advice.py:64-65): language scaffolding with no behaviour.
- Text.Strip: models only ASCII whitespace (tab, line feed, vertical tab, form feed, carriage return, U+001C to U+001F, space). Python's `str.strip()` also strips non-ASCII whitespace such as U+00A0 and U+2028.
- Text.Lower: maps only the ASCII letters A to Z. Python's `str.lower()` also lower-cases non-ASCII letters, and for a few characters it changes the length.
- GardenAdvice.Normalise: inputs are strings or absent, as the `str` annotations at garden_advice.py:33 and garden_advice.py:38 declare. The model does not represent non-string values. In Python, a truthy argument without a `strip` method, such as an int, raises `AttributeError`. A `bytes` argument normalises without error but misses both tables, so it gets both fallback lines.
