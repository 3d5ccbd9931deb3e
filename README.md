# Latin-to-Pegon conversion, modelled in Dafny

This project models the conversion engine of the `PegonTranslator` class in
`script.js`. The engine turns Latin-script Indonesian/Javanese text into Pegon,
the Arabic-derived script. It runs in these stages:

- A context pre-pass (`specialRules`). Ten digraphs (ng, ny, sy, kh, ch, dz,
  th, dh, gh, ph) become a single Arabic or Pegon glyph where a lower-case
  vowel follows directly.
- A left-to-right scan (`convertToPegon`'s `while` loop). At each position it
  tries a 3-character, then a 2-character, then a 1-character key of the glyph
  table `latinToPegonMap`. Unmapped characters pass through, except that
  `. , ? ;` become their Arabic forms.
- Two post-passes. `handleVowelPatterns` is the identity. `formatWords` turns
  every run of whitespace into a single space.
- An optional harakah pass (`addHarakah`), run when the `showHarakah` switch is
  on. It is seven regular-expression replaces. Each one puts a fatha, kasra,
  damma or sukun after a consonant.
- The predicate `containsArabicScript`.

Modules, one per stage:

| file | module | contents |
|---|---|---|
| `glyphs.dfy` | `Glyphs` | the glyph table as `Lookup`/`SingleGlyph`/`PairGlyph`, the punctuation map, the context rules and the character classes of the regular expressions |
| `prepass.dfy` | `PrePass` | the context rules as left-to-right scans (`ReplaceBeforeVowel`, `ApplyRules`) |
| `segmenter.dfy` | `Segmenter` | `Scan`, the function the scan loop is proved against, and `Segments`, the pieces each iteration consumes |
| `format.dfy` | `Format` | `HandleVowelPatterns` and `FormatWords` |
| `harakah.dfy` | `Harakah` | the seven replaces (`Replace`, `HarakahRules`) and a single-pass reference (`HarakahMark`, `WithHarakah`) |
| `translator.dfy` | `Translator` | the class `PegonTranslator` with its `showHarakah` field and the imperative `ConvertToPegon` and `AddHarakah`; `Convert`, the conversion as a function; `ContainsArabicScript` |

How the model is written:

- Each global `String.replace` with a regular expression is modelled as a
  left-to-right scan. When the pattern matches at the head, the scan emits the
  replacement and skips the consumed characters; otherwise it copies one
  character. A lookahead is a predicate on the rest of the text.
- `ConvertToPegon` keeps the source's shape: a loop over the context rules,
  then the `while` loop with its three branches; the single-character branch
  is the method `SingleCharacterBranch`. The method is proved to return
  `Convert(text, showHarakah)`.
- `AddHarakah` runs the seven replaces of `HarakahRules` in source order, one
  per iteration of a loop over that table; the source writes the seven calls
  out one after another. It is proved to return `WithHarakah(text)`, a single
  pass whose every mark is decided on the text before the pass.
- `script.js` has no whole-word lexicon, no vowel resolver and no
  word-initial vowel carrier, and the model adds none.

## Model

| member | source | states |
|---|---|---|
| Glyphs.Lookup | script.js:6-112 | the glyph table as a partial map: a key found has one or two characters and maps to one to three glyphs |
| Glyphs.SingleGlyph | script.js:6-112 | the one-character entries: only an ASCII letter or digit has one, and its glyph is a single character |
| Glyphs.PairGlyph | script.js:6-112 | the two-character entries: both characters of a key are ASCII letters or digits, and the value has one to three glyphs |
| Glyphs.NoThreeCharacterKey | script.js:6-112 | the table has no 3-character key, so the 3-character lookup of the scan never succeeds |
| Glyphs.DoubledIsShadda | script.js:28-43 | every doubled-consonant key maps to the single consonant's glyph followed by shadda, and that glyph is one of the consonants the harakah pass knows |
| Glyphs.DigitsAreEastern | script.js:64-74 | digit d maps to the Eastern Arabic-Indic digit U+0660 + d |
| Glyphs.GlyphsAreArabic | script.js:6-112 | every table value is non-empty and lies entirely in the Arabic blocks that `containsArabicScript` tests |
| Glyphs.NonAsciiNotInAnyKey | script.js:6-112 | no non-ASCII character occurs in any key, alone or in a pair |
| Glyphs.RuleGlyphsAreNotKeyChars | script.js:115-126 | each replacement glyph of the context rules occurs in no table key and is not scanner punctuation, a space or a digit |
| PrePass.SpecialRulesWellFormed | script.js:115-126 | every digraph starts with a consonant and has two different letters, no glyph is a vowel or a letter of its digraph, and the ten glyphs are pairwise distinct |
| PrePass.ReplaceBeforeVowel | script.js:270 | one rule's global replace of the digraph followed by a vowel, scanning left to right: the text never grows |
| PrePass.ApplyRules | script.js:269-271 | the rules applied one after another, in table order: the text never grows |
| PrePass.ApplySpecialRules | script.js:269-271 | the pre-pass over the ten context rules: the text never grows |
| PrePass.ReplaceHead | script.js:270 | proof step: one rule's replace starts with the rule's glyph where the rule matches at the start, and with the first character otherwise |
| PrePass.ReplaceCharacters | script.js:270 | a replace introduces no character other than the rule's glyph |
| PrePass.ExpandReplace | script.js:270 | expanding the glyph back to its digraph undoes one replace, provided the glyph did not already occur |
| PrePass.ApplyRulesCharacters | script.js:269-271 | every character of the pre-pass output comes from the input or is a rule's glyph |
| PrePass.ExpandRulesRoundTrip | script.js:269-271 | expanding the rules in reverse order restores the input, provided the glyphs are distinct and absent from it |
| PrePass.ApplySpecialRulesRoundTrip | script.js:269-271 | the pre-pass loses nothing: on text without the ten glyphs, expanding them back in reverse rule order gives the text |
| PrePass.ReplaceWithoutDigraph | script.js:116-125 | a rule leaves unchanged any text that lacks the second letter of its digraph |
| PrePass.ApplyRulesWithoutDigraphs | script.js:269-271 | text without any rule's second letter passes the whole pre-pass unchanged |
| PrePass.ReplaceShort | script.js:270 | text of fewer than three characters passes one rule's replace unchanged, since a match needs the digraph and a following vowel |
| PrePass.ApplyRulesShort | script.js:269-271 | text of fewer than three characters passes the whole pre-pass unchanged, whichever letters it holds |
| PrePass.GlyphOnlyBeforeVowel | script.js:116-125 | every glyph a rule inserts is directly followed by a, e, i, o or u |
| PrePass.NoMatchRemains | script.js:116-125 | after a rule's replace, the digraph followed by a vowel no longer occurs anywhere |
| Segmenter.Single | script.js:305-363 | what the single-character branch emits for one character: always exactly one character |
| Segmenter.Scan | script.js:281-367 | the output the scan loop builds, as a function: empty exactly when the input is empty |
| Segmenter.ScanLength | script.js:281-367 | each iteration consumes one or two characters and emits one to three, so the output is at least half and at most twice as long as the input |
| Segmenter.MatchLength | script.js:284-306 | one iteration consumes 1, 2 or 3 characters and never runs past the end, and it consumes more than one only when those characters are a table key |
| Segmenter.ScanAdvance | script.js:281-366 | proof step: at position i, what the 3-, 2- or 1-character branch appends, followed by the scan of what it leaves, is the scan of the text from i |
| Segmenter.LongestMatch | script.js:284-302 | the scan takes a 2-character key exactly when the first two characters form one, and it never takes three characters |
| Segmenter.Segments | script.js:281-366 | the consumed pieces concatenate to the input, so every character is consumed exactly once; each piece has 1 or 2 characters; a 2-character piece is a key; a 1-character piece never forms a key with the next character |
| Segmenter.ScanEmitsSegments | script.js:281-366 | the scan output is the concatenation of what each consumed piece emits |
| Segmenter.SingleCharacter | script.js:305-363 | a character with no table entry is emitted unchanged, except that `.` `,` `?` `;` become U+06D4, U+060C, U+061F, U+061B; digits go through the table, so the Latin-digit branch is never reached |
| Segmenter.ScanWithoutPairs | script.js:305-365 | where no two neighbouring characters form a key, the scan emits each character's single-character output in turn |
| Segmenter.Gemination | script.js:295-302 | a doubled consonant is consumed as one unit and yields its glyph plus shadda, never two glyphs |
| Segmenter.ScanSplitsAt | script.js:360-362 | a character in no key and outside the punctuation class is copied unchanged, and the text on each side of it is scanned on its own (this is how the pre-pass glyphs reach the output) |
| Format.HandleVowelPatterns | script.js:429-441 | `handleVowelPatterns` returns its input |
| Format.DropSpaces | script.js:390 | a maximal whitespace run is removed from the front: the result is a suffix that does not start with whitespace, and everything removed is whitespace |
| Format.FormatWords | script.js:384-391 | the output is never longer than the input, and it is empty only for empty input; its first character is whitespace exactly when the input's is |
| Format.FormatWordsCollapsed | script.js:390 | the output has no whitespace other than a plain space, and no two adjacent whitespace characters |
| Format.FormatWordsKeepsVisible | script.js:390 | all non-whitespace characters are kept, in order |
| Format.FormatWordsFixesCollapsed | script.js:390 | collapsed text is left unchanged |
| Format.FormatWordsIdempotent | script.js:384-391 | applying `formatWords` twice equals applying it once |
| Format.FormatWordsCollapsesRun | script.js:390 | a whitespace run between two visible characters becomes exactly one space, and the text on either side is formatted on its own |
| Harakah.Replace | script.js:408-423 | one of the seven global replaces, scanning left to right and inserting the rule's mark after each consonant whose lookahead holds: the text keeps its length or grows, at most to twice |
| Harakah.HarakahMark | script.js:406-423 | the reference mark for the consonant at the head: only a consonant followed by another character gets one, and it is a single harakah mark |
| Harakah.ReplaceSkipsMark | script.js:408-423 | proof step: no replace matches at a harakah mark |
| Harakah.FiresOnAnnotated | script.js:408-423 | proof step: at a position earlier replaces left unmarked, a replace matches in the partly marked text exactly where it matches in the original |
| Harakah.ReplaceStep | script.js:408-423 | proof step: one more replace on the output of the earlier replaces equals marking by the earlier rules followed by this one |
| Harakah.HarakahStep | script.js:408-423 | proof step: the k-th replace of `addHarakah` extends the marking by the first k rules to the first k + 1 |
| Harakah.RulesMarkAsReference | script.js:406-423 | the seven replaces together mark a consonant as the reference does: a consonant followed by alif, ya or waw gets fatha, kasra or damma exactly when that letter is not followed by alif (the two lookaheads of each pair cover every other case, end included), and sukun goes exactly before a letter in U+0628–U+064A other than waw and ya |
| Harakah.AnnotatedAsReference | script.js:394-426 | the seven replaces in sequence equal the single-pass reference `WithHarakah` |
| Harakah.SukunOnlyBeforeLetter | script.js:421-423 | a sukun is never placed at the end, before whitespace or punctuation, or where a harakah mark, shadda, alif, waw or ya follows |
| Harakah.NoSukunBeforePegonLetters | script.js:423 | a consonant followed by the Pegon letters pa, ga, nga, nya or ca gets no sukun, since they lie outside U+0628–U+064A; a consonant followed by ba does get one |
| Harakah.VowelMarkPlacement | script.js:406-419 | a vowel mark follows a consonant and matches the next letter (fatha for alif, kasra for ya, damma for waw), and that letter is not followed by alif |
| Harakah.OnlyInsertsMarks | script.js:394-426 | the pass only inserts marks: with all harakah marks removed, output and input agree, so the base letters and their order are unchanged |
| Harakah.WithHarakahIdempotent | script.js:394-426 | a second harakah pass adds nothing |
| Harakah.WithHarakahKeepsCollapsed | script.js:394-426 | the pass inserts no whitespace, so collapsed text stays collapsed |
| Translator.Convert | script.js:264-381 | the whole conversion as a function (pre-pass, scan, `handleVowelPatterns`, `formatWords`, and the harakah pass when the switch is on): the output never has two adjacent whitespace characters, with harakah on or off |
| Translator.ContainsArabicScript | script.js:181-184 | true exactly when some character lies in U+0600–06FF, U+0750–077F, U+08A0–08FF, U+FB50–FDFF or U+FE70–FEFF |
| Translator.PegonTranslator.constructor | script.js:137 | a new translator starts with harakah switched off |
| Translator.PegonTranslator.SetShowHarakah | script.js:157-158 | the toggle's handler sets the switch to the checkbox state |
| Translator.PegonTranslator.ConvertToPegon | script.js:264-381 | the pre-pass loop, the scan loop and the post-passes return `Convert(text, showHarakah)`: the harakah pass applies exactly when the switch is on, and otherwise the output is `formatWords` of the scan output |
| Translator.PegonTranslator.SingleCharacterBranch | script.js:305-363 | the single-character branch of the scan loop returns `Single(c)` |
| Translator.PegonTranslator.AddHarakah | script.js:394-426 | the seven replaces, applied in source order, return the single-pass reference `WithHarakah(text)` |
| Translator.HarakahOnlyAddsMarks | script.js:376-378 | with the harakah marks removed, the outputs with the switch on and off are equal |
| Translator.HarakahOutputIsStable | script.js:376-378 | running `addHarakah` again on an output produced with harakah on changes nothing |
| Translator.ScanOfKeyIsArabic | script.js:284-308 | when text starts with a table key, its scan contains Arabic script |
| Translator.ConvertEmpty | script.js:264-381 | empty text converts to empty text, with harakah on or off |
| Translator.ConvertSingleKey | script.js:264-381 | a single letter or digit with a table entry converts to exactly its table glyph, with harakah on or off |
| Translator.ConvertDoubled | script.js:295-302 | "mm" converts to mim followed by shadda |
| Translator.ConvertSyllable | script.js:264-381 | "ba" converts to ba, alif; with harakah on it converts to ba, fatha, alif |

## Left out

- The browser side of `translate()`: the trimmed-input check, the placeholder
  message for empty input, the loading message, the 300 ms `setTimeout`, the
  right-to-left styling and the error message (script.js:233-261). The
  lower-casing at script.js:245 happens in the caller. The model takes any text
  and keeps the table's upper-case keys, so it covers both lower-cased and raw
  input.
- DOM wiring in `init` and the toggle's re-translation. `SetShowHarakah` models
  only the stored setting.
- Timers and DOM, clipboard and file I/O: `debounce`, both
  `setupAutoTranslate` definitions, `updateCharacterCount`, `clearInput`,
  `clearOutput`, `copyToClipboard`, `downloadTranslation` and the
  `DOMContentLoaded` handler.
- `commonPhrases` (script.js:129-135). It is never read.
- `consonantPattern` (script.js:279, 310-363). It is written but never read,
  and it does not affect the output.
- The tables (`latinToPegonMap`, `specialRules`, `punctMap`) are module
  constants, not instance fields, because the source never changes them.
  `punctMap`'s entries for characters outside the punctuation class are kept
  but are unreachable, as in the source.
- Property lookup on a JavaScript object: every inherited property name is
  longer than three characters, so a lookup with a 1- to 3-character key sees
  exactly the table.
- UTF-16: Dafny `char` is a Unicode scalar value, while JavaScript strings are
  sequences of UTF-16 code units. Every key, glyph and character class here
  lies in the Basic Multilingual Plane. A character outside it only ever passes
  through unchanged and counts as a word boundary in the harakah lookahead, one
  code unit or two. So the output is the same.
- A general regular-expression engine. Each replace is a scan written for its
  own pattern.
