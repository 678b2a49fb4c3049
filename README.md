# Uzbek Cyrillic-to-Latin normaliser and ASCII projection

This project models the text-processing core of a small translation
endpoint. The endpoint asks an external chat-completion service to
translate text into Uzbek (Latin). It then normalises the reply with
three pure string functions from `api/translate.ts`, and the model
covers those three:

- `unifyApostrophe` turns the four apostrophe look-alikes U+2018, U+2019,
  U+02BC and U+02BB into the ASCII apostrophe.
- `cyrToLatin` converts Uzbek Cyrillic to Uzbek Latin in four stages:
  - a chain of global replacements for the letters spelt with two Latin
    letters (Ч, Ш, Ю, Я, Ё in both cases);
  - a one-letter table applied with `split('').map(...).join('')`;
  - a clean-up of `o`/`g` followed by a modifier mark;
  - `unifyApostrophe`.
- `toAsciiUzbek` projects Latin text onto printable ASCII. It unifies
  apostrophes, folds Turkish letters and acute vowels, repeats the o/g
  clean-up, and replaces every UTF-16 code unit outside U+0020–U+007E
  with `?`.

The model is split into four modules:

- `Text` (`text.dfy`) holds the JavaScript string operations the
  functions are built from:
  - `replace` with a global one-unit pattern, a character class or a
    two-unit pattern;
  - per-character mapping;
  - a chain of replacements.

  Its main theorem is `ReplaceEachIsPerChar`: a chain whose rules
  rewrite non-ASCII characters into printable ASCII is one
  per-character pass.
- `Apostrophe` (`apostrophe.dfy`) is `unifyApostrophe`.
- `Transliteration` (`transliteration.dfy`) is `cyrToLatin`. The source's
  tables are written as `match` functions; `DigraphTable` ties the
  replacement chain to its table.
- `AsciiProjection` (`ascii_projection.dfy`) is `toAsciiUzbek`, with a
  per-character reference `AsciiOf` and the proof that the whole
  projection equals it.

A Dafny `char` stands for one character of the JavaScript string. The
code points of every table, pattern and replacement lie below U+10000, so
they are one UTF-16 code unit each. Only the final mask of `toAsciiUzbek`
sees the difference: its regular expression has no `u` flag, so it
replaces each code unit. A character above U+FFFF therefore becomes `??`,
and the model does the same.

Notes on the code:

- `Ц` and `Щ` are in the one-letter table, not in the two-letter chain.
  `LetterStagesPerChar` proves that the chain followed by the one-letter
  map, as the code arranges them, is a single per-character pass with the
  combined table `Translit`.
- The apostrophe every stage produces is the ASCII `'` (U+0027), not
  `ʻ`: `Ғ` becomes `G'`, and the clean-up writes `o'` and `g'`.
- The o/g clean-up matches either case of the letter, but its replacement
  is always lower case, so `Oʻ` becomes `o'`.

## Model

| member | source | states |
|---|---|---|
| Text.FlatMap | api/translate.ts:52 | `split('').map(f).join('')`; it has no contract of its own: `FlatMapAppend`, `FlatMapPointwise`, `FlatMapCompose` and `FlatMapOrigin` state how it behaves |
| Text.ReplaceAll | api/translate.ts:25-29 | `replace(/c/g, to)`: when `to` does not contain `c`, no `c` is left; text without `c` is returned unchanged |
| Text.ReplaceAny | api/translate.ts:15 | `replace(/[...]/g, to)`: every output character is an input character outside the class or a character of `to` |
| Text.ReplacePair | api/translate.ts:55-56 | `replace(/h[t]/gi, to)` scanning left to right: every output character comes from the input or from `to` |
| Text.ReplacePairCopy | api/translate.ts:55-56 | a leading character that is no head, or is not followed by a tail, is copied and the scan goes on behind it |
| Text.ReplacePairNoMatch | api/translate.ts:55-56 | with no character of the second class in the text, the two-unit replacement returns the text unchanged |
| Text.ReplaceEach | api/translate.ts:24-29 | the chained `.replace(...)` calls (also lines 64-72); it has no contract of its own: `ReplaceEachIsPerChar` states what a chain does |
| Text.ReplaceEachIsPerChar | api/translate.ts:24-29 | a chain of global replacements, each rewriting a non-ASCII character into printable ASCII, equals one per-character pass with the first matching rule |
| Text.LookupPrintable | api/translate.ts:24-29 | an ASCII character is touched by no rule of such a chain |
| Apostrophe.Unify | api/translate.ts:14-16 | the length is kept; each of U+2018, U+2019, U+02BC, U+02BB becomes `'`, and every other character stays where it was |
| Apostrophe.UnifyRemovesVariants | api/translate.ts:14-16 | no apostrophe variant is left in the output |
| Apostrophe.UnifyFixpoint | api/translate.ts:14-16 | text without a variant is returned unchanged |
| Apostrophe.UnifyIdempotent | api/translate.ts:14-16 | normalising twice is normalising once |
| Apostrophe.UnifyAppend | api/translate.ts:14-16 | normalising a concatenation normalises each part |
| Transliteration.CyrToLatin | api/translate.ts:19-58 | no apostrophe variant is left in the output |
| Transliteration.CyrToLatinStages | api/translate.ts:20 | the early return for empty input gives what the stages give on empty input |
| Transliteration.StagesOfEmpty | api/translate.ts:20-57 | the four stages map the empty text to itself |
| Transliteration.DigraphsSeparated | api/translate.ts:24-29 | each rule of the two-letter chain rewrites a non-ASCII letter into printable ASCII |
| Transliteration.DigraphTable | api/translate.ts:24-29 | on one character, the ten-rule chain gives the digraph table (`Ч`→`Ch`, `ч`→`ch`, …, `ё`→`yo`) and leaves every other character alone |
| Transliteration.DigraphLatin | api/translate.ts:25-29 | every digraph is two printable ASCII characters, for a non-ASCII letter |
| Transliteration.LetterEntry | api/translate.ts:32-50 | the one-letter table; every entry is printable ASCII by its result type, and `LetterKeysNonAscii` states that no key is ASCII |
| Transliteration.Letter | api/translate.ts:52 | `map[ch] ?? ch` for one character; it has no contract of its own: `LetterKeeps` and `SignSpellings` state how it behaves |
| Transliteration.LetterKeysNonAscii | api/translate.ts:32-50 | no key of the one-letter table is ASCII |
| Transliteration.LetterKeeps | api/translate.ts:52 | `map[ch] ?? ch` keeps a character the table has no entry for |
| Transliteration.TranslitCases | api/translate.ts:24-52 | each character is either a non-table character that is kept, or becomes printable ASCII |
| Transliteration.LetterAfterDigraph | api/translate.ts:24-52 | the one-letter map leaves a digraph's Latin output untouched, and otherwise looks the character up itself |
| Transliteration.LetterStages | api/translate.ts:24-52 | the digraph chain followed by the one-letter map; it has no contract of its own: `LetterStagesPerChar` states what it does |
| Transliteration.LetterStagesPerChar | api/translate.ts:24-52 | the digraph chain followed by the one-letter map is a single per-character pass with the combined table |
| Transliteration.DigraphSpellings | api/translate.ts:25-29 | `Ч`→`Ch`, `ч`→`ch`, `Ш`→`Sh`, `Ю`→`Yu`, `Я`→`Ya`, `Ё`→`Yo` |
| Transliteration.UzbekSpellings | api/translate.ts:32-50 | `Ц`→`Ts`, `Щ`→`Sh`, `Ғ`→`G'`, `Ў`→`O'` |
| Transliteration.SignSpellings | api/translate.ts:32-52 | `Ъ`/`ъ`→`'`, `Ь`/`ь` are deleted, and `Ы`, in neither table, is kept |
| Transliteration.TranslitPreservesCase | api/translate.ts:24-50 | each capital in the tables is spelt with a capital A–Z first, unless it is a sign (spelt `'` or deleted); its lower-case partner is also in the tables and is spelt the same with A–Z lowered |
| Transliteration.ModifierCleanup | api/translate.ts:55-56 | every character of the o/g clean-up's output is a character of its input or one of `o`, `g`, `'`; text without a modifier mark is returned unchanged |
| Transliteration.NoTableLetterLeft | api/translate.ts:19-58 | no letter of either table is left in the output |
| Transliteration.LatinFixpoint | api/translate.ts:19-58 | text with no table letter and no apostrophe variant is returned unchanged |
| Transliteration.CyrToLatinIdempotent | api/translate.ts:19-58 | transliterating twice is transliterating once |
| Transliteration.TranslitKeeps | api/translate.ts:24-52 | ASCII characters and the two modifier marks pass the first two stages unchanged |
| Transliteration.LetterStagesPair | api/translate.ts:24-52 | an ASCII letter followed by a modifier mark passes the first two stages unchanged, in front of the rest |
| Transliteration.CleanupOPair | api/translate.ts:55-56 | `o` or `O` followed by a modifier mark becomes `o'`, and the clean-up goes on behind the pair |
| Transliteration.CleanupGPair | api/translate.ts:55-56 | `g` or `G` followed by a modifier mark becomes `g'`, and the clean-up goes on behind the pair |
| Transliteration.OModifier | api/translate.ts:55 | `o` or `O` followed by U+02BB or U+02BC comes out as `o'`, and the rest is transliterated on its own |
| Transliteration.GModifier | api/translate.ts:56 | `g` or `G` followed by U+02BB or U+02BC comes out as `g'`, and the rest is transliterated on its own |
| Transliteration.CapitalOLosesCase | api/translate.ts:55 | `O` followed by U+02BB and Latin text comes out as lower-case `o'` followed by that text |
| Transliteration.ChulExample | api/translate.ts:19-58 | `Чўл` becomes `Cho'l` |
| Transliteration.SalomExample | api/translate.ts:19-58 | `Salom, do'stim!` is returned unchanged |
| AsciiProjection.MaskChar | api/translate.ts:76 | the replacement for one character is printable ASCII |
| AsciiProjection.Mask | api/translate.ts:76 | after the mask the text is printable ASCII |
| AsciiProjection.ToAscii | api/translate.ts:61-78 | the output is printable ASCII (U+0020–U+007E) for every input |
| AsciiProjection.FoldsSeparated | api/translate.ts:64-72 | each fold rewrites a non-ASCII letter into printable ASCII |
| AsciiProjection.FoldTable | api/translate.ts:64-72 | on one character, the eighteen-rule fold chain gives the fold table (`ç`→`ch`, `Ş`→`Sh`, `ğ`→`g`, `İ`→`I`, `á`→`a`, `Ó`→`O`, …) and leaves every other character alone |
| AsciiProjection.FoldLatin | api/translate.ts:64-72 | no folded letter is ASCII or an apostrophe variant, and every fold is printable ASCII |
| AsciiProjection.UnifyFoldPerChar | api/translate.ts:63-72 | unification followed by the fold chain is one per-character pass |
| AsciiProjection.UnifyFoldNoModifier | api/translate.ts:63-72 | no modifier mark survives unification and folding |
| AsciiProjection.Folded | api/translate.ts:63-74 | unification, the fold chain and the repeated clean-up; it has no contract of its own: `CleanupNeverMatches` and `UnifyFoldPerChar` state what it does |
| AsciiProjection.CleanupNeverMatches | api/translate.ts:73-74 | the repeated o/g clean-up never changes anything, because unification has already removed the modifier marks |
| AsciiProjection.MaskAfterFold | api/translate.ts:63-76 | masking a character's folded image gives the per-character reference |
| AsciiProjection.ToAsciiPerChar | api/translate.ts:61-77 | the projection equals the per-character reference: variant→`'`, folded letter→its spelling, printable→itself, other BMP character→`?`, above U+FFFF→`??` |
| AsciiProjection.ToAsciiAppend | api/translate.ts:61-77 | projecting a concatenation projects each part |
| AsciiProjection.AsciiOfPrintable | api/translate.ts:76 | a printable character is its own projection |
| AsciiProjection.PrintableUnchanged | api/translate.ts:61-77 | printable ASCII input is returned unchanged |
| AsciiProjection.ToAsciiIdempotent | api/translate.ts:61-77 | projecting twice is projecting once |
| AsciiProjection.ToAsciiChar | api/translate.ts:61-77 | a one-character text is projected to that character's reference entry |
| AsciiProjection.VariantsBecomeApostrophe | api/translate.ts:63 | each apostrophe variant becomes `'`, not `?` |
| AsciiProjection.FoldedLetter | api/translate.ts:64-72 | each folded letter becomes its ASCII spelling |
| AsciiProjection.MaskedChar | api/translate.ts:76 | any other BMP character outside U+0020–U+007E, including line breaks, tabs, DEL and Cyrillic letters, becomes one `?` |
| AsciiProjection.MaskedAstral | api/translate.ts:76 | a character above U+FFFF, two UTF-16 code units, becomes `??` |

## Left out

- The request handler is not modelled. That covers its CORS headers,
  method, token and body checks, environment configuration, the calls to
  the chat-completion service, the pass-through proxy mode and the JSON
  response. All of it is I/O around the core.
- `toBase64Utf8` is not modelled. It encodes bytes for the response and
  is outside the normalisation core.
- `null` and `undefined` inputs are not modelled. The sources guard them
  with `s?.` and `if (!s)`; the model's inputs are always strings, and the
  empty string is handled as the source handles it.
- Lone UTF-16 surrogates cannot be represented: a Dafny `char` is a Unicode
  scalar value. Every character above U+FFFF is one `char` and is treated
  as two code units only where the source's behaviour depends on it, in
  the final mask.
- Unicode normalisation is not modelled, because the source does none. A
  decomposed `ç` (`c` followed by U+0327) is not folded: the combining
  mark is masked like any other non-ASCII unit.
- Transliteration.TranslitPreservesCase: case preservation is stated per
  character, for the capitals of the two tables. It is not stated for
  whole strings, and it does not cover the o/g clean-up, which does not
  preserve case.
