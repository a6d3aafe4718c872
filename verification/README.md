# CLDR plural categories and language-tag resolution

This project models the language package of a Go internationalisation
library (`i18n/language/language.go`) in Dafny and proves properties of the
model. The package does three things:

1. It holds a table of built-in languages. Each language has an identifier
   (`ar`, `en`, `pt-BR`, ...), the set of plural categories it declares, and
   a plural function. The plural function maps the integer operands
   `i, v, w, f, t` of a number to a category. The operands are those of
   Unicode Technical Standard #35, Part 3 (Numbers), section "Operands". The
   rules are those of the Unicode CLDR Language Plural Rules.
2. It resolves identifiers. `lookup` trims white space, turns `_` into `-`,
   and falls back by dropping the last `-`-separated subtag. `Parse` scans
   an Accept-Language header or a file name for a candidate identifier.
   `MustParse` fails where `Parse` finds nothing.
3. It lets callers register more languages (`Register`) and classify a
   number in a language (`PluralCategory`).

Layout:

- `wrappers.dfy`: `Option` and `Result`.
- `plural.dfy`: `Category`, `Operands` (naturals `i, v, w, f, t`) and the
  operand-extraction error.
- `rules.dfy`: one rule function per built-in rule, and the `Rule` datatype
  dispatched through one `match` in `Eval`. `Custom(f)` stands for a
  registered language whose plural function is arbitrary. Each rule's
  contract restates the CLDR rule one independent condition per category.
  So each `ensures` checks that the source's branch order picks the category
  CLDR names.
- `text.dfy`: `strings.TrimSpace`, with white space exactly as Go's
  `unicode.IsSpace` defines it. Also `_`-to-`-` replacement, `LastIndex`
  and normalisation.
- `languages.dfy`: `Language`, `NewSet`, the built-in table `Builtin`, the
  registry invariant `WellFormed`, `Register` and `PluralCategory`.
- `tags.dfy`: `Lookup`, `Parse` and `MustParse`, each paired with a
  definition that uses no recursion or scan:
  - `Lookup` answers with the longest registered candidate key.
    `LookupFallback` proves this.
  - `Parse` answers with the first candidate that resolves.
    `ParseResult` states this, and `ParseResultUnique` proves that only one
    answer fits it.
- `examples.dfy`: worked cases over any registry that holds, or lacks, the
  identifiers involved.

The registry is an explicit `map<string, Language>` value. Registering
returns the new map.

`Parse`'s doc comment (language.go:241) says it returns the first
supported language found in its argument. The code does less than that, and
the model follows the code:

- Parsing never tries the text after the last delimiter once any delimiter
  (`,` `;` `.` `/` `\`) has been seen. So `"x,en"` answers nothing even when
  `en` is registered. `"locales/en"` also answers nothing (`ParseIgnoresPathTail`).
- The whole string is looked up only when it holds no delimiter at all.

A language registered under an identifier with surrounding white space or
an `_` can never be found: `lookup` normalises the identifier it is asked
for, not the keys. `LookupAfterRegister` therefore requires a normalised
identifier.

## Model

| member | source | states |
|---|---|---|
| Rules.ArabicRule | i18n/language/language.go:35-56 | zero, one, two exactly for the integers 0, 1, 2; few exactly when w = 0 and i % 100 is 3..10; many exactly when w = 0 and i % 100 >= 11; other exactly for fractions and for i >= 3 with i % 100 in 0..2 |
| Rules.IntegerOneRule | i18n/language/language.go:63-68 | one exactly when i = 1 and v = 0, other otherwise; never another category |
| Rules.NoPluralRule | i18n/language/language.go:77-79 | always other |
| Rules.CzechRule | i18n/language/language.go:86-97 | one for i = 1, few for i in 2..4 (both with v = 0), many exactly when v != 0, other for the remaining integers |
| Rules.DanishRule | i18n/language/language.go:104-109 | one exactly when CLDR's "n = 1 or t != 0 and i = 0,1" holds, written in integer operands; otherwise other |
| Rules.FrenchRule | i18n/language/language.go:140-145 | one exactly when i is 0 or 1, whatever the fraction |
| Rules.LithuanianRule | i18n/language/language.go:185-201 | many exactly when f != 0; one for last digit 1 and few for last digit 2..9, both outside 11..19; other for last digit 0 and for 11..19 |
| Rules.BrazilianPortugueseRule | i18n/language/language.go:220-225 | one exactly for (i = 1, v = 0) or (i = 0, t = 1) |
| Rules.SpanishRule | i18n/language/language.go:232-237 | one exactly for i = 1 with w = 0, so 1.0 is one |
| Rules.Eval | i18n/language/language.go:26 | dispatching through a built-in rule never answers Invalid |
| Rules.IntegerOneFamily | i18n/language/language.go:112-134 | Catalan, Dutch, English, German, Italian and European Portuguese all answer one iff i = 1 and v = 0, and otherwise other |
| Rules.NoPluralFamily | i18n/language/language.go:172-179 | Chinese and Japanese answer other for every operand record |
| Rules.ArabicExamples | i18n/language/language.go:45-53 | 0, 1, 2, 103, 111 give zero, one, two, few, many; 102 gives other, not few; a fraction gives other |
| Rules.LithuanianExamples | i18n/language/language.go:186-200 | a fraction gives many before the integer part is read; 21 one, 22 few, 10 and 11 other; 1.0 (f = 0) is one |
| Languages.NewSet | i18n/language/language.go:304-310 | the set holds exactly the listed categories and no more elements than were listed |
| Languages.Builtin | i18n/language/language.go:30-239 | the fifteen built-in languages, each with the identifier, declared categories and rule of its table entry |
| Languages.ArabicDeclares | i18n/language/language.go:32-34 | every answer of the Arabic rule is among the six categories Arabic declares |
| Languages.CzechDeclares | i18n/language/language.go:83-85 | every answer of the Czech rule is among one, few, many, other |
| Languages.LithuanianDeclares | i18n/language/language.go:182-184 | every answer of the Lithuanian rule is among one, few, many, other |
| Languages.NoPluralLanguagesDeclare | i18n/language/language.go:74-76 | Chinese and Japanese declare the only category their rule returns |
| Languages.OneOtherLanguagesDeclare | i18n/language/language.go:124-127 | the ten one/other languages declare every answer of their rules |
| Languages.BuiltinWellFormed | i18n/language/language.go:30-239 | every built-in entry is filed under its own identifier, and no built-in rule returns a category its language does not declare |
| Languages.Register | i18n/language/language.go:286-288 | afterwards the identifier maps to the new language, the key set grows by at most that identifier, and every other entry is unchanged |
| Languages.RegisterPreservesWellFormed | i18n/language/language.go:286-288 | registering a language that declares its rule's answers keeps the registry well formed |
| Languages.RegisterLastWriteWins | i18n/language/language.go:286-288 | a second registration under the same identifier leaves no trace of the first |
| Languages.PluralCategory | i18n/language/language.go:292-298 | a failed operand extraction gives Invalid with that error; otherwise no error and the rule's category, which is a declared one for a well-formed language; for a built-in rule Invalid comes only with an error |
| Text.IsSpace | i18n/language/language.go:274 | white space is exactly what Go's `unicode.IsSpace` accepts, which `strings.TrimSpace` drops: tab to carriage return, space, U+0085, U+00A0 and the White_Space code points above Latin-1 |
| Text.TrimSpace | i18n/language/language.go:274 | the result is a slice of the input, only white space lies before and after it, and it has no white space at either end |
| Text.TrimSpaceUnique | i18n/language/language.go:274 | any slice with only white space around it and none at its own ends is the trimmed string, so trimming is fully determined |
| Text.TrimLeft | i18n/language/language.go:274 | the result is a suffix of the input, everything dropped is white space, and it does not start with white space |
| Text.TrimRight | i18n/language/language.go:274 | the result is a prefix of the input, everything dropped is white space, and it does not end with white space |
| Text.ReplaceUnderscores | i18n/language/language.go:275 | same length; each `_` becomes `-`, every other character stays in place |
| Text.LastIndex | i18n/language/language.go:279 | the answer holds the character and none follows it; no answer exactly when the character does not occur |
| Text.LastIndexAt | i18n/language/language.go:279 | an occurrence with none after it is the answer |
| Text.Normalize | i18n/language/language.go:274-275 | the result is no longer than the input, has no `_`, and has no white space at either end |
| Text.NormalizeSlice | i18n/language/language.go:274-275 | the normal form is a slice of the input with each `_` turned into `-`, and only white space lies around that slice |
| Text.NormalizeFixesNormalized | i18n/language/language.go:274-275 | normalising is idempotent |
| Text.NormalizePrefix | i18n/language/language.go:279-280 | re-normalising the part before a `-` only trims trailing white space |
| Tags.Lookup | i18n/language/language.go:273-283 | an exact match after normalisation wins; any answer is some registered language |
| Tags.LookupFallback | i18n/language/language.go:273-283 | an answer exists iff some candidate key is registered; a candidate key is the whole normalised identifier or its part before a `-`, right-trimmed; the answer is the language of the longest registered candidate |
| Tags.LookupExact | i18n/language/language.go:276-278 | a registered normalised identifier resolves to its own entry |
| Tags.LookupDropsLastSubtag | i18n/language/language.go:279-281 | an unregistered normalised identifier resolves as its part before the last `-` does |
| Tags.LookupGivesUp | i18n/language/language.go:279-282 | an unregistered normalised identifier without `-` resolves to nothing |
| Tags.LookupIgnoresSpelling | i18n/language/language.go:274-275 | an identifier and its normal form resolve alike |
| Tags.LookupAfterRegister | i18n/language/language.go:286-288 | after registering a language under a normalised identifier, looking that identifier up finds exactly that language |
| Tags.LookupFindsDeclaringLanguage | i18n/language/language.go:276-278 | in a well-formed registry, a found language declares every answer of its rule |
| Tags.SegmentStart | i18n/language/language.go:252-254 | the candidate starts just past the last delimiter before its end, or at 0 |
| Tags.ParseResult | i18n/language/language.go:244-262 | the answer of parsing without the scan: the language of the first terminator-ended candidate that resolves; failing that, nothing if the string holds any delimiter, otherwise the lookup of the whole string |
| Tags.Scan | i18n/language/language.go:245-261 | the parsing loop, one character per step; once a delimiter has been passed and no terminator lies ahead, it answers nothing |
| Tags.ScanMeetsParseResult | i18n/language/language.go:245-261 | the scan keeps its invariant: candidates start past the last delimiter, and every earlier candidate missed; what it answers is the first candidate that resolves, else nothing after a delimiter, else the lookup of the whole string |
| Tags.Parse | i18n/language/language.go:244-262 | parsing answers the first candidate that resolves; failing that, nothing if any delimiter occurs; otherwise the lookup of the whole string |
| Tags.ParseResultUnique | i18n/language/language.go:244-262 | only one answer fits that description, so it determines parsing completely |
| Tags.ParseFirstCandidate | i18n/language/language.go:248-251 | when the terminator at e ends the first candidate that resolves, parsing answers that candidate's language |
| Tags.ParseGivesUp | i18n/language/language.go:257-260 | when a delimiter occurs and no candidate resolves, parsing answers nothing |
| Tags.MustParse | i18n/language/language.go:265-271 | succeeds with exactly the language parsing finds, and fails with the input exactly when parsing finds nothing |
| TagExamples.LookupTruncatesToRegion | i18n/language/language.go:279-281 | "pt-BR-x" resolves to the entry for "pt-BR" |
| TagExamples.LookupNormalizes | i18n/language/language.go:274-275 | "pt_BR" and " pt-BR\n" resolve to the entry for "pt-BR" |
| TagExamples.LookupNoAncestor | i18n/language/language.go:279-282 | "xx-yy-zz" resolves to nothing when neither it nor "xx-yy" nor "xx" is registered |
| TagExamples.LookupEnglishRegion | i18n/language/language.go:279-281 | "en-US" falls back to "en" |
| TagExamples.ParseAcceptLanguage | i18n/language/language.go:248-251 | "en-US,fr;q=0.9" resolves through its first entry "en-US", here to "en" |
| TagExamples.OnlyTerminatorMisses | i18n/language/language.go:248-260 | a string with one terminator and no other delimiter, whose candidate names nothing, parses to nothing, whatever follows the terminator |
| TagExamples.ParseSkipsTrailingSegment | i18n/language/language.go:257-260 | "x,en" answers nothing when "x" is not registered, even if "en" is |
| TagExamples.ParseIgnoresPathTail | i18n/language/language.go:253-260 | "locales/en" answers nothing for every registry |
| TagExamples.ParseFileName | i18n/language/language.go:246-254 | "locales/pt-BR.json" resolves to the entry for "pt-BR": the directory is discarded and the candidate ends at the `.` |

## Left out

- Operand extraction (`plural.NewOperands`) is not part of this model. `PluralCategory` takes it as a function parameter that returns operands or an error.
- The real operand n is not modelled, and neither are floating-point inputs and their decimal expansion. No modelled rule reads n.
- Operands are unbounded naturals. The source's `int64` fields are not modelled; the rules only compare them and take `% 10` and `% 100` of non-negative values.
- `src/pkg/i18n/i18n.go` is not part of this model. It is a global translation table keyed by message ids from a function that is not shown.
- The `Name` field, `String()` and the text of `MustParse`'s panic message are not modelled. The panic becomes `Failure(UnableToParse(lang))`.
- The registry is a map value passed explicitly. The source's process-wide mutable map and concurrent access to it are not modelled.
- Languages are values, not pointers, and a rule is a total function. So there is no counterpart for registering a nil language, or a language whose plural function is nil; in the source the first crashes `Register` and the second crashes `PluralCategory` (language.go:297).
- Strings are sequences of code points. `Parse` indexes bytes in the source; this does not matter here because every delimiter is ASCII.
- `Custom` rules are arbitrary functions, so their declared sets cannot be checked. The declared-category results therefore hold for well-formed registries, and a registered custom language must declare its rule's answers (`Declares`).
- Text.Normalize: its own contract states only the shape of the result. That the result is the trimmed input with `_` turned into `-` is proved separately by `Text.NormalizeSlice`, because carrying that existential in the contract makes every proof about lookup too costly.
- Tags.Lookup: its own contract states only exact-match priority and that an answer comes from the registry; the full fallback behaviour is proved separately by `Tags.LookupFallback`.
