# Translate — a Dafny model

A model of the PHP translation library `delfimov/Translate`, with proofs about it.

It covers the current `Translate` class (`src/Translate.php`):
- it negotiates the user's language from an Accept-Language header against a list of available languages;
- it caches one message catalog per language, loaded on demand from a loader;
- it renders messages with `t` (look up, then `vsprintf`) and with `plural`, which picks one of several `|`-separated forms by the language's plural rule, a table derived from the Zend Framework's (gettext-style, integer quantities only).

It also covers the array loader (`src/Loader/PhpArrayLoader.php`) and the older `lib/Translate.php`. The older class has its own language clamp, its own `!empty` message lookup, its own `choice` and its own copy of the plural table.

Modules, in dependency order:

- `Wrappers`: `Option`.
- `PhpStrings`: the PHP string primitives the code relies on, each with its characterising lemmas:
  - `empty()` on strings;
  - `strlen` as the UTF-8 byte length (`ByteLength`);
  - `trim` with PHP's default character list;
  - `explode` (`Split`/`Join`), and `explode` with a limit of 2 (`SplitFirst`);
  - `strpos`;
  - PHP's byte-wise `strcmp` ordering (`Below`);
  - decimal rendering of integers.
- `PluralRules`: the plural-form table of `pluralRule`. Its switch is grouped into rule families.
- `HeaderParser`: `detectLanguages`. It covers entry parsing with its quality rules and the `array_multisort` ranking.
- `LocaleResolver`: `shortLanguageCode` and `getBestMatchingLanguage`.
- `MessageLoader`: `PhpArrayLoader` and the loader interface as a pair of functions.
- `Translator`: the `Translate` class. It covers options, `getLanguage`, the message cache, `t` and `plural`.
- `LegacyTranslator`: `lib/Translate.php`.
- `Examples`: the documented negotiation scenarios and the test suite's expectations, proved against the model.

The model is purely functional. An operation that mutates the object takes a state and returns the new state with its result. What the code reads from outside is a parameter (an `Env`):
- the loader;
- `$_SERVER['HTTP_ACCEPT_LANGUAGE']`;
- `vsprintf`;
- `is_numeric` with `floor($v * $resolution)`.

Where the documentation and the code disagree, the model follows the code:
- **Empty `available` list.** The option comments (`src/Translate.php:52-53`, `lib/Translate.php:63-64`) say an empty or missing `available` list accepts any language. Both implementations return the default language instead. `Negotiate`, `BestMatchingLanguage` and `LegacyTranslator.NoListMeansDefault` state the code's behaviour.
- **Equal-quality entries.** `detectLanguages` orders them by descending tag (`array_multisort` with `SORT_DESC` on both arrays), not in header order. `HeaderParser.TieBrokenByTagDescending` shows it.
- **The test suite's `"default"` option.** The suite configures its translator with `"default" => "en"`. That key is not one the class reads. The model's test translator sets `default-language` to `en`, which is already its default value.

## Model

| member | source | states |
|---|---|---|
| PhpStrings.ByteLength | src/Translate.php:248 | `strlen`: the UTF-8 byte length is at least the number of characters and at most four times it |
| PhpStrings.ByteLengthConcat | src/Translate.php:248 | byte lengths add up over concatenation |
| PhpStrings.ByteLengthAscii | src/Translate.php:248 | bytes and characters agree exactly when every character is ASCII |
| PhpStrings.IsEmptyDecimal | src/Loader/PhpArrayLoader.php:44 | `empty()` holds only for "" and "0", so on an integer's decimal text it holds exactly for 0, as `empty()` on the integer does |
| PhpStrings.Trim | src/Translate.php:264 | the result is no longer than the input and neither starts nor ends with a trim character |
| PhpStrings.TrimStrips | src/Translate.php:264 | the result is the middle piece of the input between a leading run and a trailing run of trim characters |
| PhpStrings.TrimCharacterization | src/Translate.php:264 | trimming padding + unpadded core + padding gives exactly the core |
| PhpStrings.TrimIdempotent | src/Translate.php:268 | trimming twice is trimming once, as the second `trim` over already trimmed tags relies on |
| PhpStrings.TrimIgnoresPadding | src/Translate.php:264 | trim characters around a string do not change its trim |
| PhpStrings.TrimAroundSeparator | src/Translate.php:268 | trimming across a non-space separator trims only the outer ends |
| PhpStrings.IndexOf | src/Translate.php:249-253 | `strpos`: no position exactly when the character is absent, otherwise the first occurrence |
| PhpStrings.Split | src/Translate.php:264 | `explode` yields at least one piece, no piece holds the separator, and joining the pieces restores the input |
| PhpStrings.SplitJoin | src/Translate.php:323 | exploding the join of separator-free pieces gives the pieces back |
| PhpStrings.SplitFirst | src/Translate.php:268 | `explode` with limit 2: a second part exactly when the separator occurs, split at its first occurrence |
| PhpStrings.BelowIrreflexive | src/Translate.php:282 | the `strcmp` order puts no string strictly before itself |
| PhpStrings.BelowTransitive | src/Translate.php:282 | the `strcmp` order is transitive |
| PhpStrings.BelowAsymmetric | src/Translate.php:282 | two strings are never each strictly before the other |
| PhpStrings.BelowTotal | src/Translate.php:282 | any two distinct strings are ordered one way or the other |
| PhpStrings.Decimal | src/Translate.php:324 | the decimal text of the quantity is non-empty digits without a leading zero |
| PhpStrings.DecimalRoundTrip | src/Translate.php:324 | reading the decimal text back gives the quantity |
| PluralRules.PluralRule | src/Translate.php:355-569 | an unlisted language selects form 0; a listed one selects an index below its family's number of forms |
| PluralRules.EveryFormUsed | src/Translate.php:355-569 | every form of every family is selected by some quantity |
| PluralRules.PluralRuleBounds | src/Translate.php:355-569 | for every listed code, the form index is 0 in the one-form family, at most 1, 2 or 3 in the two-, three- and four-form families, and at most 5 for Arabic; each bound is reached by some quantity |
| PluralRules.PeriodicInHundreds | src/Translate.php:444-460 | the East Slavic, Lithuanian, Slovenian and Macedonian rules depend only on the quantity modulo 100 |
| PluralRules.PolishNotPeriodic | src/Translate.php:514-525 | the Polish rule singles out exactly 1, so 1 and 101 take different forms, unlike the periodic families |
| PluralRules.RussianTestForms | tests/TranslateTest.php:59-69 | Russian selects form 0 for 1 and 101, form 1 for 2, and form 2 for 5, 10, 11 and 59 |
| PluralRules.EnglishSingularOnlyForOne | src/Translate.php:375-426 | English selects form 0 exactly for 1 |
| HeaderParser.ParseEntry | src/Translate.php:267-281 | the parsed tag neither starts nor ends with a trim character |
| HeaderParser.ParseEntrySpec | src/Translate.php:268-280 | an entry's tag is its trimmed text before the first `;`; no parameter gives full quality, an empty parameter gives full quality, otherwise the value after `=` decides |
| HeaderParser.QualityIgnoresParameterName | src/Translate.php:272-274 | only the value after `=` matters: `tag;x=0.5` weighs like `tag;q=0.5` |
| HeaderParser.BareEntry | src/Translate.php:269-270 | an entry without parameters has full quality and its own tag |
| HeaderParser.ParsePreferences | src/Translate.php:264-281 | one preference per comma-separated entry, in header order, each parsed from its entry |
| HeaderParser.Insert | src/Translate.php:282 | inserting into a ranked list keeps it ranked and adds exactly the one entry |
| HeaderParser.Rank | src/Translate.php:282 | the result is a permutation of the entries ordered by descending quality and then descending tag |
| HeaderParser.RankingUnique | src/Translate.php:282 | any two orderings by descending quality and then descending tag, both permutations of the same entries, are equal |
| HeaderParser.DetectLanguages | src/Translate.php:262-284 | one tag per comma-separated entry, at most `max-languages` of them |
| HeaderParser.DetectFromRanking | src/Translate.php:262-284 | the detected languages are the tags of the ranking of the entries, cut to `max-languages` |
| HeaderParser.DetectedTagsComeFromEntries | src/Translate.php:262-284 | every detected tag is the trimmed tag of some entry of the header |
| HeaderParser.OrderIndependent | src/Translate.php:282 | headers whose entries are the same up to order detect the same languages |
| HeaderParser.EmptyHeader | src/Translate.php:262-284 | an empty header detects the single empty tag |
| HeaderParser.TieBrokenByTagDescending | src/Translate.php:282 | equal qualities are ordered by descending tag whatever the header order |
| LocaleResolver.ShortLanguageCode | src/Translate.php:246-260 | a code of more than 2 bytes is cut before its first `-` when that is not at position 0, else before its first `_`; otherwise the code is unchanged |
| LocaleResolver.ShortCodeDropsRegion | src/Translate.php:246-260 | `primary-region` shortens to `primary` |
| LocaleResolver.ShortCodeDropsUnderscoreRegion | src/Translate.php:246-260 | without any dash, `primary_region` shortens to `primary` |
| LocaleResolver.ShortCodeCountsBytes | src/Translate.php:248 | the length guard counts bytes: the two-character, three-byte `é-` is cut to `é` |
| LocaleResolver.ShortCodeNotIdempotent | src/Translate.php:246-260 | shortening is not idempotent: `abc_de-f` shortens to `abc_de`, which shortens again to `abc` |
| LocaleResolver.ShortCodeLeadingDash | src/Translate.php:248-256 | a `-` at position 0 is not a cut point, so `-en_US` is cut at its `_` |
| LocaleResolver.FirstAccepted | src/Translate.php:228-239 | the first available language the user tag accepts, or none when no available language matches |
| LocaleResolver.BestMatchingLanguage | src/Translate.php:223-244 | the default when nothing matches or the list is empty; otherwise the available language of the first match in user-tag-major order |
| LocaleResolver.FirstTagDecides | src/Translate.php:226-239 | when the first user tag matches, the first available language it matches is the answer |
| LocaleResolver.LaterTagsIgnored | src/Translate.php:226-239 | appending user tags after a matching prefix does not change the answer |
| LocaleResolver.UnmatchedTagIgnored | src/Translate.php:226-239 | a user tag that matches nothing can be dropped |
| LocaleResolver.ShortCodeBeatsLaterExact | src/Translate.php:228-239 | for `en-US`, the available order decides: `en` listed first wins over a later exact `en-US` |
| MessageLoader.Get | src/Loader/PhpArrayLoader.php:42-48 | an empty language code or a missing or empty catalog gives the empty catalog; otherwise the stored catalog |
| MessageLoader.Has | src/Loader/PhpArrayLoader.php:54-57 | `has` is true exactly when the language holds a non-null entry |
| MessageLoader.GetImpliesHas | src/Loader/PhpArrayLoader.php:42-57 | a language with a non-empty catalog is reported by `has` |
| MessageLoader.HasWithoutMessages | src/Loader/PhpArrayLoader.php:42-57 | `has` can hold while `get` is empty: for the code `"0"`, and for an empty catalog |
| MessageLoader.ArrayLoaderTestData | tests/PhpArrayLoaderTest.php:16-43 | the test data: `has` for `ru` and `en`, and their stored strings returned by `get` |
| MessageLoader.FromArray | src/Loader/PhpArrayLoader.php:33-57 | the loader built from an array answers `get` and `has` as the array loader does |
| Translator.HeaderSource | src/Translate.php:207-216 | the header is the first non-empty of the `language` option, the `accept-language` option and the server header, else the default language |
| Translator.DefaultOptionsGiveEnglish | src/Translate.php:57-74 | with the default options nothing is available, so negotiation gives `en` whatever the header |
| Translator.NothingAvailableGivesDefault | src/Translate.php:225-243 | an empty `available` list always negotiates the default language |
| Translator.Negotiate | src/Translate.php:217-218 | the negotiated language is the default or one of the available languages, and the default when none are available |
| Translator.GetLanguage | src/Translate.php:205-221 | a set language is returned unchanged; an empty one is negotiated and stored |
| Translator.GetLanguageIdempotent | src/Translate.php:205-221 | a second `getLanguage` returns the same language and changes nothing |
| Translator.SetLanguage | src/Translate.php:122-125 | only the language changes |
| Translator.SetLanguageWins | src/Translate.php:122-125 | after setting a non-empty language, `getLanguage` returns it |
| Translator.IsMessagesMeansCached | src/Translate.php:134-137 | `isMessages` holds exactly when `getMessages` is served from the cache and leaves the translator unchanged |
| Translator.SetMessages | src/Translate.php:160-163 | the language's catalog is replaced and every other language's cache entry is untouched |
| Translator.GetMessages | src/Translate.php:172-178 | a cached catalog is returned without change; a missing one is loaded once from the loader and cached |
| Translator.SetThenGetMessages | src/Translate.php:160-178 | a catalog stored with `setMessages` is what `getMessages` then returns, with no load |
| Translator.SetMessagesOverwrites | src/Translate.php:160-163 | storing a second catalog for a language replaces the first |
| Translator.GetMessagesLoadsOnce | src/Translate.php:172-178 | a second `getMessages` for the same language returns the cached catalog and changes nothing |
| Translator.ExtendsTransitive | src/Translate.php:172-197 | the cache only grows: growth composes |
| Translator.CurrentCatalogFromLoader | src/Translate.php:188-197 | if every cached catalog came from the loader, so does every catalog after a lookup, including the current language's |
| Translator.GetMessage | src/Translate.php:188-197 | the current language's catalog is loaded if missing, and the message is the looked-up language's translation or the key itself |
| Translator.Translation | src/Translate.php:193-196 | a key in the catalog is replaced by its entry, any other key is returned as is |
| Translator.T | src/Translate.php:295-306 | `t` is the translation of the key in the current catalog, passed through `vsprintf` when arguments are given |
| Translator.TReadsCache | src/Translate.php:295-306 | with the current catalog cached, `t` leaves the translator unchanged |
| Translator.TranslateAll | src/Translate.php:333-335 | each argument is replaced by its translation; no arguments leave the translator untouched, otherwise the cache grows at most by the current catalog |
| Translator.TranslateEach | src/Translate.php:333-335 | the translated arguments are pointwise translations |
| Translator.Choose | src/Translate.php:338 | the form at the rule's index when present, otherwise the first form |
| Translator.Plural | src/Translate.php:319-340 | `plural` formats the form the plural rule selects from the `|`-split translation with the translated arguments, or with the quantity when none are given |
| Translator.PluralSelectsForm | src/Translate.php:319-340 | for a translation of exactly as many forms as the language's family has, `plural` renders the form of the quantity's plural class |
| Translator.PluralFallsBackToFirst | src/Translate.php:338 | with too few forms for the rule's index, `plural` renders the first form |
| Translator.SetOptions | src/Translate.php:106-113 | the given options overwrite the current ones, the language is kept when set and negotiated otherwise, and its catalog is cached |
| Translator.New | src/Translate.php:92-96 | a new translator holds the patched defaults, the negotiated language and exactly that language's catalog from the loader |
| Translator.SetOptionsKeepsLanguage | src/Translate.php:106-113 | once a language is set, changing options does not change it and only adds to the cache |
| LegacyTranslator.PluralChoice | lib/Translate.php:265-397 | the older plural table selects at most form 5, and at most form 2 outside Arabic, Slovenian, Maltese and Welsh |
| LegacyTranslator.PluralChoiceAgrees | lib/Translate.php:265-397 | the older table agrees with the current `pluralRule` on every language and quantity |
| LegacyTranslator.UnlistedCodeSelectsFirst | lib/Translate.php:394-395 | an unlisted language selects form 0 |
| LegacyTranslator.Load | lib/Translate.php:113-128 | a language's catalog is read only when not yet loaded; nothing else changes |
| LegacyTranslator.SetLanguage | lib/Translate.php:94-104 | an empty request is replaced by the detected language; the result is kept when loosely in the available list, otherwise it is the default; its catalog is loaded |
| LegacyTranslator.SetLanguageClamps | lib/Translate.php:94-104 | the chosen language is the default, one of the available languages, or `false` (key `"0"`) when `""` is listed |
| LegacyTranslator.NoListMeansDefault | lib/Translate.php:99-101 | without an available list, or with an empty one, every request gives the default language |
| LegacyTranslator.Template | lib/Translate.php:196-198 | a non-empty translation replaces the key; a missing or empty translation keeps the key |
| LegacyTranslator.T | lib/Translate.php:194-207 | `t` formats the template when arguments are given |
| LegacyTranslator.EmptyTranslationEchoesKey | lib/Translate.php:196-198 | an empty translation is ignored by the older `t`, while the current class's lookup would return it |
| LegacyTranslator.ChoiceAsWritten | lib/Translate.php:236-253 | the form at the rule's index is formatted; a missing index formats `null`, the empty string |
| LegacyTranslator.Choice | lib/Translate.php:236-251 | the form at the rule's index, or the first form when there are too few |
| LegacyTranslator.ChoiceSelectsForm | lib/Translate.php:236-253 | for `|`-joined forms, the selected form is the one of the quantity's plural class, or the first form |
| LegacyTranslator.ChoiceDropsFallback | lib/Translate.php:250-252 | the code as written and the corrected choice agree when the index exists, and differ only in the fallback |
| LegacyTranslator.ChoiceTooFewForms | lib/Translate.php:250-252 | with too few forms, the code as written formats the empty string and the corrected choice the first form |
| LegacyTranslator.ChoiceTwoFormsRussian | lib/Translate.php:250-252 | a Russian two-form entry at quantity 5 renders an empty template as written and the first form when corrected |
| Examples.FirstScenario | src/Translate.php:205-244 | header `ru,en-US;q=0.8,en;q=0.6` against `en, ru, de, zh, ja` negotiates `ru` |
| Examples.FirstHeaderTags | src/Translate.php:262-284 | that header detects `ru, en-US, en` |
| Examples.SecondScenario | src/Translate.php:205-244 | header `ja-Kata;q=0.1,en_PCN;q=1,zh_HKG;q=0.9,tlh-Latn-US` against the same list negotiates `en` |
| Examples.SecondHeaderTags | src/Translate.php:262-284 | that header detects `tlh-Latn-US, en_PCN, zh_HKG, ja-Kata`: full quality first, ties by descending tag |
| Examples.SecondHeaderMatch | src/Translate.php:223-244 | `tlh-Latn-US` matches nothing, and `en_PCN` is accepted through its short code `en` |
| Examples.SkipThenFirst | src/Translate.php:226-241 | a first tag accepting nothing is passed over, and a second tag accepting the first available language picks it |
| Examples.RussianPluralTest | tests/TranslateTest.php:39-69 | after `setLanguage("ru")`, `%d tests` renders `%d тест` for 1 and 101, `%d теста` for 2, and `%d тестов` for 5, 10 and 59, given a catalog rebuilt from the test's expected outputs |
| Examples.EnglishPluralTest | tests/TranslateTest.php:39-69 | after `setLanguage("en")`, `%d tests` renders `Test %d` exactly for 1 and `Tests %d` otherwise, given a catalog rebuilt from the test's expected outputs |
| Examples.MissingKeyEchoed | src/Translate.php:193-196 | a key the current catalog lacks is returned by `t` unchanged |

## Left out

- `PhpFilesLoader` and the loader interface: reading PHP files from disk is I/O. A loader is a pair of functions (`get`, `has`) in the model.
- `vsprintf` is a parameter (`Env.format`). Format directives, and a mismatch between directives and arguments, are not modelled.
- `is_numeric` and `floor($value * $resolution)` are a parameter (`Numerics`): they work on floating point.
- `$_SERVER['HTTP_ACCEPT_LANGUAGE']` is a parameter (`Env.serverHeader`).
- `hasMessages` only delegates to the loader's `has`, which `MessageLoader.Has` covers.
- `t` and `plural` with a non-array argument (`func_get_args`): the model takes the argument list directly.
- `__invoke` in `lib/Translate.php` is a variadic wrapper around `t`.
- `_getLanguage` in `lib/Translate.php` depends on the server header, `strtolower` and the malformed synonyms table. Its result is the `detected` parameter of `LegacyTranslator.SetLanguage`.
- `_loadMessages` file reading and the `_extra` files: the file contents are the `read` parameter of `LegacyTranslator.Load`.
- The `lib/Translate.php` constructor: path and option defaults only.
- Loose comparison of numeric strings (`"1.0" == "1"` in PHP): tags are compared as strings, and `in_array` looseness is modelled only for the `false`/`""`/`"0"` case of the older class.
- The test message files: `Examples.RussianPluralTest` and `Examples.EnglishPluralTest` take a catalog rebuilt from the tests' expected outputs (`Examples.TestCatalog`), not the files' contents.
- PHP strings are byte strings; the model's strings are sequences of Unicode scalar values, so headers, tags and keys are assumed to be valid UTF-8. On valid UTF-8, `trim`, `explode`, `strpos`, `substr` and `strcmp` agree with the model, because every separator and trim character is ASCII.
- Negative and fractional quantities: plural quantities are natural numbers.
- Option values of the wrong type, unknown option keys, and `null` catalog entries.
- HeaderParser.DetectLanguages: its own contract states only the length of the result. The order and the provenance of the tags are stated by `HeaderParser.DetectFromRanking` and `HeaderParser.DetectedTagsComeFromEntries`.
- HeaderParser.ParseEntry: its own contract states only that the tag is trimmed. The tag and quality in terms of the raw entry are stated by `HeaderParser.ParseEntrySpec`.

## Findings

| source | as written | input that shows it | evidently intended | confidence | as-written member | corrected member |
|---|---|---|---|---|---|---|
| lib/Translate.php:250-252 | `choice` computes the fallback `isset($choices[$plural]) ? $choices[$plural] : $choices[0]` into `$string`, then formats `$choices[$this->_pluralChoice($x)]` and ignores it | language `ru`, a two-form translation `%d файл|%d файла`, quantity 5: index 2 does not exist, so `null` (the empty string) is formatted | format the first form when the index is missing, as the current class does at `src/Translate.php:338` | not executed | LegacyTranslator.ChoiceAsWritten | LegacyTranslator.Choice |
