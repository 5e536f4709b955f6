# brick/translation: translator cache and locale fallback policies

This project models, in Dafny, the locale-handling core of the PHP library
brick/translation:

- the `Translator` (`src/Translator.php`), a cache from locale to dictionary
  that asks its translation loader for a locale's dictionary only the first
  time the locale is used;
- three locale fallback policies, each of which must return a list of
  fallback locales that never includes the locale asked for
  (`src/LocaleFallback.php`):
  - `TruncateFallback` truncates language tags as in section 4.3.2 of RFC 4646;
  - `ConfigurableFallback` follows a locale-to-locale table;
  - `GlobalFallback` names one fixed locale.

Modules: `Wrappers` (Option), `LocaleFallback` (the interface contract as the
predicates `HonoursContract` and `Distinct`), `Translation`,
`TruncateFallback`, `ConfigurableFallback`, `GlobalFallback`.

Modelling choices:

- The translation loader is a function `Loader = string -> map<string, string>`
  passed on each call. A different function may be passed on each call, so a
  loader whose answers change over time is covered. The Translator keeps a
  field `loads`, the locales the loader was asked for. The source has no
  such log; it is there so that "each locale is loaded at most once" can be
  stated.
- `Translator::normalizeLocale` is not part of this model. It is a function
  parameter `norm`, and no property of it is assumed.
- The truncation pattern `^(.*?)(?:\-[^\-])?\-[^\-]+$` is modelled exactly,
  newlines included. `MatchesAt(s, k)` states when the pattern matches `s`
  with capture `s[..k]`: `.` does not match a newline, and `$` before a final
  newline adds no match, because `[^\-]+` matches a newline too.
  `Truncate` is proved to return the shortest such capture, which is what the
  lazy `(.*?)` produces. A string's characters stand for bytes, because the
  pattern has no `u` modifier.
- `ConfigurableFallback::getFallbackLocales` loops for ever when the chain
  from the locale runs into a cycle, including a locale mapped to itself.
  The model returns `None` exactly in that case (`Diverges`). It runs the
  loop for at most as many iterations as the table has entries, and proves that a chain still inside
  the table after that many steps must repeat a locale.
- `src/Translator.php` does no locale normalisation, fallback traversal,
  parameter substitution or default-locale handling. Truncation removes the
  last subtag, together with a single-character subtag just before it when
  there is one (`zh-hant-cn-x-private` becomes `zh-hant-cn`).

## Model

| member | source | states |
|---|---|---|
| Translation.NewTranslator | src/Translator.php:26-34 | a new Translator has an empty dictionary cache and has not called its loader; its cache and log agree (`Valid`) |
| Translation.Cache | src/Translator.php:46-48 | afterwards the locale is cached and no other locale is added; a dictionary already cached is never replaced; the loader is called, and its dictionary stored, exactly when the locale was not cached; cache and log stay in step, so no locale is loaded twice |
| Translation.Translate | src/Translator.php:44-51 | updates the cache as `Cache` does; the answer is the text stored under the key in the locale's cached dictionary, and null exactly when the key is absent |
| Translation.TranslateIsIdempotent | src/Translator.php:46-50 | a second identical call returns the same answer and leaves the Translator unchanged, whatever the loader would return the second time |
| Translation.EmptyDictionaryIsCached | src/Translator.php:46-47 | an empty dictionary from the loader is cached: later calls for that locale, with any key and any loader, do not load again and answer null |
| Translation.Replay | src/Translator.php:46-48 | after any sequence of calls, the cache holds exactly the locales it held before plus those the calls name; earlier entries are kept; cache and log stay in step |
| Translation.LoadCountIsCacheSize | src/Translator.php:46-47 | the loader has been called exactly as many times as there are cached locales |
| Translation.ReplayUsesFirstLoader | src/Translator.php:46-48 | a locale not cached beforehand ends up holding the dictionary returned by the loader of the first call that names it |
| Translation.AnswersComeFromCache | src/Translator.php:46-50 | every call in a sequence answers with the lookup of its key in the dictionary the cache finally holds for its locale |
| Translation.TranslateAllLoadsOncePerLocale | src/Translator.php:44-51 | over any sequence of calls: one load per distinct locale not cached before, with the first caller's loader; every answer comes from that first dictionary |
| TruncateFallback.Truncate | src/LocaleFallback/TruncateFallback.php:24 | one `preg_replace` step returns a prefix of the locale; which prefix, and that the locale comes back unchanged when nothing matches, is stated by `TruncateIsLeftmostLazyMatch` |
| TruncateFallback.MatchesOnlyAtLastDash | src/LocaleFallback/TruncateFallback.php:24 | the pattern matches only with the capture ending at the last `-`, or two characters before it when a single-character subtag precedes it, and only when a non-empty subtag follows that `-` |
| TruncateFallback.TruncateIsLeftmostLazyMatch | src/LocaleFallback/TruncateFallback.php:24 | the step changes the locale exactly when the anchored pattern matches; it then returns the shortest capture with which the pattern matches, as the lazy `(.*?)` does |
| TruncateFallback.TruncateRemovesADash | src/LocaleFallback/TruncateFallback.php:24 | a step that changes the locale removes at least one `-` |
| TruncateFallback.FallbackLocales | src/LocaleFallback/TruncateFallback.php:19-34 | every entry of the list is a strict prefix of the locale; the list has at most as many entries as the locale has `-` characters |
| TruncateFallback.FallbackLocalesDescend | src/LocaleFallback/TruncateFallback.php:23-31 | the first entry is the truncated locale; each later entry is the truncation of the one before; each entry is a strict prefix of all earlier entries |
| TruncateFallback.FallbackLocalesEndAtFixedPoint | src/LocaleFallback/TruncateFallback.php:26-27 | the last entry is left unchanged by truncation, which is where the loop stops |
| TruncateFallback.FallbackLocalesHonourContract | src/LocaleFallback/TruncateFallback.php:26-30 | the list never contains the input locale and has no duplicates, as the interface demands |
| TruncateFallback.FallbackLocalesEmptyIffNoMatch | src/LocaleFallback/TruncateFallback.php:24-28 | the list is empty exactly when the pattern does not match the locale at all (for instance, when the locale has no `-`) |
| TruncateFallback.GetFallbackLocales | src/LocaleFallback/TruncateFallback.php:19-34 | the `for (;;)` loop returns exactly the list of successive truncations, which honours the interface contract |
| TruncateFallback.TruncatePrivateUseExample | src/LocaleFallback/TruncateFallback.php:24 | `zh-hant-cn-x-private` truncates to `zh-hant-cn` |
| TruncateFallback.FallbackLocalesExample | src/LocaleFallback/TruncateFallback.php:23-31 | `en-us-posix` yields `[en-us, en]` |
| ConfigurableFallback.NewConfigurableFallback | src/LocaleFallback/ConfigurableFallback.php:15 | a new policy has no entries, so no locale has fallbacks |
| ConfigurableFallback.Walk | src/LocaleFallback/ConfigurableFallback.php:22-28 | running the loop for a bounded number of iterations gives a list whose i-th entry is the locale after i + 1 iterations; every locale before the end has an entry and the last has none; if the bound is hit, every locale visited has an entry |
| ConfigurableFallback.RevisitDiverges | src/LocaleFallback/ConfigurableFallback.php:24-26 | once the loop revisits a locale, it never reaches a locale without an entry |
| ConfigurableFallback.Pigeonhole | src/LocaleFallback/ConfigurableFallback.php:24-26 | a chain that stays in the table for the table size plus one steps visits some locale twice |
| ConfigurableFallback.WalkOutOfFuelDiverges | src/LocaleFallback/ConfigurableFallback.php:24-26 | if the loop has not ended after the table size iterations, it never ends |
| ConfigurableFallback.WalkVisitsEachLocaleOnce | src/LocaleFallback/ConfigurableFallback.php:24-26 | a loop that ends never appends a locale twice, nor the locale it started from |
| ConfigurableFallback.WalkFollowsTable | src/LocaleFallback/ConfigurableFallback.php:24-25 | a loop that ends appends the locale's entry first, and then the entry of each appended locale in turn |
| ConfigurableFallback.GetFallbackLocales | src/LocaleFallback/ConfigurableFallback.php:20-29 | the input is looked up as given; the list is empty exactly when the locale has no entry; the result is None exactly when the loop never ends; otherwise the list follows the table from the locale's entry to a locale with no entry, has no duplicates, excludes the locale and has at most the table size entries |
| ConfigurableFallback.AddFallback | src/LocaleFallback/ConfigurableFallback.php:37-43 | the normalised locale now maps to the normalised fallback, replacing any earlier entry; every other entry is unchanged |
| ConfigurableFallback.AddFallbacks | src/LocaleFallback/ConfigurableFallback.php:50-55 | adding the pairs in iteration order gives: keys are the old keys plus the normalised locales of the pairs; each such locale maps to the normalised fallback of the last pair that names it; untouched entries stay as they were |
| ConfigurableFallback.LookupIsNotNormalised | src/LocaleFallback/ConfigurableFallback.php:20-43 | entries are stored under the normalised locale but looked up with the raw input: after `addFallback(a, b)`, a raw `a` that normalising changes, and that had no entry, still gets no fallbacks, while the normalised `a` falls back to the normalised `b` first |
| ConfigurableFallback.SelfMappingDiverges | src/LocaleFallback/ConfigurableFallback.php:24-26 | a locale configured to fall back to itself makes the loop run for ever |
| GlobalFallback.NewGlobalFallback | src/LocaleFallback/GlobalFallback.php:20-23 | the stored fallback locale is the normalised constructor argument; the datatype has no operation that changes it |
| GlobalFallback.GetFallbackLocales | src/LocaleFallback/GlobalFallback.php:28-35 | the list is empty exactly when the raw input equals the stored locale, otherwise it is that one locale; it has at most one entry and never contains the input |
| GlobalFallback.RawInputIsNotNormalised | src/LocaleFallback/GlobalFallback.php:20-34 | the normalised constructor argument gets no fallback; the raw argument, when normalising changes it, is not recognised and gets the normalised locale as its fallback |

## Left out

- `src/TranslationLoader/PhpLoader.php` (file-system access, `sprintf` paths, `require`): replaced by the `Loader` function parameter.
- `src/TranslationLoader/NullLoader.php` and `src/Loader/NullLoader.php`: constant empty loaders. `EmptyDictionaryIsCached` covers what they would load.
- `src/LocaleFallback/NullFallback.php`: it always returns an empty list, which meets the interface contract trivially.
- `Translator::normalizeLocale`: its body is not part of this model, so it is a parameter about which nothing is assumed.
- Exceptions thrown by the loader (`@throws` at `src/Translator.php:42`): the loader is total in the model.
- The default locale mentioned in the comment at `src/Translator.php:38`: the signature requires a string locale, and the code has no default-locale handling.
- Fallback traversal, locale normalisation and parameter substitution inside `translate`: the modelled `src/Translator.php` does none of them.
- PHP's conversion of integer-like array keys (such as `"123"`) to integers. With `strict_types`, such a key passed from `addFallbacks` to `addFallback` would raise a type error. The model treats every key as a string.
- Multi-byte text in `TruncateFallback`: the pattern has no `u` modifier, so PCRE reads the locale byte by byte. The model's characters are those bytes, and a locale must be given as its byte sequence. A non-ASCII character read as one `char` can give a different result; for example, as characters `a-é-b` truncates to `a`, while PCRE, seeing `é` as two bytes, returns `a-é`.
- `preg_replace` failing with `null` when PCRE's backtracking limit is exceeded on very long locales.
- ConfigurableFallback.GetFallbackLocales: the model returns None where the PHP loop never terminates, rather than modelling the non-termination itself.
- Concurrency: the Translator is single-threaded and not shared.
