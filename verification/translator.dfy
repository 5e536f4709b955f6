/**
 The Translator of src/Translator.php: a cache from locale to dictionary that
 asks the translation loader for a locale's dictionary only the first time the
 locale is used, then answers every lookup from the cache.
 */
module Translation {

  import opened Wrappers
  import opened LocaleFallback

  /** A dictionary maps translation keys to texts. */
  type Dictionary = map<string, string>

  /**
   The translation loader, as seen by one call: the dictionary it would return
   for a locale. A different function may be supplied on every call, which
   covers a loader whose answers change over time.
   */
  type Loader = string -> Dictionary

  /**
   A Translator: the dictionary cache, plus `loads`, the locales the loader was
   asked for, in call order. `loads` instruments the model; the source keeps
   no such log.
   */
  datatype Translator = Translator(dictionaries: map<string, Dictionary>, loads: seq<string>)

  /** Cache and log agree: every cached locale was loaded exactly once, and nothing else was loaded. */
  predicate Valid(t: Translator)
  {
    && Distinct(t.loads)
    && (forall l :: l in t.loads ==> l in t.dictionaries)
    && (forall l :: l in t.dictionaries ==> l in t.loads)
  }

  /** What a lookup of `key` in `d` yields: the text, or null when the key is absent. */
  function Lookup(d: Dictionary, key: string): Option<string>
  {
    if key in d then Some(d[key]) else None
  }

  /** A new Translator holds no dictionary and has not called its loader. */
  function NewTranslator(): (t: Translator)
    ensures t.dictionaries == map[]
    ensures t.loads == []
    ensures Valid(t)
  {
    Translator(map[], [])
  }

  /**
   Lines 46-48 of `translate`: load the dictionary of `locale` unless it is
   already cached. An empty dictionary counts as cached, since `isset` holds
   for an empty array.
   */
  function Cache(t: Translator, locale: string, load: Loader): (t': Translator)
    // the locale is cached afterwards, and no other locale is added
    ensures t'.dictionaries.Keys == t.dictionaries.Keys + {locale}
    // a cached dictionary is never replaced
    ensures forall l :: l in t.dictionaries ==> t'.dictionaries[l] == t.dictionaries[l]
    // the loader is asked exactly when the locale is not cached yet
    ensures locale in t.dictionaries ==> t'.loads == t.loads
    ensures locale !in t.dictionaries ==>
      t'.loads == t.loads + [locale] && t'.dictionaries[locale] == load(locale)
    // hence each locale is loaded at most once
    ensures Valid(t) ==> Valid(t')
  {
    if locale in t.dictionaries then t
    else Translator(t.dictionaries[locale := load(locale)], t.loads + [locale])
  }

  /**
   `translate(key, locale)`: cache the dictionary of `locale`, then return
   the text it holds under `key`, or null.
   */
  function Translate(t: Translator, key: string, locale: string, load: Loader): (res: (Translator, Option<string>))
    ensures res.0 == Cache(t, locale, load)
    ensures locale in res.0.dictionaries
    ensures res.1.Some? <==> key in res.0.dictionaries[locale]
    ensures res.1.Some? ==> res.1.value == res.0.dictionaries[locale][key]
  {
    var t' := Cache(t, locale, load);
    (t', Lookup(t'.dictionaries[locale], key))
  }

  /**
   Asking again for the same key and locale gives the same answer and leaves
   the Translator as it was, whatever the loader would answer the second time.
   */
  lemma TranslateIsIdempotent(t: Translator, key: string, locale: string, load1: Loader, load2: Loader)
    ensures var (t1, r1) := Translate(t, key, locale, load1);
            var (t2, r2) := Translate(t1, key, locale, load2);
            t2 == t1 && r2 == r1
  {
  }

  /** An empty dictionary from the loader is cached: later calls for that locale do not load again. */
  lemma EmptyDictionaryIsCached(t: Translator, key: string, locale: string, load: Loader, key2: string, load2: Loader)
    requires locale !in t.dictionaries
    requires load(locale) == map[]
    ensures var (t1, r1) := Translate(t, key, locale, load);
            var (t2, r2) := Translate(t1, key2, locale, load2);
            r1 == None && r2 == None && t2.loads == t1.loads == t.loads + [locale]
  {
  }

  /** One call of `translate`, with the loader it sees. */
  datatype Call = Call(key: string, locale: string, load: Loader)

  /** The locales named by a sequence of calls. */
  function Locales(calls: seq<Call>): (ls: set<string>)
    ensures forall i :: 0 <= i < |calls| ==> calls[i].locale in ls
    decreases |calls|
  {
    if calls == [] then {} else {calls[0].locale} + Locales(calls[1..])
  }

  /**
   The Translator after a sequence of `translate` calls. The cache ends up
   holding exactly the locales already cached or named by a call, entries
   already cached are kept, and the log stays in step with the cache.
   */
  function Replay(t: Translator, calls: seq<Call>): (t': Translator)
    ensures t'.dictionaries.Keys == t.dictionaries.Keys + Locales(calls)
    ensures forall l :: l in t.dictionaries ==> t'.dictionaries[l] == t.dictionaries[l]
    ensures Valid(t) ==> Valid(t')
    decreases |calls|
  {
    if calls == [] then t
    else Replay(Translate(t, calls[0].key, calls[0].locale, calls[0].load).0, calls[1..])
  }

  /** The answers to a sequence of `translate` calls on one Translator, in order. */
  function Answers(t: Translator, calls: seq<Call>): (rs: seq<Option<string>>)
    ensures |rs| == |calls|
    decreases |calls|
  {
    if calls == [] then []
    else
      var (t1, r) := Translate(t, calls[0].key, calls[0].locale, calls[0].load);
      [r] + Answers(t1, calls[1..])
  }

  /** Call `i` is the first call that names its locale. */
  predicate FirstToName(calls: seq<Call>, i: int)
  {
    0 <= i < |calls| && forall j :: 0 <= j < i ==> calls[j].locale != calls[i].locale
  }

  /** The loader has been called exactly once per cached locale. */
  lemma LoadCountIsCacheSize(t: Translator)
    requires Valid(t)
    ensures |t.loads| == |t.dictionaries|
  {
    DistinctCardinality(t.loads);
    assert (set x | x in t.loads) == t.dictionaries.Keys;
  }

  /** Dropping an earlier call keeps a call the first to name its locale. */
  lemma FirstToNameInTail(calls: seq<Call>, i: int)
    requires FirstToName(calls, i) && i > 0
    ensures calls[1..][i - 1] == calls[i]
    ensures calls[i].locale != calls[0].locale
    ensures FirstToName(calls[1..], i - 1)
  {
  }

  /** A locale not cached before is loaded with the loader of the first call that names it. */
  lemma {:induction false} ReplayUsesFirstLoader(t: Translator, calls: seq<Call>, i: int)
    requires FirstToName(calls, i)
    requires calls[i].locale !in t.dictionaries
    ensures Replay(t, calls).dictionaries[calls[i].locale] == calls[i].load(calls[i].locale)
    decreases |calls|
  {
    var t1 := Cache(t, calls[0].locale, calls[0].load);
    var rest := calls[1..];
    if i > 0 {
      FirstToNameInTail(calls, i);
      ReplayUsesFirstLoader(t1, rest, i - 1);
    }
  }

  /** Every call answers from the dictionary the cache holds at the end. */
  lemma {:induction false} AnswersComeFromCache(t: Translator, calls: seq<Call>, i: int)
    requires 0 <= i < |calls|
    ensures Answers(t, calls)[i] == Lookup(Replay(t, calls).dictionaries[calls[i].locale], calls[i].key)
    decreases |calls|
  {
    var t1 := Cache(t, calls[0].locale, calls[0].load);
    var rest := calls[1..];
    if i > 0 {
      assert rest[i - 1] == calls[i];
      AnswersComeFromCache(t1, rest, i - 1);
    }
  }

  /**
   Over any sequence of calls, the loader is called once per locale that was
   not cached, with the loader of the first call naming it, and every call
   answers from that first dictionary, whatever later loaders would return.
   */
  lemma TranslateAllLoadsOncePerLocale(t: Translator, calls: seq<Call>)
    requires Valid(t)
    ensures var t' := Replay(t, calls);
            && |t'.loads| == |t.dictionaries.Keys + Locales(calls)|
            && (forall i :: FirstToName(calls, i) && calls[i].locale !in t.dictionaries ==>
                  t'.dictionaries[calls[i].locale] == calls[i].load(calls[i].locale))
            && (forall i :: 0 <= i < |calls| ==>
                  Answers(t, calls)[i] == Lookup(t'.dictionaries[calls[i].locale], calls[i].key))
  {
    var t' := Replay(t, calls);
    LoadCountIsCacheSize(t');
    forall i | FirstToName(calls, i) && calls[i].locale !in t.dictionaries
      ensures t'.dictionaries[calls[i].locale] == calls[i].load(calls[i].locale)
    {
      ReplayUsesFirstLoader(t, calls, i);
    }
    forall i | 0 <= i < |calls|
      ensures Answers(t, calls)[i] == Lookup(t'.dictionaries[calls[i].locale], calls[i].key)
    {
      AnswersComeFromCache(t, calls, i);
    }
  }
}
