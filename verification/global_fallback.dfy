/**
 GlobalFallback (src/LocaleFallback/GlobalFallback.php): every locale falls
 back to one fixed locale, except that locale itself.
 */
module GlobalFallback {

  import opened LocaleFallback

  /** The fallback locale is set once, at construction, and never changed. */
  datatype GlobalFallback = GlobalFallback(fallbackLocale: string)

  /** The constructor keeps the normalised form of its argument. */
  function NewGlobalFallback(norm: Normalizer, fallbackLocale: string): (g: GlobalFallback)
    ensures g.fallbackLocale == norm(fallbackLocale)
  {
    GlobalFallback(norm(fallbackLocale))
  }

  /**
   `getFallbackLocales`: the fixed locale, unless the locale asked for is
   that very string (compared as given, without normalising it).
   */
  function GetFallbackLocales(g: GlobalFallback, locale: string): (r: seq<string>)
    ensures |r| <= 1
    ensures HonoursContract(locale, r)
    ensures r == [] <==> locale == g.fallbackLocale
    ensures forall i :: 0 <= i < |r| ==> r[i] == g.fallbackLocale
  {
    if locale == g.fallbackLocale then [] else [g.fallbackLocale]
  }

  /**
   The input is compared as given: the normalised form of the constructor's
   argument gets no fallback, but the argument itself, when normalising
   changes it, is not recognised and falls back to its normalised form.
   */
  lemma RawInputIsNotNormalised(norm: Normalizer, fallbackLocale: string)
    ensures GetFallbackLocales(NewGlobalFallback(norm, fallbackLocale), norm(fallbackLocale)) == []
    ensures fallbackLocale != norm(fallbackLocale) ==>
      GetFallbackLocales(NewGlobalFallback(norm, fallbackLocale), fallbackLocale) == [norm(fallbackLocale)]
  {
  }
}
