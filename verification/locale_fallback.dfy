/**
 The contract every locale fallback policy promises (src/LocaleFallback.php):
 the list of fallback locales for a locale may be empty, and it must not
 include that locale.
 */
module LocaleFallback {

  /**
   `Translator::normalizeLocale`, whose body is not part of this model: any
   function may be supplied, and none of its properties is relied on.
   */
  type Normalizer = string -> string

  /** The list of fallbacks returned for `locale` does not mention `locale` itself. */
  predicate HonoursContract(locale: string, fallbacks: seq<string>)
  {
    locale !in fallbacks
  }

  /** No locale appears twice in the list. */
  predicate Distinct<T(==)>(s: seq<T>)
  {
    forall i, j :: 0 <= i < j < |s| ==> s[i] != s[j]
  }

  /** A distinct sequence has as many elements as its set of elements. */
  lemma {:induction false} DistinctCardinality<T>(s: seq<T>)
    requires Distinct(s)
    ensures |set x | x in s| == |s|
  {
    if s != [] {
      var last := s[|s| - 1];
      var init := s[..|s| - 1];
      assert Distinct(init);
      DistinctCardinality(init);
      assert (set x | x in s) == (set x | x in init) + {last};
      assert last !in init;
    }
  }
}
