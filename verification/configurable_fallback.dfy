/**
 ConfigurableFallback (src/LocaleFallback/ConfigurableFallback.php): a table
 from locale to fallback locale. The fallbacks of a locale are found by
 following the table until a locale without an entry is reached; the loop
 doing so never ends when the chain runs into a cycle.
 */
module ConfigurableFallback {

  import opened Wrappers
  import opened LocaleFallback

  datatype ConfigurableFallback = ConfigurableFallback(fallbacks: map<string, string>)

  /** A new policy has an empty table, so no locale has a fallback. */
  function NewConfigurableFallback(): (c: ConfigurableFallback)
    ensures forall l :: l !in c.fallbacks
  {
    ConfigurableFallback(map[])
  }

  /**
   The locale held by the `while` loop of `getFallbackLocales` after `n`
   iterations; once it reaches a locale with no entry it stays there.
   */
  function Follow(m: map<string, string>, l: string, n: nat): string
    decreases n
  {
    if n == 0 || l !in m then l else Follow(m, m[l], n - 1)
  }

  /** The loop never ends: every locale it reaches has an entry in the table. */
  ghost predicate Diverges(m: map<string, string>, l: string)
  {
    forall n: nat :: Follow(m, l, n) in m
  }

  /**
   The loop run for at most `fuel` iterations: the locales it appends, or
   None when it would need more iterations than that.
   */
  function Walk(m: map<string, string>, l: string, fuel: nat): (r: Option<seq<string>>)
    ensures r.Some? ==> |r.value| <= fuel
    ensures r.Some? ==>
      && (forall i :: 0 <= i < |r.value| ==> r.value[i] == Follow(m, l, i + 1))
      && (forall i :: 0 <= i < |r.value| ==> Follow(m, l, i) in m)
      && Follow(m, l, |r.value|) !in m
    ensures r.None? ==> forall i :: 0 <= i <= fuel ==> Follow(m, l, i) in m
    decreases fuel
  {
    if l !in m then Some([])
    else if fuel == 0 then None
    else
      assert forall i: nat :: 0 < i ==> Follow(m, l, i) == Follow(m, m[l], i - 1);
      match Walk(m, m[l], fuel - 1)
      case None => None
      case Some(rest) => Some([m[l]] + rest)
  }

  /** Running the loop for `a` and then `b` more iterations is running it for `a + b`. */
  lemma {:induction false} FollowAdd(m: map<string, string>, l: string, a: nat, b: nat)
    ensures Follow(m, l, a + b) == Follow(m, Follow(m, l, a), b)
    decreases a
  {
    if a > 0 && l in m {
      FollowAdd(m, m[l], a - 1, b);
    }
  }

  /** Once the loop revisits a locale, it goes round the same cycle for ever. */
  lemma {:induction false} RevisitDiverges(m: map<string, string>, l: string, a: nat, b: nat)
    requires a < b
    requires Follow(m, l, a) == Follow(m, l, b)
    requires forall i :: 0 <= i < b ==> Follow(m, l, i) in m
    ensures Diverges(m, l)
  {
    forall n: nat ensures Follow(m, l, n) in m {
      RevisitStaysInTable(m, l, a, b, n);
    }
  }

  lemma {:induction false} RevisitStaysInTable(m: map<string, string>, l: string, a: nat, b: nat, n: nat)
    requires a < b
    requires Follow(m, l, a) == Follow(m, l, b)
    requires forall i :: 0 <= i < b ==> Follow(m, l, i) in m
    ensures Follow(m, l, n) in m
    decreases n
  {
    if n >= b {
      FollowAdd(m, l, b, n - b);
      FollowAdd(m, l, a, n - b);
      RevisitStaysInTable(m, l, a, b, a + (n - b));
    } else {
      assert Follow(m, l, n) in m;
    }
  }

  /**
   If the loop stays in the table for |table| + 1 iterations, some locale is
   visited twice: there are not enough distinct locales in the table.
   */
  lemma Pigeonhole(m: map<string, string>, l: string)
    requires forall i :: 0 <= i <= |m| ==> Follow(m, l, i) in m
    ensures exists a: nat, b: nat :: a < b <= |m| && Follow(m, l, a) == Follow(m, l, b)
  {
    var visited := seq(|m| + 1, i requires 0 <= i <= |m| => Follow(m, l, i));
    if Distinct(visited) {
      DistinctCardinality(visited);
      var seen := set x | x in visited;
      assert seen <= m.Keys;
      SubsetCardinality(seen, m.Keys);
      assert false;
    } else {
      var a, b :| 0 <= a < b < |visited| && visited[a] == visited[b];
      assert Follow(m, l, a) == Follow(m, l, b);
    }
  }

  lemma {:induction false} SubsetCardinality<T>(a: set<T>, b: set<T>)
    requires a <= b
    ensures |a| <= |b|
  {
    if a != {} {
      var x :| x in a;
      SubsetCardinality(a - {x}, b - {x});
    }
  }

  /**
   `getFallbackLocales`: the locales met by following the table from
   `locale`, looked up as given (the input is not normalised), or None when
   the loop never ends. It ends exactly when the chain reaches a locale
   without an entry; the list then starts at the entry of `locale`, follows
   the table, ends at a locale with no entry, and honours the fallback
   contract.
   */
  function GetFallbackLocales(c: ConfigurableFallback, locale: string): (r: Option<seq<string>>)
    ensures locale !in c.fallbacks ==> r == Some([])
    ensures r.Some? && r.value == [] ==> locale !in c.fallbacks
    ensures r.None? <==> Diverges(c.fallbacks, locale)
    ensures r.Some? ==>
      && HonoursContract(locale, r.value)
      && Distinct(r.value)
      && |r.value| <= |c.fallbacks|
    ensures r.Some? && r.value != [] ==>
      && r.value[0] == c.fallbacks[locale]
      && (forall i :: 0 <= i < |r.value| - 1 ==>
            r.value[i] in c.fallbacks && r.value[i + 1] == c.fallbacks[r.value[i]])
      && r.value[|r.value| - 1] !in c.fallbacks
  {
    var m := c.fallbacks;
    var r := Walk(m, locale, |m|);
    match r
    case None =>
      WalkOutOfFuelDiverges(m, locale);
      r
    case Some(fs) =>
      WalkVisitsEachLocaleOnce(m, locale, |m|, fs);
      WalkFollowsTable(m, locale, |m|, fs);
      r
  }

  /** When `Walk` runs out of |table| iterations, the loop never ends. */
  lemma WalkOutOfFuelDiverges(m: map<string, string>, locale: string)
    requires Walk(m, locale, |m|).None?
    ensures Diverges(m, locale)
  {
    Pigeonhole(m, locale);
    var a: nat, b: nat :| a < b <= |m| && Follow(m, locale, a) == Follow(m, locale, b);
    RevisitDiverges(m, locale, a, b);
  }

  /** A loop that ends never appends a locale twice, nor the locale it started from. */
  lemma WalkVisitsEachLocaleOnce(m: map<string, string>, locale: string, fuel: nat, fs: seq<string>)
    requires Walk(m, locale, fuel) == Some(fs)
    ensures HonoursContract(locale, fs) && Distinct(fs)
  {
    forall i, j | 0 <= i < j < |fs| ensures fs[i] != fs[j] {
      if fs[i] == fs[j] {
        RevisitDiverges(m, locale, i + 1, j + 1);
        assert false;
      }
    }
    forall j | 0 <= j < |fs| ensures fs[j] != locale {
      if fs[j] == locale {
        RevisitDiverges(m, locale, 0, j + 1);
        assert false;
      }
    }
  }

  /** A loop that ends appends the entry of the locale, then the entry of each appended locale in turn. */
  lemma WalkFollowsTable(m: map<string, string>, locale: string, fuel: nat, fs: seq<string>)
    requires Walk(m, locale, fuel) == Some(fs)
    ensures fs != [] ==> fs[0] == m[locale]
    ensures forall i :: 0 <= i < |fs| - 1 ==> fs[i] in m && fs[i + 1] == m[fs[i]]
  {
    forall i | 0 <= i < |fs| - 1 ensures fs[i] in m && fs[i + 1] == m[fs[i]] {
      FollowAdd(m, locale, i + 1, 1);
    }
    if fs != [] {
      assert fs[0] == Follow(m, locale, 1);
    }
  }

  /** A locale that falls back to itself stays put. */
  lemma {:induction false} FollowSelfMapped(m: map<string, string>, l: string, n: nat)
    requires l in m && m[l] == l
    ensures Follow(m, l, n) == l
    decreases n
  {
    if n > 0 {
      FollowSelfMapped(m, l, n - 1);
    }
  }

  /**
   `addFallback`: the normalised locale now falls back to the normalised
   fallback locale, replacing any earlier entry; no other entry changes.
   */
  function AddFallback(c: ConfigurableFallback, norm: Normalizer, locale: string, fallbackLocale: string): (r: ConfigurableFallback)
    ensures norm(locale) in r.fallbacks && r.fallbacks[norm(locale)] == norm(fallbackLocale)
    ensures forall l :: l != norm(locale) ==> (l in r.fallbacks <==> l in c.fallbacks)
    ensures forall l :: l in c.fallbacks && l != norm(locale) ==> r.fallbacks[l] == c.fallbacks[l]
  {
    ConfigurableFallback(c.fallbacks[norm(locale) := norm(fallbackLocale)])
  }

  /** No pair among the first `n` normalises its locale to `l`. */
  predicate Untouched(norm: Normalizer, pairs: seq<(string, string)>, n: nat, l: string)
    requires n <= |pairs|
  {
    forall j :: 0 <= j < n ==> norm(pairs[j].0) != l
  }

  /** Among the first `n` pairs, pair `j` is the last whose locale normalises like its own. */
  predicate LastFor(norm: Normalizer, pairs: seq<(string, string)>, n: nat, j: int)
    requires n <= |pairs|
  {
    0 <= j < n && forall j' :: j < j' < n ==> norm(pairs[j'].0) != norm(pairs[j].0)
  }

  /**
   The table `r` is the table `c` after the first `n` pairs are added: the
   keys are the old ones and the normalised locales of those pairs; each such
   locale falls back to the normalised fallback of the last pair naming it;
   every other entry is as before.
   */
  ghost predicate AddedPrefix(c: ConfigurableFallback, norm: Normalizer, pairs: seq<(string, string)>, n: nat, r: ConfigurableFallback)
    requires n <= |pairs|
  {
    && (forall l :: l in r.fallbacks <==> l in c.fallbacks || !Untouched(norm, pairs, n, l))
    && (forall j :: LastFor(norm, pairs, n, j) ==> r.fallbacks[norm(pairs[j].0)] == norm(pairs[j].1))
    && (forall l :: l in c.fallbacks && Untouched(norm, pairs, n, l) ==> r.fallbacks[l] == c.fallbacks[l])
  }

  /** The keys after adding pair `n`: one more normalised locale. */
  lemma AddNextPairKeys(c: ConfigurableFallback, norm: Normalizer, pairs: seq<(string, string)>, n: nat, r: ConfigurableFallback)
    requires n < |pairs|
    requires forall l :: l in r.fallbacks <==> l in c.fallbacks || !Untouched(norm, pairs, n, l)
    ensures var r' := AddFallback(r, norm, pairs[n].0, pairs[n].1);
      forall l :: l in r'.fallbacks <==> l in c.fallbacks || !Untouched(norm, pairs, n + 1, l)
  {
    var r' := AddFallback(r, norm, pairs[n].0, pairs[n].1);
    forall l ensures l in r'.fallbacks <==> l in c.fallbacks || !Untouched(norm, pairs, n + 1, l) {
      if l != norm(pairs[n].0) {
        assert Untouched(norm, pairs, n + 1, l) <==> Untouched(norm, pairs, n, l);
      }
    }
  }

  /** The entries after adding pair `n`: the last pair naming a locale decides its fallback. */
  lemma AddNextPairLastWins(c: ConfigurableFallback, norm: Normalizer, pairs: seq<(string, string)>, n: nat, r: ConfigurableFallback)
    requires n < |pairs|
    requires forall j :: LastFor(norm, pairs, n, j) ==>
      norm(pairs[j].0) in r.fallbacks && r.fallbacks[norm(pairs[j].0)] == norm(pairs[j].1)
    ensures var r' := AddFallback(r, norm, pairs[n].0, pairs[n].1);
      forall j :: LastFor(norm, pairs, n + 1, j) ==>
        norm(pairs[j].0) in r'.fallbacks && r'.fallbacks[norm(pairs[j].0)] == norm(pairs[j].1)
  {
    var r' := AddFallback(r, norm, pairs[n].0, pairs[n].1);
    forall j | LastFor(norm, pairs, n + 1, j)
      ensures norm(pairs[j].0) in r'.fallbacks && r'.fallbacks[norm(pairs[j].0)] == norm(pairs[j].1)
    {
      if j < n {
        assert LastFor(norm, pairs, n, j);
      }
    }
  }

  /** Adding pair `n` keeps the entries no pair has named. */
  lemma AddNextPairKeepsOthers(c: ConfigurableFallback, norm: Normalizer, pairs: seq<(string, string)>, n: nat, r: ConfigurableFallback)
    requires n < |pairs|
    requires forall l :: l in r.fallbacks <==> l in c.fallbacks || !Untouched(norm, pairs, n, l)
    requires forall l :: l in c.fallbacks && Untouched(norm, pairs, n, l) ==> r.fallbacks[l] == c.fallbacks[l]
    ensures var r' := AddFallback(r, norm, pairs[n].0, pairs[n].1);
      forall l :: l in c.fallbacks && Untouched(norm, pairs, n + 1, l) ==>
        l in r'.fallbacks && r'.fallbacks[l] == c.fallbacks[l]
  {
    var r' := AddFallback(r, norm, pairs[n].0, pairs[n].1);
    forall l | l in c.fallbacks && Untouched(norm, pairs, n + 1, l)
      ensures l in r'.fallbacks && r'.fallbacks[l] == c.fallbacks[l]
    {
      assert Untouched(norm, pairs, n, l);
    }
  }

  /** Adding pair `n` to the table built from the first `n` pairs gives the table built from `n + 1`. */
  lemma AddNextPair(c: ConfigurableFallback, norm: Normalizer, pairs: seq<(string, string)>, n: nat, r: ConfigurableFallback)
    requires n < |pairs|
    requires AddedPrefix(c, norm, pairs, n, r)
    ensures AddedPrefix(c, norm, pairs, n + 1, AddFallback(r, norm, pairs[n].0, pairs[n].1))
  {
    AddNextPairKeys(c, norm, pairs, n, r);
    AddNextPairLastWins(c, norm, pairs, n, r);
    AddNextPairKeepsOthers(c, norm, pairs, n, r);
  }

  /**
   `addFallbacks`: `addFallback` for each (locale, fallback) pair in
   iteration order, so that of two pairs whose locales normalise alike, the
   later one wins.
   */
  method AddFallbacks(c: ConfigurableFallback, norm: Normalizer, pairs: seq<(string, string)>) returns (r: ConfigurableFallback)
    ensures AddedPrefix(c, norm, pairs, |pairs|, r)
  {
    r := c;
    for n := 0 to |pairs|
      invariant AddedPrefix(c, norm, pairs, n, r)
    {
      AddNextPair(c, norm, pairs, n, r);
      r := AddFallback(r, norm, pairs[n].0, pairs[n].1);
    }
  }

  /**
   The table is looked up with the locale exactly as given. After
   `addFallback(a, b)`, a raw `a` that had no entry and is not already
   normalised still has no fallbacks, while its normalised form falls back
   to the normalised `b` first.
   */
  lemma LookupIsNotNormalised(c: ConfigurableFallback, norm: Normalizer, a: string, b: string)
    requires a !in c.fallbacks && a != norm(a)
    ensures GetFallbackLocales(AddFallback(c, norm, a, b), a) == Some([])
    ensures var r := GetFallbackLocales(AddFallback(c, norm, a, b), norm(a));
      r.Some? ==> r.value != [] && r.value[0] == norm(b)
  {
  }

  /** A locale configured to fall back to itself makes `getFallbackLocales` loop for ever. */
  lemma SelfMappingDiverges(c: ConfigurableFallback, norm: Normalizer, a: string)
    ensures GetFallbackLocales(AddFallback(c, norm, a, a), norm(a)).None?
  {
    var m := AddFallback(c, norm, a, a).fallbacks;
    forall n: nat ensures Follow(m, norm(a), n) in m {
      FollowSelfMapped(m, norm(a), n);
    }
  }
}
