/**
 TruncateFallback (src/LocaleFallback/TruncateFallback.php): the truncation of
 language tags described in section 4.3.2 of RFC 4646. One step applies
 `preg_replace('/^(.*?)(?:\-[^\-])?\-[^\-]+$/', '$1', locale)`; the policy
 repeats the step until it changes nothing and lists every intermediate
 result. Characters stand for bytes: the pattern has no `u` modifier.
 */
module TruncateFallback {

  import opened Wrappers
  import opened LocaleFallback

  /** `[^\-]+` matches all of `t`. */
  predicate IsSubtag(t: string)
  {
    |t| > 0 && '-' !in t
  }

  /**
   `(?:\-[^\-])?\-[^\-]+$` matches all of `r`: one final subtag, optionally
   preceded by a single-character subtag. (`$` may also match before a final
   newline, but `[^\-]+` matches a newline too, so that adds no match.)
   */
  predicate MatchesTail(r: string)
  {
    || (|r| >= 1 && r[0] == '-' && IsSubtag(r[1..]))
    || (|r| >= 3 && r[0] == '-' && r[1] != '-' && r[2] == '-' && IsSubtag(r[3..]))
  }

  /**
   The whole pattern matches `s` with the capture `(.*?)` holding `s[..k]`:
   `.` does not match a newline, and the rest of `s` matches the tail.
   */
  predicate MatchesAt(s: string, k: nat)
  {
    k <= |s| && '\n' !in s[..k] && MatchesTail(s[k..])
  }

  /** The index of the last `-` in `s`, if any. */
  function LastDash(s: string): (r: Option<nat>)
    ensures r.None? <==> '-' !in s
    ensures r.Some? ==> r.value < |s| && s[r.value] == '-' && '-' !in s[r.value + 1..]
  {
    if |s| == 0 then None
    else if s[|s| - 1] == '-' then Some(|s| - 1)
    else
      var r := LastDash(s[..|s| - 1]);
      assert r.Some? ==> s[r.value + 1..] == s[..|s| - 1][r.value + 1..] + [s[|s| - 1]];
      r
  }

  /**
   One application of the truncation pattern. With `i` the last `-` of the
   locale, followed by a non-empty subtag: the capture ends at `i - 2` when
   the subtag before is a single character (the lazy capture prefers the
   shorter prefix), at `i` otherwise; without such an `i`, or when the capture
   would contain a newline, nothing matches and the locale is returned as is.
   */
  function Truncate(s: string): (r: string)
    ensures |r| <= |s| && r == s[..|r|]
  {
    match LastDash(s)
    case None => s
    case Some(i) =>
      if i == |s| - 1 then s
      else
        var k := if i >= 2 && s[i - 2] == '-' && s[i - 1] != '-' then i - 2 else i;
        if '\n' in s[..k] then s else s[..k]
  }

  /** When `s` has no `-`, the pattern does not match. */
  lemma NoDashNoMatch(s: string)
    requires '-' !in s
    ensures forall k: nat :: !MatchesAt(s, k)
  {
  }

  /** The capture `Truncate` picks is one with which the pattern matches. */
  lemma TruncateCaptureMatches(s: string, i: nat)
    requires LastDash(s) == Some(i) && i < |s| - 1
    ensures var k := if i >= 2 && s[i - 2] == '-' && s[i - 1] != '-' then i - 2 else i;
      MatchesTail(s[k..])
  {
  }

  /**
   `Truncate` is what `preg_replace` computes: it changes the locale exactly
   when the anchored pattern matches, and then it returns the shortest
   capture with which the pattern matches.
   */
  lemma TruncateIsLeftmostLazyMatch(s: string)
    ensures Truncate(s) != s <==> exists k: nat :: MatchesAt(s, k)
    ensures Truncate(s) != s ==>
      && MatchesAt(s, |Truncate(s)|)
      && forall k: nat :: k < |Truncate(s)| ==> !MatchesAt(s, k)
  {
    match LastDash(s)
    case None =>
      NoDashNoMatch(s);
    case Some(i) =>
      MatchesOnlyAtLastDash(s, i);
      if i < |s| - 1 {
        var k := if i >= 2 && s[i - 2] == '-' && s[i - 1] != '-' then i - 2 else i;
        TruncateCaptureMatches(s, i);
        if '\n' in s[..k] {
          forall k': nat | k <= k' <= |s| ensures !MatchesAt(s, k') {
            assert s[..k'][..k] == s[..k];
          }
        } else {
          assert MatchesAt(s, k);
        }
      }
  }

  /**
   With `i` the last `-` of `s`, the pattern can match only with the capture
   ending at `i`, or at `i - 2` when a single-character subtag precedes, and
   only when a subtag follows `i`.
   */
  lemma MatchesOnlyAtLastDash(s: string, i: nat)
    requires i < |s| && s[i] == '-' && '-' !in s[i + 1..]
    ensures forall k: nat :: MatchesAt(s, k) ==>
      && i < |s| - 1
      && (k == i || (k == i - 2 && i >= 2 && s[i - 1] != '-' && s[i - 2] == '-'))
  {
  }

  /** The number of `-` in `s`. */
  function CountDashes(s: string): nat
  {
    if s == [] then 0 else CountDashes(s[..|s| - 1]) + (if s[|s| - 1] == '-' then 1 else 0)
  }

  /** A prefix has no more dashes than the whole, and one fewer when a dash is cut off. */
  lemma {:induction false} CountDashesPrefix(s: string, k: nat)
    requires k <= |s|
    ensures CountDashes(s[..k]) <= CountDashes(s)
    ensures k < |s| && s[k] == '-' ==> CountDashes(s[..k]) < CountDashes(s)
    decreases |s|
  {
    if k < |s| {
      var init := s[..|s| - 1];
      assert init[..k] == s[..k];
      CountDashesPrefix(init, k);
      if k == |s| - 1 {
        assert init == s[..k];
      }
    } else {
      assert s[..k] == s;
    }
  }

  /** A step that changes the locale removes at least one `-`. */
  lemma TruncateRemovesADash(s: string)
    ensures Truncate(s) != s ==> CountDashes(Truncate(s)) < CountDashes(s)
  {
    if Truncate(s) != s {
      var i := LastDash(s).value;
      var k := |Truncate(s)|;
      assert Truncate(s) == s[..k];
      CountDashesPrefix(s[..i + 1], k);
      assert s[..i + 1][..k] == s[..k];
      CountDashesPrefix(s, i + 1);
      assert CountDashes(s[..i + 1]) == CountDashes(s[..i]) + 1 by {
        assert s[..i + 1][..i] == s[..i];
      }
      CountDashesPrefix(s, i);
    }
  }

  /** `a` is a prefix of `b`, and shorter. */
  predicate IsStrictPrefix(a: string, b: string)
  {
    |a| < |b| && a == b[..|a|]
  }

  lemma StrictPrefixesOfPrefix(xs: seq<string>, t: string, s: string)
    requires IsStrictPrefix(t, s)
    requires forall i :: 0 <= i < |xs| ==> IsStrictPrefix(xs[i], t)
    ensures forall i :: 0 <= i < |xs| ==> IsStrictPrefix(xs[i], s)
  {
  }

  /**
   `getFallbackLocales`: every successive truncation of the locale, until a
   step changes nothing. Every entry is a strict prefix of the input, the
   list is no longer than the number of dashes in the input.
   */
  function FallbackLocales(s: string): (r: seq<string>)
    ensures forall i :: 0 <= i < |r| ==> IsStrictPrefix(r[i], s)
    ensures |r| <= CountDashes(s)
    decreases |s|
  {
    var t := Truncate(s);
    if t == s then []
    else
      TruncateRemovesADash(s);
      var rest := FallbackLocales(t);
      StrictPrefixesOfPrefix(rest, t, s);
      [t] + rest
  }

  /**
   The list is the orbit of the truncation step: its first entry truncates
   the input, each later entry truncates the one before, and each entry is a
   strict prefix of every entry before it.
   */
  lemma {:induction false} FallbackLocalesDescend(s: string)
    ensures var r := FallbackLocales(s);
      && (r != [] ==> r[0] == Truncate(s))
      && (forall i :: 0 <= i < |r| - 1 ==> r[i + 1] == Truncate(r[i]))
      && (forall i, j :: 0 <= i < j < |r| ==> IsStrictPrefix(r[j], r[i]))
    decreases |s|
  {
    var t := Truncate(s);
    if t != s {
      var r := FallbackLocales(s);
      var rest := FallbackLocales(t);
      assert r == [t] + rest;
      FallbackLocalesDescend(t);
      forall i, j | 0 <= i < j < |r| ensures IsStrictPrefix(r[j], r[i]) {
        assert r[j] == rest[j - 1];
        if i > 0 { assert r[i] == rest[i - 1]; }
      }
      forall i | 0 <= i < |r| - 1 ensures r[i + 1] == Truncate(r[i]) {
        if i > 0 { assert r[i] == rest[i - 1]; }
      }
    }
  }

  /** The loop stops at a locale that truncation leaves unchanged: the last entry, or the input if there is none. */
  lemma {:induction false} FallbackLocalesEndAtFixedPoint(s: string)
    ensures var r := FallbackLocales(s);
      r != [] ==> Truncate(r[|r| - 1]) == r[|r| - 1]
    decreases |s|
  {
    var t := Truncate(s);
    if t != s {
      var rest := FallbackLocales(t);
      var r := [t] + rest;
      assert FallbackLocales(s) == r;
      if rest == [] {
        assert r[|r| - 1] == t;
      } else {
        FallbackLocalesEndAtFixedPoint(t);
        assert r[|r| - 1] == rest[|rest| - 1];
      }
    }
  }

  /** The list satisfies the fallback contract: it never holds the input locale, nor any locale twice. */
  lemma FallbackLocalesHonourContract(s: string)
    ensures HonoursContract(s, FallbackLocales(s))
    ensures Distinct(FallbackLocales(s))
  {
  }

  /** The list is empty exactly when the pattern does not match the locale at all. */
  lemma FallbackLocalesEmptyIffNoMatch(s: string)
    ensures FallbackLocales(s) == [] <==> forall k: nat :: !MatchesAt(s, k)
  {
    FallbackLocalesUnfold(s);
    TruncateIsLeftmostLazyMatch(s);
  }

  /** One unfolding of `FallbackLocales`. */
  lemma FallbackLocalesUnfold(s: string)
    ensures Truncate(s) == s ==> FallbackLocales(s) == []
    ensures Truncate(s) != s ==> FallbackLocales(s) == [Truncate(s)] + FallbackLocales(Truncate(s))
  {
  }

  /**
   The loop of `getFallbackLocales`: truncate until the result equals its
   input, appending each new truncation.
   */
  method GetFallbackLocales(locale: string) returns (result: seq<string>)
    ensures result == FallbackLocales(locale)
    ensures HonoursContract(locale, result) && Distinct(result)
  {
    result := [];
    var current := locale;
    while true
      invariant FallbackLocales(locale) == result + FallbackLocales(current)
      decreases |current|
    {
      var truncated := Truncate(current);
      if truncated == current {
        FallbackLocalesUnfold(current);
        break;
      }
      FallbackLocalesUnfold(current);
      current := truncated;
      result := result + [current];
    }
    FallbackLocalesHonourContract(locale);
  }

  /** A single-character subtag is stripped together with the subtag after it. */
  lemma TruncatePrivateUseExample()
    ensures Truncate("zh-hant-cn-x-private") == "zh-hant-cn"
  {
    assert LastDash("zh-hant-cn-x-private") == Some(12);
  }

  /** The worked example of the truncation policy. */
  lemma FallbackLocalesExample()
    ensures FallbackLocales("en-us-posix") == ["en-us", "en"]
  {
    assert LastDash("en-us-posix") == Some(5);
    assert Truncate("en-us-posix") == "en-us";
    assert LastDash("en-us") == Some(2);
    assert Truncate("en-us") == "en";
    assert LastDash("en") == None;
  }
}
