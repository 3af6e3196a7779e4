/**
 * The three fixed, case-insensitive regular expressions of the location resolver:
 *   /\bOcean\b/i                        -- OceanWord
 *   /(Sea|Gulf|Bay|Strait|Channel)/i    -- MarineName
 *   /Ocean|Sea/i                        -- OceanOrSea
 * None of them carries the `u` flag, so case folding maps only ASCII letters onto
 * ASCII letters, and `\w` is exactly [A-Za-z0-9_].
 *
 * Each test is an executable scan (SearchFrom over MatchesAt); the lemmas
 * MatchesAtIsOccurrence and SearchFromFindsMatch tie it to a declarative
 * reference definition: "the lower-cased keyword occurs at some position"
 * (OccursAt), with `\b` on both sides for the whole-word pattern.
 */
module Patterns {

  /** ASCII case folding. */
  function Lower(c: char): char {
    if 'A' <= c <= 'Z' then (c as int + 32) as char else c
  }

  /** The `\w` character class. */
  predicate IsWordChar(c: char) {
    'a' <= c <= 'z' || 'A' <= c <= 'Z' || '0' <= c <= '9' || c == '_'
  }

  /** `\b` at position k: the characters on either side differ in being word characters. */
  predicate IsBoundary(s: string, k: int)
    requires 0 <= k <= |s|
  {
    (k > 0 && IsWordChar(s[k - 1])) != (k < |s| && IsWordChar(s[k]))
  }

  /** The lower-case keyword w occurs in s at position i, ignoring ASCII case. */
  ghost predicate OccursAt(s: string, i: int, w: string) {
    0 <= i && i + |w| <= |s| && forall j :: 0 <= j < |w| ==> Lower(s[i + j]) == w[j]
  }

  /** As OccursAt, with a `\b` before and after the occurrence. */
  ghost predicate WordOccursAt(s: string, i: int, w: string) {
    OccursAt(s, i, w) && IsBoundary(s, i) && IsBoundary(s, i + |w|)
  }

  ghost predicate MatchAt(s: string, i: int, w: string, whole: bool) {
    if whole then WordOccursAt(s, i, w) else OccursAt(s, i, w)
  }

  ghost predicate Contains(s: string, w: string) {
    exists i :: OccursAt(s, i, w)
  }

  /** Compares w with s from position i on, one character at a time. */
  function MatchesAt(s: string, i: nat, w: string): bool
    decreases |w|
  {
    if |w| == 0 then i <= |s|
    else if i >= |s| then false
    else Lower(s[i]) == w[0] && MatchesAt(s, i + 1, w[1..])
  }

  /** Tries every start position from i on, as a regular-expression test does. */
  function SearchFrom(s: string, w: string, whole: bool, i: nat): bool
    decreases |s| + 1 - i
  {
    if i + |w| > |s| then false
    else
      (MatchesAt(s, i, w) && (!whole || (IsBoundary(s, i) && IsBoundary(s, i + |w|)))) ||
      SearchFrom(s, w, whole, i + 1)
  }

  /** The character-by-character comparison succeeds exactly when the keyword occurs there. */
  lemma {:induction false} MatchesAtIsOccurrence(s: string, i: nat, w: string)
    ensures MatchesAt(s, i, w) <==> OccursAt(s, i, w)
    decreases |w|
  {
    if |w| > 0 && i < |s| {
      MatchesAtIsOccurrence(s, i + 1, w[1..]);
      if Lower(s[i]) == w[0] && OccursAt(s, i + 1, w[1..]) {
        forall j | 0 <= j < |w| ensures Lower(s[i + j]) == w[j] {
          if j > 0 {
            assert Lower(s[(i + 1) + (j - 1)]) == w[1..][j - 1];
          }
        }
      }
      if OccursAt(s, i, w) {
        forall j | 0 <= j < |w[1..]| ensures Lower(s[(i + 1) + j]) == w[1..][j] {
          assert Lower(s[i + (j + 1)]) == w[j + 1];
        }
      }
    }
  }

  /** The scan from position i succeeds exactly when the keyword matches at some position from i on. */
  lemma {:induction false} SearchFromFindsMatch(s: string, w: string, whole: bool, i: nat)
    ensures SearchFrom(s, w, whole, i) <==> exists k :: i <= k && MatchAt(s, k, w, whole)
    decreases |s| + 1 - i
  {
    if i + |w| <= |s| {
      MatchesAtIsOccurrence(s, i, w);
      SearchFromFindsMatch(s, w, whole, i + 1);
      assert MatchAt(s, i, w, whole) <==>
        MatchesAt(s, i, w) && (!whole || (IsBoundary(s, i) && IsBoundary(s, i + |w|)));
      forall k | i <= k && MatchAt(s, k, w, whole) ensures MatchAt(s, i, w, whole) || i + 1 <= k {
      }
    } else {
      forall k | i <= k ensures !MatchAt(s, k, w, whole) {
        assert !OccursAt(s, k, w);
      }
    }
  }

  /** /\bOcean\b/i.test(s) */
  function OceanWord(s: string): (b: bool)
    ensures b <==> exists k :: WordOccursAt(s, k, "ocean")
  {
    var r := SearchFrom(s, "ocean", true, 0);
    assert r <==> exists k :: WordOccursAt(s, k, "ocean") by {
      SearchFromFindsMatch(s, "ocean", true, 0);
      if r {
        var k :| 0 <= k && MatchAt(s, k, "ocean", true);
        assert WordOccursAt(s, k, "ocean");
      }
      if exists k :: WordOccursAt(s, k, "ocean") {
        var k :| WordOccursAt(s, k, "ocean");
        assert 0 <= k && MatchAt(s, k, "ocean", true);
      }
    }
    r
  }

  const MarineKeywords: seq<string> := ["sea", "gulf", "bay", "strait", "channel"]

  /** /(Sea|Gulf|Bay|Strait|Channel)/i.test(s) */
  function MarineName(s: string): (b: bool)
    ensures b <==> exists w :: w in MarineKeywords && Contains(s, w)
  {
    Search(s, "sea") || Search(s, "gulf") || Search(s, "bay") || Search(s, "strait") || Search(s, "channel")
  }

  /** /Ocean|Sea/i.test(s) */
  function OceanOrSea(s: string): (b: bool)
    ensures b <==> Contains(s, "ocean") || Contains(s, "sea")
  {
    Search(s, "ocean") || Search(s, "sea")
  }

  /** Plain (not whole-word) case-insensitive search for one keyword. */
  function Search(s: string, w: string): (b: bool)
    ensures b <==> Contains(s, w)
  {
    var r := SearchFrom(s, w, false, 0);
    assert r <==> Contains(s, w) by {
      SearchFromFindsMatch(s, w, false, 0);
      if r {
        var k :| 0 <= k && MatchAt(s, k, w, false);
        assert OccursAt(s, k, w);
      }
      if Contains(s, w) {
        var k :| OccursAt(s, k, w);
        assert 0 <= k && MatchAt(s, k, w, false);
      }
    }
    r
  }

  /** A text any of the three patterns accepts is long enough to hold the keyword, so never empty. */
  lemma MatchedTextIsNonEmpty(s: string)
    ensures OceanWord(s) ==> |s| >= 5
    ensures MarineName(s) ==> |s| >= 3
    ensures OceanOrSea(s) ==> |s| >= 3
  {
    if MarineName(s) {
      var w :| w in MarineKeywords && Contains(s, w);
      assert |w| >= 3;
    }
  }

  /** The marine and locality patterns are bare substring tests, so they also fire inside longer words. */
  lemma SubstringsMatchInsideWords()
    ensures MarineName("Seattle") && MarineName("Bayonne") && OceanOrSea("Oceania")
  {
    assert OccursAt("Seattle", 0, "sea");
    assert "sea" in MarineKeywords;
    assert OccursAt("Bayonne", 0, "bay");
    assert "bay" in MarineKeywords;
    assert OccursAt("Oceania", 0, "ocean");
  }

  /** `\b` keeps the ocean pattern from matching inside a longer word. */
  lemma OceanMustBeWholeWord()
    ensures !OceanWord("Oceania")
  {
  }

  /** `_` is a word character, so it does not make a word boundary either. */
  lemma UnderscoreIsNoBoundary()
    ensures !OceanWord("Pacific_Ocean")
  {
  }

  /** A named ocean passes the ocean scan. */
  lemma OceanName()
    ensures OceanWord("South Atlantic Ocean")
  {
    assert WordOccursAt("South Atlantic Ocean", 15, "ocean");
  }

  /** A sea does not pass the ocean scan. */
  lemma SeaName()
    ensures !OceanWord("Sargasso Sea") && MarineName("Sargasso Sea")
  {
    assert OccursAt("Sargasso Sea", 9, "sea");
    assert "sea" in MarineKeywords;
  }

  /** A bay is a marine feature and not an ocean. */
  lemma BayName()
    ensures !OceanWord("Bay of Bengal") && MarineName("Bay of Bengal")
  {
    assert OccursAt("Bay of Bengal", 0, "bay");
    assert "bay" in MarineKeywords;
  }
}
