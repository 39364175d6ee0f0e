/**
 * The university-page test of the save-button content script (src/content-script.ts):
 * a page is a university page when its lower-cased URL matches one of six path patterns,
 * or when its lower-cased text contains at least three of twelve program keywords.
 */
module ContentScript {
  import opened Wrappers
  import opened Text

  /**
   * `/\.edu\//`, `/\.ac\.uk\//`, `/\/programs?\//`, `/\/courses?\//`, `/\/degrees?\//`,
   * `/\/admissions?\//`, each optional `s` written out as two literal alternatives.
   */
  const UrlPatterns: seq<string> := [
    ".edu/", ".ac.uk/", "/program/", "/programs/", "/course/", "/courses/",
    "/degree/", "/degrees/", "/admission/", "/admissions/"]

  const PageKeywords: seq<string> := [
    "bachelor", "master", "phd", "doctorate", "degree", "program", "major",
    "tuition", "semester", "credit", "admission", "application"]

  const KeywordThreshold := 3

  /** `programKeywords.filter(k => content.includes(k))`. */
  function PresentKeywords(text: string, words: seq<string>): seq<string> {
    if words == [] then []
    else (if Contains(text, words[0]) then [words[0]] else []) + PresentKeywords(text, words[1..])
  }

  predicate HasUniversityUrl(url: string) {
    ContainsAny(url, UrlPatterns)
  }

  /** `detectUniversityPage`; a missing body text counts as "". */
  predicate DetectUniversityPage(href: string, content: Option<string>) {
    HasUniversityUrl(Lower(href)) || |PresentKeywords(Lower(content.GetOr([])), PageKeywords)| >= KeywordThreshold
  }

  // ---------------------------------------------------------------------------
  // The keyword count

  /** The present keywords are the listed ones that occur, each at most once, in list order. */
  lemma {:induction false} PresentKeywordsSound(text: string, words: seq<string>)
    ensures |PresentKeywords(text, words)| <= |words|
    ensures forall w :: w in PresentKeywords(text, words) <==> w in words && Contains(text, w)
  {
    if words != [] {
      PresentKeywordsSound(text, words[1..]);
      assert words == [words[0]] + words[1..];
    }
  }

  predicate Distinct(words: seq<string>) {
    forall i, j | 0 <= i < j < |words| :: words[i] != words[j]
  }

  lemma {:induction false} PresentKeywordsDistinct(text: string, words: seq<string>)
    requires Distinct(words)
    ensures Distinct(PresentKeywords(text, words))
  {
    if words != [] {
      var rest := PresentKeywords(text, words[1..]);
      assert Distinct(words[1..]) by {
        forall i, j | 0 <= i < j < |words[1..]|
          ensures words[1..][i] != words[1..][j]
        {
          assert words[1..][i] == words[i + 1] && words[1..][j] == words[j + 1];
        }
      }
      PresentKeywordsDistinct(text, words[1..]);
      PresentKeywordsSound(text, words[1..]);
      if Contains(text, words[0]) {
        assert words[0] !in words[1..] by {
          forall k | 0 <= k < |words[1..]|
            ensures words[1..][k] != words[0]
          {
            assert words[1..][k] == words[k + 1];
          }
        }
        var r := [words[0]] + rest;
        forall i, j | 0 <= i < j < |r|
          ensures r[i] != r[j]
        {
          assert r[j] == rest[j - 1] && r[j] in rest;
          if i > 0 {
            assert r[i] == rest[i - 1];
          }
        }
      }
    }
  }

  /** The count counts each of the twelve keywords at most once. */
  lemma KeywordCountBounded(text: string)
    ensures |PresentKeywords(text, PageKeywords)| <= |PageKeywords| == 12
    ensures Distinct(PresentKeywords(text, PageKeywords))
  {
    PresentKeywordsSound(text, PageKeywords);
    PageKeywordsDistinct();
    PresentKeywordsDistinct(text, PageKeywords);
  }

  lemma PageKeywordsDistinct()
    ensures Distinct(PageKeywords)
  {
  }

  /** Keywords present at strictly increasing positions `idx` are all counted. */
  lemma {:induction false} PresentKeywordsAtLeast(text: string, words: seq<string>, idx: seq<nat>)
    requires forall t | 0 <= t < |idx| :: idx[t] < |words| && Contains(text, words[idx[t]])
    requires forall s, t | 0 <= s < t < |idx| :: idx[s] < idx[t]
    ensures |PresentKeywords(text, words)| >= |idx|
    decreases |words|
  {
    if idx != [] {
      if idx[0] == 0 {
        var idx' := seq(|idx| - 1, t requires 0 <= t < |idx| - 1 => idx[t + 1] - 1);
        forall t | 0 <= t < |idx'|
          ensures idx'[t] < |words[1..]| && Contains(text, words[1..][idx'[t]])
        {
          assert idx[0] < idx[t + 1];
          assert words[1..][idx'[t]] == words[idx[t + 1]];
        }
        forall s, t | 0 <= s < t < |idx'|
          ensures idx'[s] < idx'[t]
        {
          assert idx[s + 1] < idx[t + 1];
        }
        PresentKeywordsAtLeast(text, words[1..], idx');
      } else {
        var idx' := seq(|idx|, t requires 0 <= t < |idx| => idx[t] - 1);
        forall t | 0 <= t < |idx'|
          ensures idx'[t] < |words[1..]| && Contains(text, words[1..][idx'[t]])
        {
          if t > 0 {
            assert idx[0] < idx[t];
          }
          assert words[1..][idx'[t]] == words[idx[t]];
        }
        forall s, t | 0 <= s < t < |idx'|
          ensures idx'[s] < idx'[t]
        {
          assert idx[s] < idx[t];
        }
        PresentKeywordsAtLeast(text, words[1..], idx');
      }
    }
  }

  // ---------------------------------------------------------------------------
  // The test

  /** Both directions: some pattern in the URL, or at least three keywords in the text. */
  lemma DetectUniversityPageIff(href: string, content: Option<string>)
    ensures DetectUniversityPage(href, content) <==>
      (exists p | 0 <= p < |UrlPatterns| :: Contains(Lower(href), UrlPatterns[p])) ||
      |PresentKeywords(Lower(content.GetOr([])), PageKeywords)| >= KeywordThreshold
  {
    ContainsAnyIff(Lower(href), UrlPatterns);
  }

  /** A URL with any of the path patterns, in any case, is a university page whatever its text. */
  lemma UrlPatternSuffices(href: string, content: Option<string>, p: nat)
    requires p < |UrlPatterns| && Contains(Lower(href), UrlPatterns[p])
    ensures DetectUniversityPage(href, content)
  {
    ContainsAnyIff(Lower(href), UrlPatterns);
  }

  /** Three different keywords in the text make a university page whatever its URL. */
  lemma ThreeKeywordsSuffice(href: string, content: Option<string>, i: nat, j: nat, k: nat)
    requires i < j < k < |PageKeywords|
    requires var text := Lower(content.GetOr([]));
      Contains(text, PageKeywords[i]) && Contains(text, PageKeywords[j]) && Contains(text, PageKeywords[k])
    ensures DetectUniversityPage(href, content)
  {
    PresentKeywordsAtLeast(Lower(content.GetOr([])), PageKeywords, [i, j, k]);
  }

  /** The test ignores the case of the URL and of the text. */
  lemma DetectUniversityPageCaseInsensitive(href: string, content: Option<string>)
    ensures DetectUniversityPage(Lower(href), Some(Lower(content.GetOr([])))) == DetectUniversityPage(href, content)
  {
    LowerIdempotent(href);
    LowerIdempotent(content.GetOr([]));
  }
}
