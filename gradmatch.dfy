/**
 * The program-matching content script (src/content.ts): keyword tests that decide whether
 * a search or a page is about graduate programs, the order in which a university name is
 * looked for, and the bounded list of recent matches kept in local storage.
 */
module GradMatch {
  import opened Wrappers
  import opened Text

  const ProgramKeywords: seq<string> := [
    "graduate program", "masters program", "phd program", "doctoral program",
    "msc", "ma program", "graduate degree", "graduate school", "graduate studies",
    "graduate admissions", "graduate application", "graduate requirements", "graduate scholarship",
    "university", "college", "department", "faculty", "school of", "program of study",
    "degree program", "research program", "graduate research", "graduate faculty"]

  /** `keywords.map(k => k.toLowerCase())`. */
  function LowerAll(words: seq<string>): (r: seq<string>)
    ensures |r| == |words|
    ensures forall k | 0 <= k < |words| :: r[k] == Lower(words[k])
  {
    seq(|words|, k requires 0 <= k < |words| => Lower(words[k]))
  }

  /** `PROGRAM_KEYWORDS.some(keyword => text.includes(keyword.toLowerCase()))` on the lower-cased text. */
  predicate MentionsProgram(text: string) {
    ContainsAny(Lower(text), LowerAll(ProgramKeywords))
  }

  /** `isGraduateSearch`: the `q` parameter, when there is one, mentions a program keyword. */
  predicate IsGraduateSearch(query: Option<string>) {
    MentionsProgram(query.GetOr([]))
  }

  /** `detectProgramPage`: the page text mentions a program keyword, and extraction proceeds. */
  predicate DetectProgramPage(pageText: string) {
    MentionsProgram(pageText)
  }

  /** The keyword test holds exactly when some keyword, lower-cased, occurs in the lower-cased text. */
  lemma MentionsProgramIff(text: string)
    ensures MentionsProgram(text) <==>
      exists k | 0 <= k < |ProgramKeywords| :: Contains(Lower(text), Lower(ProgramKeywords[k]))
  {
    ContainsAnyIff(Lower(text), LowerAll(ProgramKeywords));
    var lowered := LowerAll(ProgramKeywords);
    if MentionsProgram(text) {
      var k :| 0 <= k < |lowered| && Contains(Lower(text), lowered[k]);
      assert Contains(Lower(text), Lower(ProgramKeywords[k]));
    }
  }

  /** A search without a `q` parameter, or with an empty one, is never a graduate search. */
  lemma NoQueryIsNotGraduateSearch()
    ensures !IsGraduateSearch(None) && !IsGraduateSearch(Some([]))
  {
    MentionsProgramIff([]);
    assert forall k | 0 <= k < |ProgramKeywords| :: |Lower(ProgramKeywords[k])| > 0;
  }

  /** The tests ignore the case of the query and of the page. */
  lemma MentionsProgramCaseInsensitive(text: string)
    ensures MentionsProgram(Lower(text)) == MentionsProgram(text)
  {
    LowerIdempotent(text);
  }

  /** A page that mentions "university" in any case is a program page. */
  lemma UniversityPageDetected(pageText: string)
    requires Contains(Lower(pageText), "university")
    ensures DetectProgramPage(pageText)
  {
    MentionsProgramIff(pageText);
    assert Lower(ProgramKeywords[13]) == "university";
  }

  // ---------------------------------------------------------------------------
  // extractUniversityName

  /**
   * `extractUniversityName`. The regular-expression matches are inputs: the match in the
   * document title, and the match in each `h1, h2, h3` heading in document order.
   */
  method ExtractUniversityName(titleMatch: Option<string>, headingMatches: seq<Option<string>>, hostname: string)
    returns (name: string)
    ensures titleMatch.Some? ==> name == Trim(titleMatch.value)
    ensures forall i | 0 <= i < |headingMatches| && headingMatches[i].Some? ::
      titleMatch.None? && (forall j | 0 <= j < i :: headingMatches[j].None?) ==> name == Trim(headingMatches[i].value)
    ensures titleMatch.None? && (forall j | 0 <= j < |headingMatches| :: headingMatches[j].None?) ==> name == hostname
  {
    if titleMatch.Some? {
      return Trim(titleMatch.value);
    }
    for i := 0 to |headingMatches|
      invariant forall j | 0 <= j < i :: headingMatches[j].None?
    {
      if headingMatches[i].Some? {
        return Trim(headingMatches[i].value);
      }
    }
    return hostname;
  }

  // ---------------------------------------------------------------------------
  // saveToRecentMatches

  /** An entry of `recentMatches`; the enhanced fields it also carries play no part here. */
  datatype RecentMatch = RecentMatch(url: string, programName: string, universityName: string)

  const MaxRecent := 10

  /** `matches.filter(match => match.url !== url)`. */
  function WithoutUrl(matches: seq<RecentMatch>, url: string): seq<RecentMatch> {
    if matches == [] then []
    else (if matches[0].url != url then [matches[0]] else []) + WithoutUrl(matches[1..], url)
  }

  lemma {:induction false} WithoutUrlMembers(matches: seq<RecentMatch>, url: string)
    ensures forall m :: m in WithoutUrl(matches, url) <==> m in matches && m.url != url
  {
    if matches != [] {
      WithoutUrlMembers(matches[1..], url);
      assert matches == [matches[0]] + matches[1..];
    }
  }

  /** The filter works entry by entry, so the entries it keeps stay in their order. */
  lemma {:induction false} WithoutUrlAppend(a: seq<RecentMatch>, b: seq<RecentMatch>, url: string)
    ensures WithoutUrl(a + b, url) == WithoutUrl(a, url) + WithoutUrl(b, url)
  {
    if a != [] {
      assert (a + b)[1..] == a[1..] + b;
      WithoutUrlAppend(a[1..], b, url);
    } else {
      assert a + b == b;
    }
  }

  predicate DistinctUrls(matches: seq<RecentMatch>) {
    forall i, j | 0 <= i < j < |matches| :: matches[i].url != matches[j].url
  }

  /** A list with an entry in front has distinct URLs when the rest has and lacks the entry's URL. */
  lemma DistinctUrlsCons(m: RecentMatch, rest: seq<RecentMatch>)
    ensures DistinctUrls([m] + rest) <==> DistinctUrls(rest) && forall x | x in rest :: x.url != m.url
  {
    var r := [m] + rest;
    if DistinctUrls(r) {
      forall i, j | 0 <= i < j < |rest|
        ensures rest[i].url != rest[j].url
      {
        assert rest[i] == r[i + 1] && rest[j] == r[j + 1];
      }
      forall x | x in rest
        ensures x.url != m.url
      {
        var k :| 0 <= k < |rest| && rest[k] == x;
        assert r[0] == m && r[k + 1] == x;
      }
    }
    if DistinctUrls(rest) && forall x | x in rest :: x.url != m.url {
      forall i, j | 0 <= i < j < |r|
        ensures r[i].url != r[j].url
      {
        assert r[j] == rest[j - 1] && r[j] in rest;
        if i > 0 {
          assert r[i] == rest[i - 1];
        }
      }
    }
  }

  lemma {:induction false} WithoutUrlKeepsDistinct(matches: seq<RecentMatch>, url: string)
    requires DistinctUrls(matches)
    ensures DistinctUrls(WithoutUrl(matches, url))
  {
    if matches != [] {
      assert matches == [matches[0]] + matches[1..];
      DistinctUrlsCons(matches[0], matches[1..]);
      WithoutUrlKeepsDistinct(matches[1..], url);
      if matches[0].url != url {
        var rest := WithoutUrl(matches[1..], url);
        WithoutUrlMembers(matches[1..], url);
        DistinctUrlsCons(matches[0], rest);
      }
    }
  }

  /**
   * `saveToRecentMatches`: the stored list (empty when absent), without the entries for
   * this URL, with the new entry in front, cut to the ten most recent.
   */
  method SaveToRecentMatches(stored: Option<seq<RecentMatch>>, entry: RecentMatch) returns (recent: seq<RecentMatch>)
    ensures |recent| > 0 && recent[0] == entry
    ensures forall i | 1 <= i < |recent| :: recent[i].url != entry.url
    ensures |recent| <= MaxRecent
    ensures var kept := WithoutUrl(stored.GetOr([]), entry.url);
      |recent| == (if 1 + |kept| > MaxRecent then MaxRecent else 1 + |kept|) && recent[1..] == kept[..|recent| - 1]
    ensures DistinctUrls(stored.GetOr([])) ==> DistinctUrls(recent)
  {
    recent := stored.GetOr([]);
    ghost var old_recent := recent;
    WithoutUrlMembers(recent, entry.url);
    if DistinctUrls(recent) {
      WithoutUrlKeepsDistinct(recent, entry.url);
    }
    recent := WithoutUrl(recent, entry.url);
    ghost var kept := recent;
    assert forall i | 0 <= i < |kept| :: kept[i] in kept;
    recent := [entry] + recent;
    if |recent| > MaxRecent {
      recent := recent[..MaxRecent];
    }
    assert forall i | 1 <= i < |recent| :: recent[i] == kept[i - 1];
    if DistinctUrls(old_recent) {
      forall i, j | 0 <= i < j < |recent|
        ensures recent[i].url != recent[j].url
      {
        if i > 0 {
          assert recent[i] == kept[i - 1] && recent[j] == kept[j - 1];
        }
      }
    }
  }
}
