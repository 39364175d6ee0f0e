/**
 * The page reader of the content script (content.js): it reads the university, a degree
 * title, tuition, deadline, duration, location and GRE requirement from the page, and
 * offers the result for saving only when both a title and a university were found.
 *
 * The page is observed through `Page`: the elements the selectors found, the texts
 * of the elements `querySelectorAll` listed, the matches each regular expression
 * produced on the page text, and the host name. The matching itself is not part of
 * the model; what is done with the matches is.
 */
module ContentPage {
  import opened Wrappers
  import opened Text
  import opened Programs
  import opened Cascade
  import Extractor

  const NotSpecified := "Not specified"

  // ---------------------------------------------------------------------------
  // University

  /** The first element a university selector found, as far as the name is concerned. */
  datatype Element =
    | Meta(content: Option<string>)
    | Img(alt: Option<string>, titleAttr: Option<string>)
    | Other(textContent: string)

  /** `content`, `alt || title`, or `textContent`; "" stands for a missing attribute. */
  function ElementName(e: Element): string {
    match e
    case Meta(content) => content.GetOr([])
    case Img(alt, titleAttr) => if alt.GetOr([]) != [] then alt.value else titleAttr.GetOr([])
    case Other(textContent) => textContent
  }

  /** The query result of one selector, kept only when it yields a non-empty name. */
  function Named(found: Option<Element>): Option<string> {
    if found.Some? && ElementName(found.value) != [] then Some(ElementName(found.value)) else None
  }

  function Names(elements: seq<Option<Element>>): (names: seq<Option<string>>)
    ensures |names| == |elements|
    ensures forall i | 0 <= i < |elements| :: names[i] == Named(elements[i])
  {
    seq(|elements|, i requires 0 <= i < |elements| => Named(elements[i]))
  }

  /**
   * The suffix `s` matches `\s*<sep>\s*.*$` from its start: after optional whitespace
   * comes `sep`, and after optional whitespace the rest holds no line terminator.
   */
  predicate TailAt(s: string, sep: char) {
    var t := TrimStart(s);
    t != [] && t[0] == sep && NoLineTerminator(TrimStart(t[1..]))
  }

  /** The leftmost position from which the tail matches, or `|s|` when it matches nowhere. */
  function CutIndex(s: string, sep: char): (n: nat)
    ensures n <= |s|
    decreases |s|
  {
    if s == [] || TailAt(s, sep) then 0 else 1 + CutIndex(s[1..], sep)
  }

  /** `s.replace(/\s*<sep>\s*.*$/, '')`: the text before the leftmost position where the tail matches. */
  function StripTail(s: string, sep: char): string {
    s[..CutIndex(s, sep)]
  }

  /** The position where the tail first matches: nowhere before it, and at it unless it is the end. */
  lemma {:induction false} CutIndexLeftmost(s: string, sep: char)
    ensures CutIndex(s, sep) == |s| || TailAt(s[CutIndex(s, sep)..], sep)
    ensures forall p | 0 <= p < CutIndex(s, sep) :: !TailAt(s[p..], sep)
    decreases |s|
  {
    if s != [] && !TailAt(s, sep) {
      var n := CutIndex(s, sep);
      CutIndexLeftmost(s[1..], sep);
      assert s[1..][n - 1..] == s[n..];
      assert s[0..] == s;
      forall p | 1 <= p < n
        ensures !TailAt(s[p..], sep)
      {
        assert s[p..] == s[1..][p - 1..];
      }
    }
  }

  /** The cut is at the leftmost match of the pattern, and what is cut off does match it. */
  lemma StripTailCut(s: string, sep: char)
    ensures var r := StripTail(s, sep);
      && (r == s || TailAt(s[|r|..], sep))
      && forall p | 0 <= p < |r| :: !TailAt(s[p..], sep)
  {
    CutIndexLeftmost(s, sep);
    assert s[..|s|] == s;
  }

  /** A match of the pattern means the separator occurs. */
  lemma TailAtHasSep(s: string, sep: char)
    requires TailAt(s, sep)
    ensures sep in s
  {
    var t := TrimStart(s);
    assert t[0] == s[|s| - |t|];
  }

  lemma NoLineTerminatorSuffix(s: string, n: nat)
    requires n <= |s| && NoLineTerminator(s)
    ensures NoLineTerminator(s[n..])
  {
    assert forall i | 0 <= i < |s| - n :: s[n..][i] == s[n + i];
  }

  /** On a one-line text, the tail matches wherever the separator stands. */
  lemma TailAtSep(s: string, sep: char, i: nat)
    requires NoLineTerminator(s) && !IsSpace(sep)
    requires i < |s| && s[i] == sep
    ensures TailAt(s[i..], sep)
  {
    var x := s[i..];
    TrimStartSkips(x, 0);
    assert x[1..] == s[i + 1..];
    NoLineTerminatorSuffix(s, i + 1);
    var u := s[i + 1..];
    NoLineTerminatorSuffix(u, |u| - |TrimStart(u)|);
  }

  /** On a one-line name whose separator is not whitespace, no separator survives the cut. */
  lemma StripTailRemovesSep(s: string, sep: char)
    requires NoLineTerminator(s) && !IsSpace(sep)
    ensures sep !in StripTail(s, sep)
  {
    var n := CutIndex(s, sep);
    CutIndexLeftmost(s, sep);
    forall i | 0 <= i < n
      ensures s[i] != sep
    {
      if s[i] == sep {
        TailAtSep(s, sep, i);
      }
    }
    assert forall i | 0 <= i < n :: StripTail(s, sep)[i] == s[i];
  }

  /** Leading whitespace up to a non-space character is exactly what `trimStart` removes. */
  lemma {:induction false} TrimStartSkips(x: string, k: nat)
    requires k < |x| && !IsSpace(x[k])
    requires forall i | 0 <= i < k :: IsSpace(x[i])
    ensures TrimStart(x) == x[k..]
    decreases k
  {
    if k > 0 {
      TrimStartSkips(x[1..], k - 1);
      assert x[1..][k - 1..] == x[k..];
    } else {
      assert x[0..] == x;
    }
  }

  /** The cut is at the leftmost position where the tail matches. */
  lemma StripTailAtLeftmost(s: string, sep: char, q: nat)
    requires q <= |s| && TailAt(s[q..], sep)
    requires forall p | 0 <= p < q :: !TailAt(s[p..], sep)
    ensures StripTail(s, sep) == s[..q]
  {
    CutIndexLeftmost(s, sep);
    assert CutIndex(s, sep) == q;
  }

  /** Where the first separator of a one-line name is preceded only by whitespace back to `q`, the tail matches at `q`. */
  lemma TailAtBeforeSep(s: string, sep: char, q: nat, d: nat)
    requires NoLineTerminator(s) && !IsSpace(sep)
    requires q <= d < |s| && s[d] == sep
    requires forall i | q <= i < d :: IsSpace(s[i])
    ensures TailAt(s[q..], sep)
  {
    var x := s[q..];
    forall i | 0 <= i < d - q
      ensures IsSpace(x[i])
    {
      assert x[i] == s[q + i];
    }
    assert x[d - q] == s[d];
    TrimStartSkips(x, d - q);
    assert x[d - q..] == s[d..];
    TailAtSep(s, sep, d);
  }

  /** Before the last non-space character ahead of the first separator, the tail cannot match. */
  lemma NoTailBefore(s: string, sep: char, q: nat, d: nat)
    requires q <= d <= |s| && sep !in s[..d]
    requires q == 0 || !IsSpace(s[q - 1])
    ensures forall p | 0 <= p < q :: !TailAt(s[p..], sep)
  {
    forall p | 0 <= p < q
      ensures !TailAt(s[p..], sep)
    {
      var x := s[p..];
      var t := TrimStart(x);
      if t != [] {
        var e := p + (|x| - |t|);
        assert t[0] == s[e];
        assert e < q;
        assert s[e] == s[..d][e];
      }
    }
  }

  /** `trimEnd` of a prefix `s[..d]` ends at `q`: whitespace from `q` to `d`, a non-space just before `q`. */
  lemma TrimEndOfPrefix(s: string, d: nat)
    requires d <= |s|
    ensures var q := |TrimEnd(s[..d])|;
      && q <= d
      && TrimEnd(s[..d]) == s[..q]
      && (forall i | q <= i < d :: IsSpace(s[i]))
      && (q == 0 || !IsSpace(s[q - 1]))
  {
    var q := |TrimEnd(s[..d])|;
    assert forall i | q <= i < d :: s[..d][i] == s[i];
    if q > 0 {
      assert s[..d][q - 1] == s[q - 1];
    }
    assert s[..d][..q] == s[..q];
  }

  /**
   * On a one-line name, the cut falls just after the last non-space character before the
   * first separator: everything from the separator on, and the whitespace before it, goes.
   */
  lemma StripTailAtFirstSep(s: string, sep: char, d: nat)
    requires NoLineTerminator(s) && !IsSpace(sep)
    requires d < |s| && s[d] == sep && sep !in s[..d]
    ensures StripTail(s, sep) == TrimEnd(s[..d])
  {
    var q := |TrimEnd(s[..d])|;
    TrimEndOfPrefix(s, d);
    TailAtBeforeSep(s, sep, q, d);
    NoTailBefore(s, sep, q, d);
    StripTailAtLeftmost(s, sep, q);
  }

  /** A name without the separator is left as it is. */
  lemma StripTailAbsent(s: string, sep: char)
    requires sep !in s
    ensures StripTail(s, sep) == s
  {
    StripTailCut(s, sep);
    var r := StripTail(s, sep);
    if r != s {
      TailAtHasSep(s[|r|..], sep);
      assert false;
    }
  }

  /** The clean-up of a found name: cut at " - " and " | ", drop "University of ", normalise " University", trim. */
  function CleanUniversityName(name: string): string {
    Trim(Renamed(StripTail(StripTail(name, '-'), '|')))
  }

  /** On a one-line name, the cleaned name holds neither separator and is trimmed. */
  lemma CleanUniversityNameNoSeparators(name: string)
    requires NoLineTerminator(name)
    ensures var r := CleanUniversityName(name);
      && '-' !in r && '|' !in r
      && (r == [] || (!IsSpace(r[0]) && !IsSpace(r[|r| - 1])))
  {
    var b := StripTail(StripTail(name, '-'), '|');
    CutRemovesSeparators(name);
    var d := Renamed(b);
    RenamedKeepsSeparators(b);
    TrimKeepsAbsentChar(d, '-');
    TrimKeepsAbsentChar(d, '|');
    TrimEnds(d);
  }

  /** The two case-insensitive replacements of the clean-up. */
  function Renamed(cut: string): string {
    ReplaceFirstCI(ReplaceFirstCI(cut, "University of ", ""), " University", " University")
  }

  lemma RenamedKeepsSeparators(b: string)
    requires '-' !in b && '|' !in b
    ensures '-' !in Renamed(b) && '|' !in Renamed(b)
  {
    var c := ReplaceFirstCI(b, "University of ", "");
    ReplaceFirstCIKeepsAbsentChar(b, "University of ", "", '-');
    ReplaceFirstCIKeepsAbsentChar(b, "University of ", "", '|');
    ReplaceFirstCIKeepsAbsentChar(c, " University", " University", '-');
    ReplaceFirstCIKeepsAbsentChar(c, " University", " University", '|');
  }

  /** Cutting at " - " and then at " | " leaves a one-line name without either separator. */
  lemma CutRemovesSeparators(name: string)
    requires NoLineTerminator(name)
    ensures var b := StripTail(StripTail(name, '-'), '|');
      '-' !in b && '|' !in b
  {
    var a := StripTail(name, '-');
    StripTailRemovesSep(name, '-');
    NoLineTerminatorPrefix(name, |a|);
    var b := StripTail(a, '|');
    StripTailRemovesSep(a, '|');
    assert b == a[..|b|];
    assert forall i | 0 <= i < |b| :: b[i] == a[i];
  }

  lemma NoLineTerminatorPrefix(s: string, n: nat)
    requires n <= |s| && NoLineTerminator(s)
    ensures NoLineTerminator(s[..n])
  {
  }

  /** `hostname.replace('www.', '').replace('.edu', '').replace('.ac.uk', '')`. */
  function DomainName(hostname: string): string {
    ReplaceFirst(ReplaceFirst(ReplaceFirst(hostname, "www.", ""), ".edu", ""), ".ac.uk", "")
  }

  /** A pattern that begins with a dot cannot occur in a text without dots. */
  lemma DotPatternAbsent(part: string, pat: string)
    requires '.' !in part && |pat| > 0 && pat[0] == '.'
    ensures !Contains(part, pat)
  {
    forall i | 0 <= i <= |part| - |pat|
      ensures !Occurs(part, pat, i)
    {
      assert part[i..i + |pat|][0] == part[i];
    }
  }

  /** Nor can it occur in `part + rest` before `rest` begins. */
  lemma DotPatternNotEarlier(part: string, rest: string, pat: string)
    requires '.' !in part && |pat| > 0 && pat[0] == '.'
    ensures forall j | 0 <= j < |part| :: !Occurs(part + rest, pat, j)
  {
    forall j | 0 <= j < |part|
      ensures !Occurs(part + rest, pat, j)
    {
      assert (part + rest)[j] == part[j];
      if j + |pat| <= |part + rest| {
        assert (part + rest)[j..j + |pat|][0] == part[j];
      }
    }
  }

  /** For `www.<part>.edu` the fallback name is the bare part. */
  lemma DomainNameOfEduHost(part: string)
    requires '.' !in part
    ensures DomainName("www." + part + ".edu") == part
  {
    var s0 := "www." + part + ".edu";
    var s1 := part + ".edu";
    assert IsPrefix("www.", s0) && s0[4..] == s1;
    assert ReplaceFirst(s0, "www.", "") == s1;
    assert Occurs(s1, ".edu", |part|) by {
      assert s1[|part|..|part| + 4] == ".edu";
    }
    DotPatternNotEarlier(part, ".edu", ".edu");
    ReplaceFirstAt(s1, ".edu", "", |part|);
    assert s1[..|part|] == part && s1[|part| + 4..] == [];
    assert ReplaceFirst(s1, ".edu", "") == part;
    DotPatternAbsent(part, ".ac.uk");
    ReplaceFirstAbsent(part, ".ac.uk", "");
  }

  /** A host name with none of the three patterns is its own fallback name. */
  lemma DomainNamePlain(hostname: string)
    requires !Contains(hostname, "www.") && !Contains(hostname, ".edu") && !Contains(hostname, ".ac.uk")
    ensures DomainName(hostname) == hostname
  {
    ReplaceFirstAbsent(hostname, "www.", "");
    ReplaceFirstAbsent(hostname, ".edu", "");
    ReplaceFirstAbsent(hostname, ".ac.uk", "");
  }

  /** `extractUniversity`: the cleaned name of the first element with a name, or the host-name fallback. */
  function University(elements: seq<Option<Element>>, hostname: string): string {
    match FirstFound(Names(elements))
    case Some(name) => CleanUniversityName(name)
    case None => DomainName(hostname)
  }

  method ExtractUniversity(elements: seq<Option<Element>>, hostname: string) returns (name: string)
    ensures name == University(elements, hostname)
  {
    var names := Names(elements);
    for i := 0 to |elements|
      invariant forall j | 0 <= j < i :: names[j].None?
    {
      if elements[i].Some? {
        var n := ElementName(elements[i].value);
        if n != [] {
          FirstFoundIsFirst(names, i);
          return CleanUniversityName(n);
        }
      }
    }
    FirstFoundNone(names);
    return DomainName(hostname);
  }

  // ---------------------------------------------------------------------------
  // Program title

  const DegreeKeywords: seq<string> := ["master", "phd", "doctorate", "graduate", "m.s.", "m.a.", "mba", "ms in", "ma in"]

  /** A trimmed element text that is non-empty and, lower-cased, names a graduate degree. */
  predicate IsDegreeTitle(title: string) {
    title != [] && ContainsAny(Lower(title), DegreeKeywords)
  }

  /**
   * The first trimmed text among the elements of one selector that passes the title test
   * (`IsDegreeTitle` in the page reader; the test is a parameter so that the lemmas below
   * do not depend on the keyword list).
   */
  function FirstTitle(texts: seq<string>, isTitle: string -> bool): Option<string> {
    if texts == [] then None
    else if isTitle(Trim(texts[0])) then Some(Trim(texts[0]))
    else FirstTitle(texts[1..], isTitle)
  }

  /** The selectors in order, each over the elements it lists. */
  function FirstTitleIn(lists: seq<seq<string>>, isTitle: string -> bool): Option<string> {
    if lists == [] then None
    else if FirstTitle(lists[0], isTitle).Some? then FirstTitle(lists[0], isTitle)
    else FirstTitleIn(lists[1..], isTitle)
  }

  lemma {:induction false} FirstTitleSkips(texts: seq<string>, n: nat, isTitle: string -> bool)
    requires n <= |texts|
    requires forall j | 0 <= j < n :: !isTitle(Trim(texts[j]))
    ensures FirstTitle(texts, isTitle) == FirstTitle(texts[n..], isTitle)
  {
    if n > 0 {
      FirstTitleSkips(texts[1..], n - 1, isTitle);
      assert texts[1..][n - 1..] == texts[n..];
    }
  }

  lemma {:induction false} FirstTitleInSkips(lists: seq<seq<string>>, n: nat, isTitle: string -> bool)
    requires n <= |lists|
    requires forall j | 0 <= j < n :: FirstTitle(lists[j], isTitle).None?
    ensures FirstTitleIn(lists, isTitle) == FirstTitleIn(lists[n..], isTitle)
  {
    if n > 0 {
      FirstTitleInSkips(lists[1..], n - 1, isTitle);
      assert lists[1..][n - 1..] == lists[n..];
    }
  }

  /** A found title passes the title test and is the trimmed text of one of the listed elements. */
  lemma {:induction false} FirstTitleSound(texts: seq<string>, isTitle: string -> bool)
    ensures FirstTitle(texts, isTitle).Some? ==>
      isTitle(FirstTitle(texts, isTitle).value) &&
      exists j | 0 <= j < |texts| :: FirstTitle(texts, isTitle).value == Trim(texts[j])
  {
    if texts != [] && !isTitle(Trim(texts[0])) {
      FirstTitleSound(texts[1..], isTitle);
      if FirstTitle(texts, isTitle).Some? {
        var j :| 0 <= j < |texts[1..]| && FirstTitle(texts, isTitle).value == Trim(texts[1..][j]);
        assert texts[1..][j] == texts[j + 1];
      }
    }
  }

  /** No title is found exactly when no listed element's trimmed text passes the title test. */
  lemma FirstTitleNone(texts: seq<string>, isTitle: string -> bool)
    ensures FirstTitle(texts, isTitle).None? <==> forall j | 0 <= j < |texts| :: !isTitle(Trim(texts[j]))
  {
    if forall j | 0 <= j < |texts| :: !isTitle(Trim(texts[j])) {
      FirstTitleSkips(texts, |texts|, isTitle);
      assert texts[|texts|..] == [];
    } else {
      var j :| 0 <= j < |texts| && isTitle(Trim(texts[j]));
      FirstTitleFoundBy(texts, j, isTitle);
    }
  }

  /** Any element whose trimmed text passes the title test means a title is found. */
  lemma {:induction false} FirstTitleFoundBy(texts: seq<string>, j: nat, isTitle: string -> bool)
    requires j < |texts| && isTitle(Trim(texts[j]))
    ensures FirstTitle(texts, isTitle).Some?
    decreases j
  {
    var head := Trim(texts[0]);
    if isTitle(head) {
      assert FirstTitle(texts, isTitle) == Some(head);
    } else {
      var rest := texts[1..];
      assert j > 0 && rest[j - 1] == texts[j];
      FirstTitleFoundBy(rest, j - 1, isTitle);
      assert FirstTitle(texts, isTitle) == FirstTitle(rest, isTitle);
    }
  }

  /** The loop over the elements one selector lists. */
  method FirstDegreeTitleOf(texts: seq<string>) returns (title: Option<string>)
    ensures title == FirstTitle(texts, IsDegreeTitle)
  {
    for k := 0 to |texts|
      invariant FirstTitle(texts[k..], IsDegreeTitle) == FirstTitle(texts, IsDegreeTitle)
    {
      var t := Trim(texts[k]);
      assert texts[k..][0] == texts[k] && texts[k..][1..] == texts[k + 1..];
      if IsDegreeTitle(t) {
        return Some(t);
      }
    }
    assert texts[|texts|..] == [];
    return None;
  }

  /** `extractProgramTitle`: the first degree title in selector order, or "". */
  method ExtractProgramTitle(lists: seq<seq<string>>) returns (title: string)
    ensures title == FirstTitleIn(lists, IsDegreeTitle).GetOr([])
  {
    for i := 0 to |lists|
      invariant FirstTitleIn(lists[i..], IsDegreeTitle) == FirstTitleIn(lists, IsDegreeTitle)
    {
      var found := FirstDegreeTitleOf(lists[i]);
      assert lists[i..][0] == lists[i] && lists[i..][1..] == lists[i + 1..];
      if found.Some? {
        return found.value;
      }
    }
    assert lists[|lists|..] == [];
    return [];
  }

  // ---------------------------------------------------------------------------
  // Tuition, deadline, duration

  /** `extractTuition`: the first match of the first pattern that matched, trimmed. */
  function Tuition(matches: seq<seq<string>>): string {
    match FirstMatch(matches)
    case Some(m) => Trim(m)
    case None => NotSpecified
  }

  predicate IsLabelSep(c: char) {
    c == ':' || IsSpace(c)
  }

  /** Drop a run of `[:\s]` characters. */
  function DropLabelSeps(s: string): (r: string)
    ensures |r| <= |s| && r == s[|s| - |r|..]
    decreases |s|
  {
    if s != [] && IsLabelSep(s[0]) then DropLabelSeps(s[1..]) else s
  }

  /** The length of `deadline`, `apply by` or `due` at the start of `s` (any case), or 0. */
  function LabelLength(s: string): nat {
    if StartsWithCI(s, "deadline") then 8
    else if StartsWithCI(s, "apply by") then 8
    else if StartsWithCI(s, "due") then 3
    else 0
  }

  /** `/(?:deadline|apply by|due)[:\s]+/` matches at the start of `s`. */
  predicate LabelAt(s: string) {
    var n := LabelLength(s);
    0 < n < |s| && IsLabelSep(s[n])
  }

  /** `s.replace(/(?:deadline|apply by|due)[:\s]+/gi, '')`. */
  function StripLabels(s: string): (r: string)
    ensures |r| <= |s|
    decreases |s|
  {
    if LabelAt(s) then StripLabels(DropLabelSeps(s[LabelLength(s)..]))
    else if s == [] then []
    else [s[0]] + StripLabels(s[1..])
  }

  /** A match without a label is left as it is. */
  lemma {:induction false} StripLabelsNoLabel(s: string)
    requires forall i | 0 <= i <= |s| :: !LabelAt(s[i..])
    ensures StripLabels(s) == s
    decreases |s|
  {
    if s != [] {
      assert !LabelAt(s[0..]) && s[0..] == s;
      forall i | 0 <= i <= |s[1..]|
        ensures !LabelAt(s[1..][i..])
      {
        assert s[1..][i..] == s[i + 1..];
      }
      StripLabelsNoLabel(s[1..]);
      assert s == [s[0]] + s[1..];
    }
  }

  /** `extractDeadline`: the first match with its labels removed, trimmed. */
  function Deadline(matches: seq<seq<string>>): string {
    match FirstMatch(matches)
    case Some(m) => Trim(StripLabels(m))
    case None => NotSpecified
  }

  const NumberWords: seq<string> := ["one", "two", "three", "four"]

  /** `.replace(/one/gi, '1').replace(/two/gi, '2').replace(/three/gi, '3').replace(/four/gi, '4')`. */
  function ToDigits(s: string): string {
    ReplaceAllCI(ReplaceAllCI(ReplaceAllCI(ReplaceAllCI(s, "one", "1"), "two", "2"), "three", "3"), "four", "4")
  }

  /** After the conversion no spelled-out number from one to four is left, in any case. */
  lemma ToDigitsLeavesNoWords(s: string)
    ensures forall k | 0 <= k < |NumberWords| :: !ContainsCI(ToDigits(s), NumberWords[k])
  {
    var s1 := ReplaceAllCI(s, "one", "1");
    ReplaceAllRemoves(s, "one", '1');
    var s2 := ReplaceAllCI(s1, "two", "2");
    ReplaceAllRemoves(s1, "two", '2');
    ReplaceAllKeepsAbsent(s1, "two", '2', "one");
    var s3 := ReplaceAllCI(s2, "three", "3");
    ReplaceAllRemoves(s2, "three", '3');
    ReplaceAllKeepsAbsent(s2, "three", '3', "one");
    ReplaceAllKeepsAbsent(s2, "three", '3', "two");
    ReplaceAllRemoves(s3, "four", '4');
    ReplaceAllKeepsAbsent(s3, "four", '4', "one");
    ReplaceAllKeepsAbsent(s3, "four", '4', "two");
    ReplaceAllKeepsAbsent(s3, "four", '4', "three");
  }

  /** A match that spells out no number is kept as it is. */
  lemma ToDigitsNoWords(s: string)
    requires forall k | 0 <= k < |NumberWords| :: !ContainsCI(s, NumberWords[k])
    ensures ToDigits(s) == s
  {
    assert !ContainsCI(s, NumberWords[0]) && !ContainsCI(s, NumberWords[1]);
    assert !ContainsCI(s, NumberWords[2]) && !ContainsCI(s, NumberWords[3]);
    ReplaceAllAbsent(s, "one", "1");
    ReplaceAllAbsent(s, "two", "2");
    ReplaceAllAbsent(s, "three", "3");
    ReplaceAllAbsent(s, "four", "4");
  }

  /** `extractDuration`: the first match with number words turned into digits, trimmed. */
  function Duration(matches: seq<seq<string>>): string {
    match FirstMatch(matches)
    case Some(m) => Trim(ToDigits(m))
    case None => NotSpecified
  }

  /** Whichever pattern list is scanned, the first matching pattern's first match decides the field. */
  lemma DetailFieldsFirstMatch(matches: seq<seq<string>>, i: nat)
    requires i < |matches| && matches[i] != []
    requires forall j | 0 <= j < i :: matches[j] == []
    ensures Tuition(matches) == Trim(matches[i][0])
    ensures Deadline(matches) == Trim(StripLabels(matches[i][0]))
    ensures Duration(matches) == Trim(ToDigits(matches[i][0]))
  {
    FirstMatchIsFirst(matches, i);
  }

  /** When no pattern matched at all, each field says "Not specified". */
  lemma DetailFieldsNoMatch(matches: seq<seq<string>>)
    requires forall j | 0 <= j < |matches| :: matches[j] == []
    ensures Tuition(matches) == NotSpecified
    ensures Deadline(matches) == NotSpecified
    ensures Duration(matches) == NotSpecified
  {
    FirstMatchNone(matches);
  }

  method ExtractTuition(matches: seq<seq<string>>) returns (tuition: string)
    ensures tuition == Tuition(matches)
  {
    var m := FirstPatternMatch(matches);
    tuition := if m.Some? then Trim(m.value) else NotSpecified;
  }

  method ExtractDeadline(matches: seq<seq<string>>) returns (deadline: string)
    ensures deadline == Deadline(matches)
  {
    var m := FirstPatternMatch(matches);
    deadline := if m.Some? then Trim(StripLabels(m.value)) else NotSpecified;
  }

  method ExtractDuration(matches: seq<seq<string>>) returns (duration: string)
    ensures duration == Duration(matches)
  {
    var m := FirstPatternMatch(matches);
    duration := if m.Some? then Trim(ToDigits(m.value)) else NotSpecified;
  }

  // ---------------------------------------------------------------------------
  // Location

  /** A city-and-state match whose length is strictly between 5 and 50. */
  predicate Reasonable(m: string) {
    5 < |m| < 50
  }

  function FirstReasonable(matches: seq<string>): Option<string> {
    if matches == [] then None
    else if Reasonable(matches[0]) then Some(matches[0])
    else FirstReasonable(matches[1..])
  }

  /** `extractLocation`: the first element a location selector found (even with empty text), else the first reasonable match. */
  function Location(elements: seq<Option<string>>, matches: seq<string>): string {
    match FirstFound(elements)
    case Some(text) => Trim(text)
    case None =>
      match FirstReasonable(matches)
      case Some(m) => Trim(m)
      case None => NotSpecified
  }

  lemma {:induction false} FirstReasonableIsFirst(matches: seq<string>, i: nat)
    requires i < |matches| && Reasonable(matches[i])
    requires forall j | 0 <= j < i :: !Reasonable(matches[j])
    ensures FirstReasonable(matches) == Some(matches[i])
  {
    if i > 0 {
      FirstReasonableIsFirst(matches[1..], i - 1);
    }
  }

  lemma {:induction false} FirstReasonableNone(matches: seq<string>)
    requires forall j | 0 <= j < |matches| :: !Reasonable(matches[j])
    ensures FirstReasonable(matches) == None
  {
    if matches != [] {
      FirstReasonableNone(matches[1..]);
    }
  }

  /** A match text is only used when its length is in range, so any location taken from the text is shorter than 50. */
  lemma {:induction false} FirstReasonableBounded(matches: seq<string>)
    ensures FirstReasonable(matches).Some? ==> Reasonable(FirstReasonable(matches).value)
    ensures FirstReasonable(matches).Some? ==> FirstReasonable(matches).value in matches
  {
    if matches != [] && !Reasonable(matches[0]) {
      FirstReasonableBounded(matches[1..]);
    }
  }

  method ExtractLocation(elements: seq<Option<string>>, matches: seq<string>) returns (location: string)
    ensures location == Location(elements, matches)
  {
    for i := 0 to |elements|
      invariant forall j | 0 <= j < i :: elements[j].None?
    {
      if elements[i].Some? {
        FirstFoundIsFirst(elements, i);
        return Trim(elements[i].value);
      }
    }
    FirstFoundNone(elements);
    for i := 0 to |matches|
      invariant forall j | 0 <= j < i :: !Reasonable(matches[j])
    {
      if 5 < |matches[i]| < 50 {
        FirstReasonableIsFirst(matches, i);
        return Trim(matches[i]);
      }
    }
    FirstReasonableNone(matches);
    return NotSpecified;
  }

  // ---------------------------------------------------------------------------
  // GRE

  /** `extractGRERequirement`, on the lower-cased page text. */
  function GreRequirement(bodyText: string): string {
    var text := Lower(bodyText);
    if Contains(text, "gre not required") || Contains(text, "gre optional") || Contains(text, "no gre") then "Not required"
    else if Contains(text, "gre required") || Contains(text, "gre score") then "Required"
    else if Contains(text, "gre") then "Check requirements"
    else NotSpecified
  }

  /** The requirement is "Not specified" exactly when the page never mentions "gre". */
  lemma GreNotSpecifiedIff(bodyText: string)
    ensures GreRequirement(bodyText) == NotSpecified <==> !Contains(Lower(bodyText), "gre")
  {
    var text := Lower(bodyText);
    assert Occurs("gre not required", "gre", 0);
    assert Occurs("gre optional", "gre", 0);
    assert Occurs("no gre", "gre", 3);
    assert Occurs("gre required", "gre", 0);
    assert Occurs("gre score", "gre", 0);
    if Contains(text, "gre not required") { ContainsTrans(text, "gre not required", "gre"); }
    if Contains(text, "gre optional") { ContainsTrans(text, "gre optional", "gre"); }
    if Contains(text, "no gre") { ContainsTrans(text, "no gre", "gre"); }
    if Contains(text, "gre required") { ContainsTrans(text, "gre required", "gre"); }
    if Contains(text, "gre score") { ContainsTrans(text, "gre score", "gre"); }
  }

  /**
   * The save-button reader and the popup-side extractor agree on what they both detect:
   * a page the extractor calls "Optional" is "Not required" here, and one it calls
   * "Required" is "Required" here unless the page also carries a negative phrase.
   */
  lemma GreAgreesWithExtractor(bodyText: string)
    ensures Extractor.GreStatus(bodyText) == Some("Optional") ==> GreRequirement(bodyText) == "Not required"
    ensures Extractor.GreStatus(bodyText) == Some("Required") ==>
      GreRequirement(bodyText) == "Required" || GreRequirement(bodyText) == "Not required"
    ensures Extractor.GreStatus(bodyText).Some? ==> GreRequirement(bodyText) != NotSpecified
  {
  }

  // ---------------------------------------------------------------------------
  // extractProgramData

  datatype Page = Page(
    universityElements: seq<Option<Element>>,
    hostname: string,
    titleElements: seq<seq<string>>,
    tuitionMatches: seq<seq<string>>,
    deadlineMatches: seq<seq<string>>,
    durationMatches: seq<seq<string>>,
    locationElements: seq<Option<string>>,
    locationMatches: seq<string>,
    bodyText: string,
    href: string)

  /** The record the page offers for saving; it carries no id, so the background worker assigns one. */
  function PagePayload(page: Page): Payload {
    Payload(
      id := None,
      title := FirstTitleIn(page.titleElements, IsDegreeTitle).GetOr([]),
      university := University(page.universityElements, page.hostname),
      tuition := Some(Tuition(page.tuitionMatches)),
      duration := Some(Duration(page.durationMatches)),
      deadline := Some(Deadline(page.deadlineMatches)),
      location := Some(Location(page.locationElements, page.locationMatches)),
      gre := Some(GreRequirement(page.bodyText)),
      url := page.href,
      extractedData := map[])
  }

  /** `extractProgramData`: the record, or nothing when the title or the university is empty. */
  method ExtractProgramData(page: Page) returns (data: Option<Payload>)
    ensures data.Some? <==> PagePayload(page).title != [] && PagePayload(page).university != []
    ensures data.Some? ==> data.value == PagePayload(page)
  {
    var university := ExtractUniversity(page.universityElements, page.hostname);
    var title := ExtractProgramTitle(page.titleElements);
    var tuition := ExtractTuition(page.tuitionMatches);
    var deadline := ExtractDeadline(page.deadlineMatches);
    var duration := ExtractDuration(page.durationMatches);
    var location := ExtractLocation(page.locationElements, page.locationMatches);
    var gre := GreRequirement(page.bodyText);
    if title != [] && university != [] {
      return Some(Payload(None, title, university, Some(tuition), Some(duration), Some(deadline),
        Some(location), Some(gre), page.href, map[]));
    }
    return None;
  }

  /** A page is offered for saving only when one of its listed elements carries a degree title. */
  lemma OfferedPageHasDegreeTitle(page: Page)
    requires PagePayload(page).title != []
    ensures IsDegreeTitle(PagePayload(page).title)
    ensures exists i, j | 0 <= i < |page.titleElements| && 0 <= j < |page.titleElements[i]| ::
      PagePayload(page).title == Trim(page.titleElements[i][j])
  {
    TitleInSound(page.titleElements, IsDegreeTitle);
  }

  lemma {:induction false} TitleInSound(lists: seq<seq<string>>, isTitle: string -> bool)
    ensures FirstTitleIn(lists, isTitle).Some? ==>
      isTitle(FirstTitleIn(lists, isTitle).value) &&
      exists i, j | 0 <= i < |lists| && 0 <= j < |lists[i]| :: FirstTitleIn(lists, isTitle).value == Trim(lists[i][j])
  {
    if lists != [] {
      FirstTitleSound(lists[0], isTitle);
      if FirstTitle(lists[0], isTitle).None? {
        TitleInSound(lists[1..], isTitle);
        if FirstTitleIn(lists, isTitle).Some? {
          var i, j :| 0 <= i < |lists[1..]| && 0 <= j < |lists[1..][i]| &&
            FirstTitleIn(lists, isTitle).value == Trim(lists[1..][i][j]);
          assert lists[1..][i] == lists[i + 1];
        }
      }
    }
  }
}
