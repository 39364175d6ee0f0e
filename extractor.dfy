/**
 * The page extractor (utils/extractor.ts): CSS selectors tried in order for the title,
 * university and three detail fields, a fallback to the document title and to the
 * host name, a GRE keyword scan of the page text, and whitespace clean-up.
 *
 * A page is observed through `Document`: `query(selector)` is the text content of the
 * first element `document.querySelector(selector)` returns (`None` when there is no
 * element or it has no text content).
 */
module Extractor {
  import opened Wrappers
  import opened Text
  import opened Programs
  import opened Cascade

  datatype Document = Document(
    query: string -> Option<string>,
    title: string,
    bodyText: string,
    hostname: string,
    href: string)

  const TitleSelectors: seq<string> := ["h1", ".program-title", "[class*=\"title\"]", "[class*=\"heading\"]"]
  const UniversitySelectors: seq<string> :=
    [".university-name", "[class*=\"university\"]", "[class*=\"school\"]", "header [class*=\"brand\"]"]
  const TuitionSelectors: seq<string> := ["[class*=\"tuition\"]", "[class*=\"cost\"]", "[class*=\"fee\"]"]
  const DurationSelectors: seq<string> := ["[class*=\"duration\"]", "[class*=\"length\"]"]
  const DeadlineSelectors: seq<string> := ["[class*=\"deadline\"]", "[class*=\"application\"]"]

  /** The host labels that never name the university. */
  const SkipLabels: seq<string> := ["www", "edu", "ac", "uk", "ca", "com"]

  const MaxTextLength := 200

  // ---------------------------------------------------------------------------
  // cleanText

  /** `text.replace(/\s+/g, ' ').trim().substring(0, 200)`. */
  function CleanText(text: string): (r: string)
    ensures |r| <= MaxTextLength
    ensures SingleSpaced(r)
    ensures r == [] || !IsSpace(r[0])
    ensures IsPrefix(r, Trim(Collapse(text)))
    ensures |r| == if |Trim(Collapse(text))| <= MaxTextLength then |Trim(Collapse(text))| else MaxTextLength
  {
    CleanedFacts(text);
    Truncate(Trim(Collapse(text)), MaxTextLength)
  }

  /** What collapsing, trimming and the cut to the length limit give. */
  lemma CleanedFacts(text: string)
    ensures var r := Truncate(Trim(Collapse(text)), MaxTextLength);
      && SingleSpaced(r) && (r == [] || !IsSpace(r[0]))
  {
    var t := Trim(Collapse(text));
    TrimKeepsSingleSpaced(Collapse(text));
    TrimEnds(Collapse(text));
    var r := Truncate(t, MaxTextLength);
    SingleSpacedInfix(t, 0, |r|);
    if r != [] {
      assert r[0] == t[0];
    }
  }

  /** Cleaning empties a text exactly when the text is nothing but whitespace. */
  lemma CleanTextEmpty(text: string)
    ensures CleanText(text) == [] <==> AllSpace(text)
  {
    var t := Trim(Collapse(text));
    assert CleanText(text) == Truncate(t, MaxTextLength);
    TrimEmpty(Collapse(text));
    CollapseAllSpace(text);
  }

  /** A text that is already single-spaced, trimmed and short enough is left as it is. */
  lemma CleanTextKeepsClean(text: string)
    requires SingleSpaced(text) && |text| <= MaxTextLength
    requires text == [] || (!IsSpace(text[0]) && !IsSpace(text[|text| - 1]))
    ensures CleanText(text) == text
  {
    CollapseSingleSpaced(text);
    TrimUnchanged(text);
  }

  /** Cleaning twice is cleaning once, unless the first cleaning had to cut the text. */
  lemma CleanTextIdempotent(text: string)
    requires |Trim(Collapse(text))| <= MaxTextLength
    ensures CleanText(CleanText(text)) == CleanText(text)
  {
    var t := Trim(Collapse(text));
    assert CleanText(text) == t;
    TrimEnds(Collapse(text));
    CleanTextKeepsClean(t);
  }

  // ---------------------------------------------------------------------------
  // findTextBySelectors

  /** What each selector of `selectors` finds, in order. */
  function Found(query: string -> Option<string>, selectors: seq<string>): (found: seq<Option<string>>)
    ensures |found| == |selectors|
    ensures forall i | 0 <= i < |selectors| :: found[i] == query(selectors[i])
  {
    seq(|selectors|, i requires 0 <= i < |selectors| => query(selectors[i]))
  }

  /** The trimmed text of the first selector whose element has non-blank text, or "". */
  method FindTextBySelectors(query: string -> Option<string>, selectors: seq<string>) returns (text: string)
    ensures text == FirstNonBlank(Found(query, selectors))
  {
    var found := Found(query, selectors);
    for i := 0 to |selectors|
      invariant forall j | 0 <= j < i :: Blank(found[j])
    {
      var element := query(selectors[i]);
      if element.Some? && Trim(element.value) != [] {
        FirstNonBlankIsFirst(found, i);
        return Trim(element.value);
      }
    }
    FirstNonBlankEmpty(found);
    return [];
  }

  /** A non-empty result of the selector cascade begins with a non-space character. */
  lemma {:induction false} FirstNonBlankStarts(found: seq<Option<string>>)
    ensures FirstNonBlank(found) == [] || !IsSpace(FirstNonBlank(found)[0])
  {
    if found != [] {
      if !Blank(found[0]) {
        TrimIsInfix(found[0].value);
      } else {
        FirstNonBlankStarts(found[1..]);
      }
    }
  }

  // ---------------------------------------------------------------------------
  // extractFromUrl

  /** `part.charAt(0).toUpperCase() + part.slice(1)`. */
  function Capitalize(part: string): (r: string)
    ensures |r| == |part|
    ensures Lower(r) == Lower(part)
    ensures r != [] ==> r[1..] == part[1..] && !('a' <= r[0] <= 'z')
  {
    if part == [] then [] else [UpperChar(part[0])] + part[1..]
  }

  /** The capitalised first label that is not a skipped one, or "". */
  function HostLabelName(labels: seq<string>): string {
    if labels == [] then []
    else if labels[0] !in SkipLabels then Capitalize(labels[0])
    else HostLabelName(labels[1..])
  }

  function UrlName(hostname: string): string {
    HostLabelName(Split(hostname, '.'))
  }

  lemma {:induction false} HostLabelNameIsFirst(labels: seq<string>, i: nat)
    requires i < |labels| && labels[i] !in SkipLabels
    requires forall j | 0 <= j < i :: labels[j] in SkipLabels
    ensures HostLabelName(labels) == Capitalize(labels[i])
  {
    if i > 0 {
      HostLabelNameIsFirst(labels[1..], i - 1);
    }
  }

  lemma {:induction false} HostLabelNameAllSkipped(labels: seq<string>)
    requires forall j | 0 <= j < |labels| :: labels[j] in SkipLabels
    ensures HostLabelName(labels) == []
  {
    if labels != [] {
      HostLabelNameAllSkipped(labels[1..]);
    }
  }

  /** For a host name written as dot-separated labels, the labels are exactly what is scanned. */
  lemma UrlNameOfLabels(labels: seq<string>)
    requires |labels| > 0
    requires forall i | 0 <= i < |labels| :: '.' !in labels[i]
    ensures UrlName(Join(labels, ".")) == HostLabelName(labels)
  {
    SplitJoin(labels, '.');
  }

  method ExtractFromUrl(hostname: string) returns (name: string)
    ensures name == UrlName(hostname)
  {
    var parts := Split(hostname, '.');
    for i := 0 to |parts|
      invariant forall j | 0 <= j < i :: parts[j] in SkipLabels
    {
      if parts[i] !in SkipLabels {
        HostLabelNameIsFirst(parts, i);
        return Capitalize(parts[i]);
      }
    }
    HostLabelNameAllSkipped(parts);
    return [];
  }

  // ---------------------------------------------------------------------------
  // extractFromPage

  /** `first || second || last`: the first of three texts that is not empty. */
  function Fallback(first: string, second: string, last: string): string {
    if first != [] then first else if second != [] then second else last
  }

  /** `findTextBySelectors(title) || document.title.split(' | ')[0] || 'Unknown Program'`. */
  function PageTitle(doc: Document): string {
    Fallback(FirstNonBlank(Found(doc.query, TitleSelectors)), BeforeFirst(doc.title, " | "), "Unknown Program")
  }

  /** `findTextBySelectors(university) || extractFromUrl() || 'Unknown University'`. */
  function PageUniversity(doc: Document): string {
    Fallback(FirstNonBlank(Found(doc.query, UniversitySelectors)), UrlName(doc.hostname), "Unknown University")
  }

  /**
   * When the first and the last choice cannot be all whitespace, the cleaned choice is empty
   * exactly when the middle one was picked and is whitespace only.
   */
  lemma CleanFallbackEmpty(first: string, second: string, last: string)
    requires first == [] || !IsSpace(first[0])
    requires last != [] && !IsSpace(last[0])
    ensures CleanText(Fallback(first, second, last)) == [] <==> first == [] && second != [] && AllSpace(second)
  {
    CleanTextEmpty(Fallback(first, second, last));
  }

  /** The GRE keyword scan of the lower-cased page text; `None` leaves the field unset. */
  function GreStatus(bodyText: string): Option<string> {
    var text := Lower(bodyText);
    if Contains(text, "gre required") then Some("Required")
    else if Contains(text, "gre optional") || Contains(text, "gre not required") then Some("Optional")
    else None
  }

  /** The `extractedData` record: the three detail texts always, `gre` only when the scan set it. */
  function PageFields(doc: Document): map<string, string> {
    var fields := map[
      "tuition" := FirstNonBlank(Found(doc.query, TuitionSelectors)),
      "duration" := FirstNonBlank(Found(doc.query, DurationSelectors)),
      "deadline" := FirstNonBlank(Found(doc.query, DeadlineSelectors))];
    match GreStatus(doc.bodyText)
    case Some(g) => fields["gre" := g]
    case None => fields
  }

  /** The record `extractFromPage` returns, given the generated id and the clock reading. */
  function PageProgram(doc: Document, id: Id, now: string): Program {
    Program(
      id := id,
      title := CleanText(PageTitle(doc)),
      university := CleanText(PageUniversity(doc)),
      tuition := Some(CleanText(FirstNonBlank(Found(doc.query, TuitionSelectors)))),
      duration := Some(CleanText(FirstNonBlank(Found(doc.query, DurationSelectors)))),
      deadline := Some(CleanText(FirstNonBlank(Found(doc.query, DeadlineSelectors)))),
      location := None,
      gre := GreStatus(doc.bodyText),
      url := doc.href,
      savedAt := now,
      extractedData := PageFields(doc))
  }

  method ExtractFromPage(doc: Document, id: Id, now: string) returns (program: Program)
    ensures program == PageProgram(doc, id, now)
  {
    var foundTitle := FindTextBySelectors(doc.query, TitleSelectors);
    var title := Fallback(foundTitle, BeforeFirst(doc.title, " | "), "Unknown Program");
    var foundUniversity := FindTextBySelectors(doc.query, UniversitySelectors);
    var fromUrl := ExtractFromUrl(doc.hostname);
    var university := Fallback(foundUniversity, fromUrl, "Unknown University");

    var tuition := FindTextBySelectors(doc.query, TuitionSelectors);
    var duration := FindTextBySelectors(doc.query, DurationSelectors);
    var deadline := FindTextBySelectors(doc.query, DeadlineSelectors);
    var extractedData := map["tuition" := tuition, "duration" := duration, "deadline" := deadline];

    var pageText := Lower(doc.bodyText);
    var gre: Option<string> := None;
    if Contains(pageText, "gre required") {
      gre := Some("Required");
    } else if Contains(pageText, "gre optional") || Contains(pageText, "gre not required") {
      gre := Some("Optional");
    }
    if gre.Some? {
      extractedData := extractedData["gre" := gre.value];
    }
    assert gre == GreStatus(doc.bodyText);
    assert extractedData == PageFields(doc);

    program := Program(
      id := id,
      title := CleanText(title),
      university := CleanText(university),
      tuition := Some(CleanText(tuition)),
      duration := Some(CleanText(duration)),
      deadline := Some(CleanText(deadline)),
      location := None,
      gre := gre,
      url := doc.href,
      savedAt := now,
      extractedData := extractedData);
  }

  // ---------------------------------------------------------------------------
  // Properties of the extracted record

  /**
   * The title comes out empty only in one case: no title selector found text and the
   * part of the document title before " | " is non-empty but all whitespace.
   */
  lemma PageTitleEmpty(doc: Document)
    ensures CleanText(PageTitle(doc)) == [] <==>
      && FirstNonBlank(Found(doc.query, TitleSelectors)) == []
      && BeforeFirst(doc.title, " | ") != []
      && AllSpace(BeforeFirst(doc.title, " | "))
  {
    FirstNonBlankStarts(Found(doc.query, TitleSelectors));
    assert !IsSpace("Unknown Program"[0]);
    CleanFallbackEmpty(FirstNonBlank(Found(doc.query, TitleSelectors)), BeforeFirst(doc.title, " | "), "Unknown Program");
  }

  /** Likewise the university is empty only when the host-name fallback is non-empty whitespace. */
  lemma PageUniversityEmpty(doc: Document)
    ensures CleanText(PageUniversity(doc)) == [] <==>
      && FirstNonBlank(Found(doc.query, UniversitySelectors)) == []
      && UrlName(doc.hostname) != []
      && AllSpace(UrlName(doc.hostname))
  {
    FirstNonBlankStarts(Found(doc.query, UniversitySelectors));
    assert !IsSpace("Unknown University"[0]);
    CleanFallbackEmpty(FirstNonBlank(Found(doc.query, UniversitySelectors)), UrlName(doc.hostname), "Unknown University");
  }

  /**
   * The `gre` entry of `extractedData` is present exactly when the scan found a GRE
   * phrase, and then holds the same value as the record's `gre` field.
   */
  lemma PageFieldsGre(doc: Document)
    ensures "gre" in PageFields(doc) <==> GreStatus(doc.bodyText).Some?
    ensures GreStatus(doc.bodyText).Some? ==> PageFields(doc)["gre"] == GreStatus(doc.bodyText).value
    ensures "tuition" in PageFields(doc) && "duration" in PageFields(doc) && "deadline" in PageFields(doc)
  {
  }
}
