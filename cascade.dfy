/**
 * The "first source that yields something wins" selections the extractors are built
 * from: each source is an abstract observation of the page (the element a selector
 * found, the matches a pattern produced), listed in the order the code tries them.
 */
module Cascade {
  import opened Wrappers
  import opened Text

  /** No element, or an element whose trimmed text is empty. */
  predicate Blank(found: Option<string>) {
    found.None? || Trim(found.value) == []
  }

  /** The trimmed text of the first source that is present and not blank, or "". */
  function FirstNonBlank(found: seq<Option<string>>): string {
    if found == [] then []
    else if !Blank(found[0]) then Trim(found[0].value)
    else FirstNonBlank(found[1..])
  }

  /** The first non-blank source decides the result. */
  lemma {:induction false} FirstNonBlankIsFirst(found: seq<Option<string>>, i: nat)
    requires i < |found| && !Blank(found[i])
    requires forall j | 0 <= j < i :: Blank(found[j])
    ensures FirstNonBlank(found) == Trim(found[i].value)
  {
    if i > 0 {
      FirstNonBlankIsFirst(found[1..], i - 1);
    }
  }

  /** The result is empty exactly when every source is blank. */
  lemma {:induction false} FirstNonBlankEmpty(found: seq<Option<string>>)
    ensures FirstNonBlank(found) == [] <==> forall j | 0 <= j < |found| :: Blank(found[j])
  {
    if found != [] {
      FirstNonBlankEmpty(found[1..]);
      if Blank(found[0]) {
        assert forall j | 1 <= j < |found| :: found[j] == found[1..][j - 1];
      }
    }
  }

  /** The first source that is present at all, blank or not. */
  function FirstFound<T>(found: seq<Option<T>>): Option<T> {
    if found == [] then None
    else if found[0].Some? then found[0]
    else FirstFound(found[1..])
  }

  lemma {:induction false} FirstFoundIsFirst<T>(found: seq<Option<T>>, i: nat)
    requires i < |found| && found[i].Some?
    requires forall j | 0 <= j < i :: found[j].None?
    ensures FirstFound(found) == found[i]
  {
    if i > 0 {
      FirstFoundIsFirst(found[1..], i - 1);
    }
  }

  lemma {:induction false} FirstFoundNone<T>(found: seq<Option<T>>)
    ensures FirstFound(found).None? <==> forall j | 0 <= j < |found| :: found[j].None?
  {
    if found != [] {
      FirstFoundNone(found[1..]);
      if found[0].None? {
        assert forall j | 1 <= j < |found| :: found[j] == found[1..][j - 1];
      }
    }
  }

  /**
   * `for (const pattern of patterns) { const m = text.match(pattern); if (m && m.length > 0) return m[0] }`:
   * the first match of the first pattern that matched at all. Each entry lists one pattern's matches.
   */
  function FirstMatch(matches: seq<seq<string>>): Option<string> {
    if matches == [] then None
    else if matches[0] != [] then Some(matches[0][0])
    else FirstMatch(matches[1..])
  }

  lemma {:induction false} FirstMatchIsFirst(matches: seq<seq<string>>, i: nat)
    requires i < |matches| && matches[i] != []
    requires forall j | 0 <= j < i :: matches[j] == []
    ensures FirstMatch(matches) == Some(matches[i][0])
  {
    if i > 0 {
      FirstMatchIsFirst(matches[1..], i - 1);
    }
  }

  lemma {:induction false} FirstMatchNone(matches: seq<seq<string>>)
    ensures FirstMatch(matches).None? <==> forall j | 0 <= j < |matches| :: matches[j] == []
  {
    if matches != [] {
      FirstMatchNone(matches[1..]);
      if matches[0] == [] {
        assert forall j | 1 <= j < |matches| :: matches[j] == matches[1..][j - 1];
      }
    }
  }

  /** The loop over the patterns of one field. */
  method FirstPatternMatch(matches: seq<seq<string>>) returns (m: Option<string>)
    ensures m == FirstMatch(matches)
  {
    for i := 0 to |matches|
      invariant forall j | 0 <= j < i :: matches[j] == []
    {
      if matches[i] != [] {
        FirstMatchIsFirst(matches, i);
        return Some(matches[i][0]);
      }
    }
    FirstMatchNone(matches);
    return None;
  }
}
