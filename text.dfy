/**
 * String operations of the JavaScript runtime that the extension relies on:
 * whitespace classes, ASCII case mapping, `includes`, `trim`, `split`, `join`,
 * `replace` with a string or a simple regular expression, and number formatting.
 * Strings are sequences of Unicode scalar values.
 */
module Text {

  /** ECMAScript WhiteSpace and LineTerminator: the characters `\s` matches and `trim` removes. */
  predicate IsSpace(c: char) {
    || c == ' ' || c == '\t' || c == '\n' || c == '\r' || c == '\U{B}' || c == '\U{C}'
    || c == '\U{A0}' || c == '\U{1680}' || '\U{2000}' <= c <= '\U{200A}'
    || c == '\U{2028}' || c == '\U{2029}' || c == '\U{202F}' || c == '\U{205F}'
    || c == '\U{3000}' || c == '\U{FEFF}'
  }

  /** The characters that `.` in a regular expression does not match. */
  predicate IsLineTerminator(c: char) {
    c == '\n' || c == '\r' || c == '\U{2028}' || c == '\U{2029}'
  }

  predicate NoLineTerminator(s: string) {
    forall i | 0 <= i < |s| :: !IsLineTerminator(s[i])
  }

  function LowerChar(c: char): char {
    if 'A' <= c <= 'Z' then (c as int + 32) as char else c
  }

  function UpperChar(c: char): char {
    if 'a' <= c <= 'z' then (c as int - 32) as char else c
  }

  /** `toLowerCase`, on the ASCII letters. */
  function Lower(s: string): string {
    seq(|s|, i requires 0 <= i < |s| => LowerChar(s[i]))
  }

  lemma LowerIdempotent(s: string)
    ensures Lower(Lower(s)) == Lower(s)
  {
    assert forall i | 0 <= i < |s| :: LowerChar(LowerChar(s[i])) == LowerChar(s[i]);
  }

  // ---------------------------------------------------------------------------
  // Substrings

  predicate IsPrefix(p: string, s: string) {
    |p| <= |s| && s[..|p|] == p
  }

  /** `p` occurs in `s` at index `i`. */
  predicate Occurs(s: string, p: string, i: int) {
    0 <= i && i + |p| <= |s| && s[i..i + |p|] == p
  }

  /** `s.includes(p)`. */
  predicate Contains(s: string, p: string) {
    exists i | 0 <= i <= |s| - |p| :: Occurs(s, p, i)
  }

  /** `s` begins with `w`, ignoring the case of ASCII letters (a regular expression with the `i` flag). */
  predicate StartsWithCI(s: string, w: string) {
    |w| <= |s| && forall k | 0 <= k < |w| :: LowerChar(s[k]) == LowerChar(w[k])
  }

  predicate ContainsCI(s: string, w: string) {
    exists i | 0 <= i <= |s| :: StartsWithCI(s[i..], w)
  }

  lemma ContainsSuffix(s: string, p: string, n: nat)
    requires n <= |s| && Contains(s[n..], p)
    ensures Contains(s, p)
  {
    var i :| 0 <= i <= |s[n..]| - |p| && Occurs(s[n..], p, i);
    assert s[n + i..n + i + |p|] == s[n..][i..i + |p|];
    assert Occurs(s, p, n + i);
  }

  /** `s.substring(0, n)`: the first `n` characters, or all of a shorter `s`. */
  function Truncate(s: string, n: nat): (r: string)
    ensures IsPrefix(r, s)
    ensures |r| == if |s| <= n then |s| else n
  {
    if |s| <= n then s else s[..n]
  }

  /** A substring of a substring is a substring. */
  lemma ContainsTrans(s: string, w: string, p: string)
    requires Contains(s, w) && Contains(w, p)
    ensures Contains(s, p)
  {
    var i :| 0 <= i <= |s| - |w| && Occurs(s, w, i);
    var j :| 0 <= j <= |w| - |p| && Occurs(w, p, j);
    forall k | 0 <= k < |p|
      ensures s[i + j..i + j + |p|][k] == p[k]
    {
      assert p[k] == w[j..j + |p|][k] == w[j + k];
      assert w[j + k] == s[i..i + |w|][j + k] == s[i + j + k];
    }
    assert Occurs(s, p, i + j);
  }

  /** `s.includes(w)` for one of the words `words`, tried in order (a chain of `||`). */
  function ContainsAny(s: string, words: seq<string>): bool {
    words != [] && (Contains(s, words[0]) || ContainsAny(s, words[1..]))
  }

  lemma {:induction false} ContainsAnyIff(s: string, words: seq<string>)
    ensures ContainsAny(s, words) <==> exists k | 0 <= k < |words| :: Contains(s, words[k])
  {
    if words != [] {
      ContainsAnyIff(s, words[1..]);
      assert forall k | 1 <= k < |words| :: words[k] == words[1..][k - 1];
    }
  }

  // ---------------------------------------------------------------------------
  // Trimming and whitespace collapsing

  /** `trimStart`: the suffix of `s` that begins with the first non-space character. */
  function TrimStart(s: string): (r: string)
    ensures |r| <= |s| && r == s[|s| - |r|..]
    ensures r == [] || !IsSpace(r[0])
    ensures forall i | 0 <= i < |s| - |r| :: IsSpace(s[i])
    decreases |s|
  {
    if s != [] && IsSpace(s[0]) then TrimStart(s[1..]) else s
  }

  /** `trimEnd`: the prefix of `s` that ends with the last non-space character. */
  function TrimEnd(s: string): (r: string)
    ensures |r| <= |s| && r == s[..|r|]
    ensures r == [] || !IsSpace(r[|r| - 1])
    ensures forall i | |r| <= i < |s| :: IsSpace(s[i])
    decreases |s|
  {
    if s != [] && IsSpace(s[|s| - 1]) then TrimEnd(s[..|s| - 1]) else s
  }

  /** `trim`. */
  function Trim(s: string): string {
    TrimEnd(TrimStart(s))
  }

  /** `s.trim()` is the part of `s` between its leading and its trailing whitespace. */
  lemma TrimIsInfix(s: string)
    ensures exists a, b | 0 <= a <= b <= |s| :: Trim(s) == s[a..b]
    ensures Trim(s) == [] || (!IsSpace(Trim(s)[0]) && !IsSpace(Trim(s)[|Trim(s)| - 1]))
  {
    var t := TrimStart(s);
    var a := |s| - |t|;
    var u := TrimEnd(t);
    assert t[..|u|] == s[a..a + |u|];
    assert 0 <= a <= a + |u| <= |s| && Trim(s) == s[a..a + |u|];
    TrimEnds(s);
  }

  /** Every whitespace character is a plain space and no two of them are adjacent. */
  predicate SingleSpaced(s: string) {
    && (forall i | 0 <= i < |s| :: IsSpace(s[i]) ==> s[i] == ' ')
    && (forall i | 0 < i < |s| :: IsSpace(s[i]) ==> !IsSpace(s[i - 1]))
  }

  lemma SingleSpacedInfix(s: string, a: nat, b: nat)
    requires a <= b <= |s| && SingleSpaced(s)
    ensures SingleSpaced(s[a..b])
  {
    var t := s[a..b];
    forall i | 0 < i < |t| && IsSpace(t[i])
      ensures !IsSpace(t[i - 1])
    {
      assert t[i] == s[a + i] && t[i - 1] == s[a + i - 1];
    }
  }

  /** `s.replace(/\s+/g, ' ')`: every maximal run of whitespace becomes one space. */
  function Collapse(s: string): (r: string)
    ensures SingleSpaced(r)
    ensures |r| <= |s|
    ensures s != [] && !IsSpace(s[0]) ==> r != [] && r[0] == s[0]
    ensures s != [] && IsSpace(s[0]) ==> r != [] && r[0] == ' '
    decreases |s|
  {
    if s == [] then []
    else if IsSpace(s[0]) then [' '] + Collapse(TrimStart(s))
    else [s[0]] + Collapse(s[1..])
  }

  /** `trim` leaves a string alone when it neither begins nor ends with whitespace. */
  lemma TrimUnchanged(s: string)
    requires s == [] || (!IsSpace(s[0]) && !IsSpace(s[|s| - 1]))
    ensures Trim(s) == s
  {
  }

  predicate AllSpace(s: string) {
    forall i | 0 <= i < |s| :: IsSpace(s[i])
  }

  /** `trim` gives the empty string exactly when every character is whitespace. */
  lemma TrimEmpty(s: string)
    ensures Trim(s) == [] <==> AllSpace(s)
  {
    var t := TrimStart(s);
    TrimStartAllSpace(s);
    if t != [] {
      assert !IsSpace(t[0]);
    }
  }

  lemma TrimStartAllSpace(s: string)
    ensures AllSpace(TrimStart(s)) <==> AllSpace(s)
  {
    var t := TrimStart(s);
    if t != [] {
      assert t[0] == s[|s| - |t|];
    }
  }

  /** A trimmed text neither starts nor ends with whitespace. */
  lemma TrimEnds(s: string)
    ensures var r := Trim(s); r == [] || (!IsSpace(r[0]) && !IsSpace(r[|r| - 1]))
  {
    var t := TrimStart(s);
    var r := TrimEnd(t);
    if r != [] {
      assert r[0] == t[0];
    }
  }

  /** `trim` introduces no character. */
  lemma TrimKeepsAbsentChar(s: string, c: char)
    requires c !in s
    ensures c !in Trim(s)
  {
    TrimIsInfix(s);
  }

  lemma TrimKeepsSingleSpaced(s: string)
    requires SingleSpaced(s)
    ensures SingleSpaced(Trim(s))
  {
    TrimIsInfix(s);
    var a, b :| 0 <= a <= b <= |s| && Trim(s) == s[a..b];
    SingleSpacedInfix(s, a, b);
  }

  /** Collapsing whitespace changes nothing in a string that is already single-spaced. */
  lemma {:induction false} CollapseSingleSpaced(s: string)
    requires SingleSpaced(s)
    ensures Collapse(s) == s
    decreases |s|
  {
    if s != [] {
      SingleSpacedInfix(s, 1, |s|);
      CollapseSingleSpaced(s[1..]);
      if IsSpace(s[0]) {
        assert s[1..] == [] || !IsSpace(s[1]);
        assert TrimStart(s) == s[1..];
      }
      assert s == [s[0]] + s[1..];
    }
  }

  /** Collapsing whitespace yields only whitespace exactly when the input is only whitespace. */
  lemma {:induction false} CollapseAllSpace(s: string)
    ensures AllSpace(Collapse(s)) <==> AllSpace(s)
    decreases |s|
  {
    if s != [] {
      if IsSpace(s[0]) {
        var t := TrimStart(s);
        assert t == TrimStart(s[1..]);
        TrimStartAllSpace(s);
        CollapseAllSpace(t);
        PrependSpace(Collapse(t));
      } else {
        assert !IsSpace(Collapse(s)[0]);
      }
    }
  }

  lemma PrependSpace(c: string)
    ensures AllSpace([' '] + c) <==> AllSpace(c)
  {
    assert forall i | 0 <= i < |c| :: ([' '] + c)[i + 1] == c[i];
  }

  // ---------------------------------------------------------------------------
  // Replacement

  /** `s.replace(pat, rep)` with a string pattern: the first occurrence of `pat` is replaced. */
  function ReplaceFirst(s: string, pat: string, rep: string): string
    decreases |s|
  {
    if IsPrefix(pat, s) then rep + s[|pat|..]
    else if s == [] then s
    else [s[0]] + ReplaceFirst(s[1..], pat, rep)
  }

  lemma {:induction false} ReplaceFirstAbsent(s: string, pat: string, rep: string)
    requires !Contains(s, pat)
    ensures ReplaceFirst(s, pat, rep) == s
    decreases |s|
  {
    assert !Occurs(s, pat, 0);
    if s != [] {
      if Contains(s[1..], pat) {
        ContainsSuffix(s, pat, 1);
      }
      ReplaceFirstAbsent(s[1..], pat, rep);
    }
  }

  /** `replace` with a string pattern changes exactly the first occurrence. */
  lemma {:induction false} ReplaceFirstAt(s: string, pat: string, rep: string, i: nat)
    requires Occurs(s, pat, i)
    requires forall j | 0 <= j < i :: !Occurs(s, pat, j)
    ensures ReplaceFirst(s, pat, rep) == s[..i] + rep + s[i + |pat|..]
    decreases i
  {
    if i == 0 {
      assert IsPrefix(pat, s);
    } else {
      assert !Occurs(s, pat, 0);
      forall j | 0 <= j < i - 1
        ensures !Occurs(s[1..], pat, j)
      {
        OccursShift(s, pat, j);
      }
      OccursShift(s, pat, i - 1);
      ReplaceFirstAt(s[1..], pat, rep, i - 1);
      ReplaceFirstAtStep(s, pat, rep, i);
    }
  }

  /** An occurrence in the tail of `s` is an occurrence in `s`, one place further on. */
  lemma OccursShift(s: string, pat: string, j: nat)
    requires s != []
    ensures Occurs(s[1..], pat, j) <==> Occurs(s, pat, j + 1)
  {
    if j + 1 + |pat| <= |s| {
      assert s[1..][j..j + |pat|] == s[j + 1..j + 1 + |pat|];
    }
  }

  lemma ReplaceFirstAtStep(s: string, pat: string, rep: string, i: nat)
    requires 0 < i && i + |pat| <= |s|
    ensures [s[0]] + (s[1..][..i - 1] + rep + s[1..][i - 1 + |pat|..]) == s[..i] + rep + s[i + |pat|..]
  {
    assert s[1..][..i - 1] == s[1..i];
    assert s[..i] == [s[0]] + s[1..i];
    assert s[1..][i - 1 + |pat|..] == s[i + |pat|..];
  }

  /** `s.replace(/pat/i, rep)` for a pattern without special characters. */
  function ReplaceFirstCI(s: string, pat: string, rep: string): string
    decreases |s|
  {
    if StartsWithCI(s, pat) then rep + s[|pat|..]
    else if s == [] then s
    else [s[0]] + ReplaceFirstCI(s[1..], pat, rep)
  }

  /** A replacement introduces no character that neither the input nor the replacement has. */
  lemma {:induction false} ReplaceFirstCIKeepsAbsentChar(s: string, pat: string, rep: string, c: char)
    requires c !in s && c !in rep
    ensures c !in ReplaceFirstCI(s, pat, rep)
    decreases |s|
  {
    if StartsWithCI(s, pat) {
      assert c !in s[|pat|..];
    } else if s != [] {
      assert c !in s[1..];
      ReplaceFirstCIKeepsAbsentChar(s[1..], pat, rep, c);
    }
  }

  /** `s.replace(/w/gi, rep)`: every occurrence, scanning left to right, is replaced. */
  function ReplaceAllCI(s: string, w: string, rep: string): string
    requires |w| > 0
    decreases |s|
  {
    if StartsWithCI(s, w) then rep + ReplaceAllCI(s[|w|..], w, rep)
    else if s == [] then []
    else [s[0]] + ReplaceAllCI(s[1..], w, rep)
  }

  /** Up to the first replacement character, `ReplaceAllCI` copies its input. */
  lemma {:induction false} ReplaceAllCopiesPrefix(s: string, w: string, d: char, n: nat)
    requires |w| > 0
    requires n <= |ReplaceAllCI(s, w, [d])|
    requires forall k | 0 <= k < n :: ReplaceAllCI(s, w, [d])[k] != d
    ensures n <= |s| && ReplaceAllCI(s, w, [d])[..n] == s[..n]
    decreases |s|
  {
    var out := ReplaceAllCI(s, w, [d]);
    if n > 0 {
      if StartsWithCI(s, w) {
        ReplaceAllHead(s, w, d);
        assert false;
      } else {
        assert s != [];
        var rest := ReplaceAllCI(s[1..], w, [d]);
        assert out == [s[0]] + rest;
        forall k | 0 <= k < n - 1
          ensures rest[k] != d
        {
          assert rest[k] == out[k + 1];
        }
        ReplaceAllCopiesPrefix(s[1..], w, d, n - 1);
        assert out[..n] == [s[0]] + rest[..n - 1];
      }
    }
  }

  lemma ReplaceAllHead(s: string, w: string, d: char)
    requires |w| > 0 && StartsWithCI(s, w)
    ensures ReplaceAllCI(s, w, [d])[0] == d
  {
  }

  /**
   * Where the scan does not replace at the start, an occurrence of `v` at the start of
   * the output, with `d` not among the letters of `v`, was already at the start of the input.
   */
  lemma CopiedStart(s: string, w: string, d: char, v: string)
    requires |w| > 0 && |v| > 0 && s != [] && !StartsWithCI(s, w)
    requires forall k | 0 <= k < |v| :: LowerChar(v[k]) != LowerChar(d)
    requires StartsWithCI(ReplaceAllCI(s, w, [d]), v)
    ensures StartsWithCI(s, v)
  {
    var out := ReplaceAllCI(s, w, [d]);
    var rest := ReplaceAllCI(s[1..], w, [d]);
    assert out == [s[0]] + rest;
    forall k | 0 <= k < |v| - 1
      ensures rest[k] != d
    {
      assert LowerChar(out[k + 1]) == LowerChar(v[k + 1]);
    }
    ReplaceAllCopiesPrefix(s[1..], w, d, |v| - 1);
    forall k | 0 <= k < |v|
      ensures LowerChar(s[k]) == LowerChar(v[k])
    {
      if k > 0 {
        assert s[k] == s[1..][..|v| - 1][k - 1] == rest[..|v| - 1][k - 1] == out[k];
      }
    }
  }

  /** A text that does not contain `v` has no suffix that contains it. */
  lemma SuffixKeepsAbsent(s: string, n: nat, v: string)
    requires n <= |s| && !ContainsCI(s, v)
    ensures !ContainsCI(s[n..], v)
  {
    forall i | 0 <= i <= |s[n..]|
      ensures !StartsWithCI(s[n..][i..], v)
    {
      assert s[n..][i..] == s[n + i..];
    }
  }

  /** Prefixing a character that does not begin `v` creates no occurrence of `v`. */
  lemma ExtendAbsent(c: char, rest: string, v: string)
    requires |v| > 0 && LowerChar(v[0]) != LowerChar(c)
    requires !ContainsCI(rest, v)
    ensures !ContainsCI([c] + rest, v)
  {
    var out := [c] + rest;
    forall i | 0 <= i <= |out|
      ensures !StartsWithCI(out[i..], v)
    {
      if i > 0 {
        assert out[i..] == rest[i - 1..];
      } else {
        assert out[0..][0] == c;
      }
    }
  }

  /** Prefixing a character to a text that does not contain `v` and does not begin with it. */
  lemma ExtendAbsentNoStart(c: char, rest: string, v: string)
    requires !StartsWithCI([c] + rest, v)
    requires !ContainsCI(rest, v)
    ensures !ContainsCI([c] + rest, v)
  {
    var out := [c] + rest;
    assert out[0..] == out;
    forall i | 1 <= i <= |out|
      ensures !StartsWithCI(out[i..], v)
    {
      assert out[i..] == rest[i - 1..];
    }
  }

  /**
   * Replacing every occurrence of `w` by a character that does not occur in `v`
   * (ignoring case) creates no occurrence of `v`.
   */
  lemma {:induction false} ReplaceAllKeepsAbsent(s: string, w: string, d: char, v: string)
    requires |w| > 0 && |v| > 0
    requires forall k | 0 <= k < |v| :: LowerChar(v[k]) != LowerChar(d)
    requires !ContainsCI(s, v)
    ensures !ContainsCI(ReplaceAllCI(s, w, [d]), v)
    decreases |s|
  {
    SuffixKeepsAbsent(s, 0, v);
    assert s[0..] == s;
    if StartsWithCI(s, w) {
      var rest := ReplaceAllCI(s[|w|..], w, [d]);
      SuffixKeepsAbsent(s, |w|, v);
      ReplaceAllKeepsAbsent(s[|w|..], w, d, v);
      ExtendAbsent(d, rest, v);
    } else if s != [] {
      var rest := ReplaceAllCI(s[1..], w, [d]);
      SuffixKeepsAbsent(s, 1, v);
      ReplaceAllKeepsAbsent(s[1..], w, d, v);
      assert !StartsWithCI(s, v);
      if StartsWithCI([s[0]] + rest, v) {
        CopiedStart(s, w, d, v);
        assert false;
      }
      ExtendAbsentNoStart(s[0], rest, v);
    }
  }

  /** After `s.replace(/w/gi, d)`, with `d` not a letter of `w`, no occurrence of `w` is left. */
  lemma {:induction false} ReplaceAllRemoves(s: string, w: string, d: char)
    requires |w| > 0
    requires forall k | 0 <= k < |w| :: LowerChar(w[k]) != LowerChar(d)
    ensures !ContainsCI(ReplaceAllCI(s, w, [d]), w)
    decreases |s|
  {
    if StartsWithCI(s, w) {
      var rest := ReplaceAllCI(s[|w|..], w, [d]);
      ReplaceAllRemoves(s[|w|..], w, d);
      ExtendAbsent(d, rest, w);
    } else if s == [] {
      assert ReplaceAllCI(s, w, [d]) == [];
    } else {
      var rest := ReplaceAllCI(s[1..], w, [d]);
      ReplaceAllRemoves(s[1..], w, d);
      if StartsWithCI([s[0]] + rest, w) {
        CopiedStart(s, w, d, w);
        assert false;
      }
      ExtendAbsentNoStart(s[0], rest, w);
    }
  }

  /** A replacement of a pattern that does not occur leaves the text as it is. */
  lemma {:induction false} ReplaceAllAbsent(s: string, w: string, rep: string)
    requires |w| > 0 && !ContainsCI(s, w)
    ensures ReplaceAllCI(s, w, rep) == s
    decreases |s|
  {
    assert s[0..] == s;
    if s != [] {
      SuffixKeepsAbsent(s, 1, w);
      ReplaceAllAbsent(s[1..], w, rep);
    }
  }

  // ---------------------------------------------------------------------------
  // Splitting and joining
  /** `s.split(c)` for a one-character separator. */
  function Split(s: string, c: char): (parts: seq<string>)
    ensures |parts| > 0
    decreases |s|
  {
    if s == [] then [[]]
    else if s[0] == c then [[]] + Split(s[1..], c)
    else
      var rest := Split(s[1..], c);
      [[s[0]] + rest[0]] + rest[1..]
  }

  /** `parts.join(sep)`. */
  function Join(parts: seq<string>, sep: string): string {
    if parts == [] then []
    else if |parts| == 1 then parts[0]
    else parts[0] + sep + Join(parts[1..], sep)
  }

  /** Joining introduces no character that neither the parts nor the separator hold. */
  lemma {:induction false} JoinKeepsAbsentChar(parts: seq<string>, sep: string, c: char)
    requires c !in sep
    requires forall i | 0 <= i < |parts| :: c !in parts[i]
    ensures c !in Join(parts, sep)
    decreases |parts|
  {
    if |parts| > 1 {
      JoinKeepsAbsentChar(parts[1..], sep, c);
    }
  }

  lemma {:induction false} SplitNoSeparator(s: string, c: char)
    requires c !in s
    ensures Split(s, c) == [s]
    decreases |s|
  {
    if s != [] {
      assert c !in s[1..];
      SplitNoSeparator(s[1..], c);
      assert [s[0]] + s[1..] == s;
    }
  }

  lemma {:induction false} SplitAtSeparator(p: string, c: char, rest: string)
    requires c !in p
    ensures Split(p + [c] + rest, c) == [p] + Split(rest, c)
    decreases |p|
  {
    if p == [] {
      assert p + [c] + rest == [c] + rest;
    } else {
      assert (p + [c] + rest)[1..] == p[1..] + [c] + rest;
      assert (p + [c] + rest)[0] == p[0] != c;
      assert c !in p[1..];
      SplitAtSeparator(p[1..], c, rest);
      assert [p[0]] + p[1..] == p;
    }
  }

  /** Splitting a join on a separator that no part contains gives the parts back. */
  lemma {:induction false} SplitJoin(parts: seq<string>, c: char)
    requires |parts| > 0
    requires forall i | 0 <= i < |parts| :: c !in parts[i]
    ensures Split(Join(parts, [c]), c) == parts
    decreases |parts|
  {
    if |parts| == 1 {
      SplitNoSeparator(parts[0], c);
    } else {
      SplitJoin(parts[1..], c);
      SplitAtSeparator(parts[0], c, Join(parts[1..], [c]));
    }
  }

  /** `s.split(sep)[0]`: the text before the first occurrence of `sep`, or all of `s`. */
  function BeforeFirst(s: string, sep: string): (r: string)
    requires |sep| > 0
    decreases |s|
  {
    if IsPrefix(sep, s) then []
    else if s == [] then []
    else [s[0]] + BeforeFirst(s[1..], sep)
  }

  /**
   * `s.split(sep)[0]` is a prefix of `s` that does not contain `sep`: all of `s` when `sep`
   * does not occur, and otherwise the text up to where the first `sep` begins.
   */
  lemma {:induction false} BeforeFirstIsPrefix(s: string, sep: string)
    requires |sep| > 0
    ensures IsPrefix(BeforeFirst(s, sep), s)
    ensures !Contains(BeforeFirst(s, sep), sep)
    ensures !Contains(s, sep) ==> BeforeFirst(s, sep) == s
    ensures Contains(s, sep) ==> IsPrefix(sep, s[|BeforeFirst(s, sep)|..])
    decreases |s|
  {
    BeforeFirstEndsAtSep(s, sep);
    if IsPrefix(sep, s) {
      assert Occurs(s, sep, 0);
    } else if s != [] {
      BeforeFirstIsPrefix(s[1..], sep);
      BeforeFirstStep(s, sep);
      assert [s[0]] + s[1..][..|BeforeFirst(s[1..], sep)|] == s[..1 + |BeforeFirst(s[1..], sep)|];
      if !Contains(s, sep) && Contains(s[1..], sep) {
        ContainsSuffix(s, sep, 1);
      }
    }
  }

  /** Where `s` holds `sep`, the cut falls exactly where an occurrence of `sep` begins. */
  lemma {:induction false} BeforeFirstEndsAtSep(s: string, sep: string)
    requires |sep| > 0
    ensures Contains(s, sep) ==> |BeforeFirst(s, sep)| <= |s| && IsPrefix(sep, s[|BeforeFirst(s, sep)|..])
    decreases |s|
  {
    BeforeFirstLength(s, sep);
    if Contains(s, sep) {
      if IsPrefix(sep, s) {
        assert s[0..] == s;
      } else {
        var i :| 0 <= i <= |s| - |sep| && Occurs(s, sep, i);
        assert i != 0 by {
          assert s[0..|sep|] == s[..|sep|];
        }
        OccursShift(s, sep, i - 1);
        assert Contains(s[1..], sep);
        BeforeFirstEndsAtSep(s[1..], sep);
        var t := BeforeFirst(s[1..], sep);
        assert BeforeFirst(s, sep) == [s[0]] + t;
        assert s[1..][|t|..] == s[1 + |t|..];
      }
    }
  }

  lemma BeforeFirstStep(s: string, sep: string)
    requires |sep| > 0 && !IsPrefix(sep, s) && s != []
    requires !Contains(BeforeFirst(s[1..], sep), sep)
    ensures !Contains(BeforeFirst(s, sep), sep)
  {
    var t := BeforeFirst(s[1..], sep);
    var r := [s[0]] + t;
    assert BeforeFirst(s, sep) == r;
    forall i | 0 <= i <= |r| - |sep|
      ensures !Occurs(r, sep, i)
    {
      if i > 0 {
        assert r[1..] == t;
        OccursShift(r, sep, i - 1);
        assert !Occurs(t, sep, i - 1);
      } else {
        BeforeFirstHead(s, sep);
      }
    }
  }

  lemma BeforeFirstHead(s: string, sep: string)
    requires |sep| > 0 && !IsPrefix(sep, s) && s != []
    ensures !Occurs(BeforeFirst(s, sep), sep, 0)
  {
    var t := BeforeFirst(s[1..], sep);
    var r := [s[0]] + t;
    assert BeforeFirst(s, sep) == r;
    BeforeFirstLength(s[1..], sep);
    if |sep| <= |r| {
      assert r[..|sep|] == s[..|sep|];
    }
  }

  lemma {:induction false} BeforeFirstLength(s: string, sep: string)
    requires |sep| > 0
    ensures IsPrefix(BeforeFirst(s, sep), s)
    decreases |s|
  {
    if !IsPrefix(sep, s) && s != [] {
      BeforeFirstLength(s[1..], sep);
    }
  }

  // ---------------------------------------------------------------------------
  // Numbers

  function DigitChar(d: nat): char
    requires d < 10
  {
    ('0' as int + d) as char
  }

  /** The decimal text of a natural number, as template literals and `toString` write it. */
  function NatToString(n: nat): (r: string)
    ensures |r| > 0
    ensures forall i | 0 <= i < |r| :: '0' <= r[i] <= '9'
    decreases n
  {
    if n < 10 then [DigitChar(n)] else NatToString(n / 10) + [DigitChar(n % 10)]
  }

  /** The number a string of decimal digits denotes. */
  function DecimalValue(s: string): nat
    requires forall i | 0 <= i < |s| :: '0' <= s[i] <= '9'
  {
    if s == [] then 0 else 10 * DecimalValue(s[..|s| - 1]) + (s[|s| - 1] as int - '0' as int)
  }

  lemma {:induction false} NatToStringValue(n: nat)
    ensures DecimalValue(NatToString(n)) == n
    decreases n
  {
    var r := NatToString(n);
    if n >= 10 {
      NatToStringValue(n / 10);
      assert r[..|r| - 1] == NatToString(n / 10);
    }
  }
}
