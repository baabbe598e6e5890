/**
 * Hand-written scanners for the fixed regular expressions of the engine.
 * Each scanner gives the leftmost match at or after a position, exactly as
 * PCRE's leftmost, lazy (`.*?`) and greedy (`\n*`) rules pick it; a global
 * `preg_replace` or `preg_match_all` then resumes scanning at the end of
 * the match.
 *
 *   Section(c, k, true)   '{{ck}}(.*?){{/k}}\n*'  with the `s` flag
 *   Section(c, k, false)  '{{ck}}(.*?){{/k}}'     with the `s` flag
 *   Wrapper               '{{.*?}}.*?{{/.*?}}\n*' with the `s` flag
 *   Variable              '{{.*?}}\n*'            with the `s` flag
 */
module Patterns {
  import opened Wrappers
  import opened Text

  /** One match: the span [start, end) and capture group 1, [bodyStart, bodyEnd). */
  datatype Match = Match(start: nat, bodyStart: nat, bodyEnd: nat, end: nat)

  datatype Pattern =
    | Section(sigil: char, key: string, eatNewlines: bool)
    | Wrapper
    | Variable

  /** The opening tag of a section: `{{#key}}` or `{{^key}}`. */
  function OpenTag(sigil: char, key: string): string {
    "{{" + [sigil] + key + "}}"
  }

  /** The closing tag of a section: `{{/key}}`. */
  function CloseTag(key: string): string {
    "{{/" + key + "}}"
  }

  /** The number of consecutive newlines at `i` (the greedy `\n*`). */
  function NewlineRun(t: string, i: nat): (n: nat)
    requires i <= |t|
    ensures i + n <= |t|
    ensures forall j :: i <= j < i + n ==> t[j] == '\n'
    ensures i + n == |t| || t[i + n] != '\n'
    decreases |t| - i
  {
    if i < |t| && t[i] == '\n' then 1 + NewlineRun(t, i + 1) else 0
  }

  /** A match lies in `t` at or after `from`, and is not empty. */
  predicate Within(t: string, from: nat, m: Match) {
    from <= m.start <= m.bodyStart <= m.bodyEnd <= m.end <= |t| && m.start < m.end
  }

  /** The end of a match whose closing literal ends at `e`. */
  function TailEnd(t: string, e: nat, eatNewlines: bool): nat
    requires e <= |t|
  {
    if eatNewlines then e + NewlineRun(t, e) else e
  }

  /**
   * The leftmost section `open … close` at or after `from`: the first opening
   * tag, with the body up to the FIRST closing tag after it. If the first
   * opening tag has no closing tag after it, no later one has.
   */
  function SectionNext(t: string, sigil: char, key: string, eatNewlines: bool, from: nat): (r: Option<Match>)
    requires from <= |t|
    ensures r.Some? ==> Within(t, from, r.value)
    ensures r.Some? ==>
      var m, open, close := r.value, OpenTag(sigil, key), CloseTag(key);
      && OccursAt(t, open, m.start)
      && (forall i: nat :: from <= i < m.start ==> !OccursAt(t, open, i))
      && m.bodyStart == m.start + |open|
      && OccursAt(t, close, m.bodyEnd)
      && (forall j: nat :: m.bodyStart <= j < m.bodyEnd ==> !OccursAt(t, close, j))
      && m.end == TailEnd(t, m.bodyEnd + |close|, eatNewlines)
    ensures r.None? ==>
      var open, close := OpenTag(sigil, key), CloseTag(key);
      forall i: nat, j: nat :: from <= i && OccursAt(t, open, i) && i + |open| <= j ==> !OccursAt(t, close, j)
  {
    var open, close := OpenTag(sigil, key), CloseTag(key);
    match Find(t, open, from)
    case None => None
    case Some(p) =>
      match Find(t, close, p + |open|)
      case None => None
      case Some(q) => Some(Match(p, p + |open|, q, TailEnd(t, q + |close|, eatNewlines)))
  }

  /**
   * The leftmost `{{.*?}}.*?{{/.*?}}\n*`: a `{{`, the first `}}` after it, the
   * first `{{/` after that, the first `}}` after that, then every newline.
   * Lazy backtracking never needs a later choice: if the first choice fails,
   * every later one fails too.
   */
  function WrapperNext(t: string, from: nat): (r: Option<Match>)
    requires from <= |t|
    ensures r.Some? ==> Within(t, from, r.value)
    ensures r.Some? ==>
      && OccursAt(t, "{{", r.value.start)
      && (forall i: nat :: from <= i < r.value.start ==> !OccursAt(t, "{{", i))
    ensures r.Some? ==>
      exists a: nat, b: nat, c: nat ::
        && r.value.start + 2 <= a && OccursAt(t, "}}", a)
        && (forall j: nat :: r.value.start + 2 <= j < a ==> !OccursAt(t, "}}", j))
        && a + 2 <= b && OccursAt(t, "{{/", b)
        && (forall j: nat :: a + 2 <= j < b ==> !OccursAt(t, "{{/", j))
        && b + 3 <= c && OccursAt(t, "}}", c)
        && (forall j: nat :: b + 3 <= j < c ==> !OccursAt(t, "}}", j))
        && r.value.end == TailEnd(t, c + 2, true)
    ensures r.None? ==>
      forall i: nat, a: nat, b: nat, c: nat ::
        && from <= i && OccursAt(t, "{{", i)
        && i + 2 <= a && OccursAt(t, "}}", a)
        && a + 2 <= b && OccursAt(t, "{{/", b)
        && b + 3 <= c
        ==> !OccursAt(t, "}}", c)
  {
    match Find(t, "{{", from)
    case None => None
    case Some(p) =>
      match Find(t, "}}", p + 2)
      case None => None
      case Some(a) =>
        match Find(t, "{{/", a + 2)
        case None => None
        case Some(b) =>
          match Find(t, "}}", b + 3)
          case None => None
          case Some(c) => Some(Match(p, p, p, TailEnd(t, c + 2, true)))
  }

  /** The leftmost `{{.*?}}\n*`: a `{{`, the first `}}` after it, then every newline. */
  function VariableNext(t: string, from: nat): (r: Option<Match>)
    requires from <= |t|
    ensures r.Some? ==> Within(t, from, r.value)
    ensures r.Some? ==>
      && OccursAt(t, "{{", r.value.start)
      && (forall i: nat :: from <= i < r.value.start ==> !OccursAt(t, "{{", i))
    ensures r.Some? ==>
      exists a: nat ::
        && r.value.start + 2 <= a && OccursAt(t, "}}", a)
        && (forall j: nat :: r.value.start + 2 <= j < a ==> !OccursAt(t, "}}", j))
        && r.value.end == TailEnd(t, a + 2, true)
    ensures r.None? ==>
      forall i: nat, j: nat :: from <= i && OccursAt(t, "{{", i) && i + 2 <= j ==> !OccursAt(t, "}}", j)
  {
    match Find(t, "{{", from)
    case None => None
    case Some(p) =>
      match Find(t, "}}", p + 2)
      case None => None
      case Some(a) => Some(Match(p, p, p, TailEnd(t, a + 2, true)))
  }

  function Next(pat: Pattern, t: string, from: nat): (r: Option<Match>)
    requires from <= |t|
    ensures r.Some? ==> Within(t, from, r.value)
  {
    match pat
    case Section(sigil, key, eatNewlines) => SectionNext(t, sigil, key, eatNewlines, from)
    case Wrapper => WrapperNext(t, from)
    case Variable => VariableNext(t, from)
  }

  /** `preg_replace(pattern, '', t)`: every match, left to right, deleted. */
  function DeleteAll(pat: Pattern, t: string, from: nat): (r: string)
    requires from <= |t|
    ensures |r| <= |t| - from
    decreases |t| - from
  {
    match Next(pat, t, from)
    case None => t[from..]
    case Some(m) => t[from..m.start] + DeleteAll(pat, t, m.end)
  }

  /** Deleting changes nothing exactly when the pattern does not match. */
  lemma DeleteAllUnchangedIff(pat: Pattern, t: string)
    ensures DeleteAll(pat, t, 0) == t <==> Next(pat, t, 0).None?
  {
    match Next(pat, t, 0)
    case None =>
    case Some(m) =>
      assert |DeleteAll(pat, t, 0)| < |t|;
  }

  /** What `preg_match_all` yields for one match: the whole span and capture group 1. */
  datatype Capture = Capture(full: string, body: string)

  /** All matches of `preg_match_all(pattern, t)` from `from`, in order. */
  function Captures(pat: Pattern, t: string, from: nat): (r: seq<Capture>)
    requires from <= |t|
    decreases |t| - from
  {
    match Next(pat, t, from)
    case None => []
    case Some(m) => [Capture(t[m.start..m.end], t[m.bodyStart..m.bodyEnd])] + Captures(pat, t, m.end)
  }

  /** `preg_match_all` yields no match exactly when the scanner finds none from the start. */
  lemma CapturesEmptyIff(pat: Pattern, t: string, from: nat)
    requires from <= |t|
    ensures Captures(pat, t, from) == [] <==> Next(pat, t, from).None?
  {
  }

  /**
   * A section whose opening tag is first found at `p` and whose closing tag is
   * first found at `b` after it, with no opening tag after its end `e`:
   * deleting every match removes exactly `t[p..e]`.
   */
  lemma SectionDeletedOnce(t: string, sigil: char, key: string, eatNewlines: bool, p: nat, b: nat, e: nat)
    requires Find(t, OpenTag(sigil, key), 0) == Some(p)
    requires p + |OpenTag(sigil, key)| <= b && Find(t, CloseTag(key), p + |OpenTag(sigil, key)|) == Some(b)
    requires e == TailEnd(t, b + |CloseTag(key)|, eatNewlines)
    requires Find(t, OpenTag(sigil, key), e).None?
    ensures DeleteAll(Section(sigil, key, eatNewlines), t, 0) == t[..p] + t[e..]
  {
    var pat := Section(sigil, key, eatNewlines);
    SectionNextSpan(t, sigil, key, eatNewlines, 0, p, b);
    SectionNextEnd(t, sigil, key, eatNewlines, 0, p, b);
    assert Next(pat, t, e).None?;
    assert DeleteAll(pat, t, e) == t[e..];
  }

  /** Where the first opening tag from `from` and the first closing tag after it are found, the section starts and its body ends. */
  lemma SectionNextSpan(t: string, sigil: char, key: string, eatNewlines: bool, from: nat, p: nat, b: nat)
    requires from <= |t|
    requires Find(t, OpenTag(sigil, key), from) == Some(p)
    requires Find(t, CloseTag(key), p + |OpenTag(sigil, key)|) == Some(b)
    ensures SectionNext(t, sigil, key, eatNewlines, from).Some?
    ensures SectionNext(t, sigil, key, eatNewlines, from).value.start == p
    ensures SectionNext(t, sigil, key, eatNewlines, from).value.bodyStart == p + |OpenTag(sigil, key)|
    ensures SectionNext(t, sigil, key, eatNewlines, from).value.bodyEnd == b
  {
  }

  /** ...and the match ends after the closing tag and, when asked, the newlines after it. */
  lemma SectionNextEnd(t: string, sigil: char, key: string, eatNewlines: bool, from: nat, p: nat, b: nat)
    requires from <= |t|
    requires Find(t, OpenTag(sigil, key), from) == Some(p)
    requires Find(t, CloseTag(key), p + |OpenTag(sigil, key)|) == Some(b)
    requires b + |CloseTag(key)| <= |t|
    ensures SectionNext(t, sigil, key, eatNewlines, from).Some?
    ensures SectionNext(t, sigil, key, eatNewlines, from).value.end == TailEnd(t, b + |CloseTag(key)|, eatNewlines)
  {
  }

  /**
   * A section opening at 0 whose first closing tag is at `b`, with no opening
   * tag after its end `e`: the one capture is the text up to `e`, its group the
   * text between the tags.
   */
  lemma SectionOnce(t: string, sigil: char, key: string, eatNewlines: bool, b: nat, e: nat)
    requires Find(t, OpenTag(sigil, key), 0) == Some(0)
    requires |OpenTag(sigil, key)| <= b && Find(t, CloseTag(key), |OpenTag(sigil, key)|) == Some(b)
    requires e == TailEnd(t, b + |CloseTag(key)|, eatNewlines)
    requires Find(t, OpenTag(sigil, key), e).None?
    ensures Captures(Section(sigil, key, eatNewlines), t, 0) == [Capture(t[..e], t[|OpenTag(sigil, key)|..b])]
  {
    var pat := Section(sigil, key, eatNewlines);
    var m := Match(0, |OpenTag(sigil, key)|, b, e);
    assert Next(pat, t, 0) == Some(m);
    assert Next(pat, t, e).None?;
    assert Captures(pat, t, e) == [];
  }

  /** A text that is one section, `open body close`, with no closing tag inside the body: one capture, the whole text, its group the body. */
  lemma SectionWhole(t: string, sigil: char, key: string, body: string, eatNewlines: bool)
    requires t == OpenTag(sigil, key) + body + CloseTag(key)
    requires Find(t, CloseTag(key), |OpenTag(sigil, key)|) == Some(|OpenTag(sigil, key)| + |body|)
    ensures Captures(Section(sigil, key, eatNewlines), t, 0) == [Capture(t, body)]
  {
    var open := OpenTag(sigil, key);
    assert t[0..|open|] == open;
    assert Find(t, open, 0) == Some(0);
    assert TailEnd(t, |t|, eatNewlines) == |t|;
    SectionOnce(t, sigil, key, eatNewlines, |open| + |body|, |t|);
    assert t[..|t|] == t && t[|open|..|open| + |body|] == body;
  }

  /**
   * PCRE2's `\s` under the `u` flag (PHP then sets UCP): `\p{Z}`, `\h` and `\v`
   * together, that is the controls 9 to 13, NEL, the Unicode space and line
   * separators, and U+180E, which PCRE2 lists in `\h`.
   */
  predicate IsSpace(c: char) {
    || '\t' <= c <= '\r'
    || c == ' ' || c == '\U{0085}' || c == '\U{00A0}' || c == '\U{1680}' || c == '\U{180E}'
    || ('\U{2000}' <= c <= '\U{200A}')
    || c == '\U{2028}' || c == '\U{2029}' || c == '\U{202F}' || c == '\U{205F}' || c == '\U{3000}'
  }

  function LeadingSpace(s: string): (n: nat)
    ensures n <= |s|
    ensures forall i :: 0 <= i < n ==> IsSpace(s[i])
    ensures n == |s| || !IsSpace(s[n])
  {
    if s != [] && IsSpace(s[0]) then 1 + LeadingSpace(s[1..]) else 0
  }

  /**
   * `preg_replace('/(^\s*|\n$)/u', '', s)`: all leading white space goes, and so
   * does a final newline; because `$` also matches just before a final
   * newline, a newline directly before that one goes as well.
   */
  function TrimLoopBody(s: string): (r: string)
    ensures r == [] <==> forall i :: 0 <= i < |s| ==> IsSpace(s[i])
    ensures r != [] ==> !IsSpace(r[0])
    ensures exists q, e :: (0 <= q <= e <= |s| && r == s[q..e] && |s| - e <= 2
      && (forall i :: 0 <= i < q ==> IsSpace(s[i]))
      && (forall i :: e <= i < |s| ==> s[i] == '\n'))
    ensures (s == [] || s[|s| - 1] != '\n') ==> r == s[LeadingSpace(s)..]
    ensures |s| >= 2 && s[|s| - 1] == '\n' && s[|s| - 2] != '\n' && LeadingSpace(s) < |s| ==>
      r + "\n" == s[LeadingSpace(s)..]
    ensures |s| >= 2 && s[|s| - 1] == '\n' && s[|s| - 2] == '\n' && LeadingSpace(s) < |s| ==>
      r + "\n\n" == s[LeadingSpace(s)..]
  {
    var q := LeadingSpace(s);
    var e := TrimEnd(s, q);
    TrimKeepsNonSpace(s, q, e);
    TrimEndCases(s, q, e);
    s[q..e]
  }

  /** Where the kept part ends: before the final newline, and before the one directly before it too. */
  function TrimEnd(s: string, q: nat): (e: nat)
    requires q <= |s|
    ensures q <= e <= |s| && |s| - e <= 2
    ensures forall i :: e <= i < |s| ==> s[i] == '\n'
    ensures s == [] || s[|s| - 1] != '\n' ==> e == |s|
    ensures |s| - q >= 2 && s[|s| - 1] == '\n' && s[|s| - 2] != '\n' ==> e == |s| - 1
    ensures |s| - q >= 2 && s[|s| - 1] == '\n' && s[|s| - 2] == '\n' ==> e == |s| - 2
  {
    var n := |s|;
    if n - q >= 2 && s[n - 2] == '\n' && s[n - 1] == '\n' then n - 2
    else if n - q >= 1 && s[n - 1] == '\n' then n - 1
    else n
  }

  /** What is kept starts with a non-space, and is empty only when everything is white space. */
  lemma TrimKeepsNonSpace(s: string, q: nat, e: nat)
    requires q == LeadingSpace(s) && e == TrimEnd(s, q)
    ensures s[q..e] == [] <==> forall i :: 0 <= i < |s| ==> IsSpace(s[i])
    ensures s[q..e] != [] ==> !IsSpace(s[q..e][0])
  {
    if q < |s| {
      assert !IsSpace(s[q]) && s[q] != '\n';
      assert q < e;
    }
  }

  /** The kept part plus the newlines cut off is what follows the leading white space. */
  lemma TrimEndCases(s: string, q: nat, e: nat)
    requires q == LeadingSpace(s) && e == TrimEnd(s, q)
    ensures (s == [] || s[|s| - 1] != '\n') ==> s[q..e] == s[q..]
    ensures |s| >= 2 && s[|s| - 1] == '\n' && s[|s| - 2] != '\n' && q < |s| ==> s[q..e] + "\n" == s[q..]
    ensures |s| >= 2 && s[|s| - 1] == '\n' && s[|s| - 2] == '\n' && q < |s| ==> s[q..e] + "\n\n" == s[q..]
  {
    var n := |s|;
    if q < n && n >= 2 && s[n - 1] == '\n' {
      assert !IsSpace(s[q]);
      if s[n - 2] == '\n' {
        assert e == n - 2;
        FinalNewlines(s, 2);
        CutNewlines(s, q, e, "\n\n");
      } else {
        assert e == n - 1;
        FinalNewlines(s, 1);
        CutNewlines(s, q, e, "\n");
      }
    }
  }

  /** The last `k` characters of `s`, all newlines, as a literal. */
  lemma FinalNewlines(s: string, k: nat)
    requires 1 <= k <= 2 && k <= |s|
    requires forall i :: |s| - k <= i < |s| ==> s[i] == '\n'
    ensures k == 1 ==> s[|s| - 1..] == "\n"
    ensures k == 2 ==> s[|s| - 2..] == "\n\n"
  {
    var t := s[|s| - k..];
    assert |t| == k && forall i :: 0 <= i < k ==> t[i] == '\n';
  }

  /** Cutting `tail` off the end of `s[q..]`. */
  lemma CutNewlines(s: string, q: nat, e: nat, tail: string)
    requires q <= e <= |s| && s[e..] == tail
    ensures s[q..e] + tail == s[q..]
  {
    assert s[q..] == s[q..e] + s[e..];
  }
}
