/**
 * `cleanTemplate`: a first pass deletes left-over sections
 * (`{{.*?}}.*?{{/.*?}}\n*`), a second pass deletes left-over tags
 * (`{{.*?}}\n*`); each deletion takes the newlines after it along.
 */
module Cleanup {
  import opened Text
  import opened Wrappers
  import opened Patterns

  /** No `{{` of `s` has a `}}` somewhere after it: nothing tag-shaped is left. */
  ghost predicate NoTagSpan(s: string) {
    forall i: nat, j: nat :: OccursAt(s, "{{", i) && i + 2 <= j ==> !OccursAt(s, "}}", j)
  }

  /**
   * Both passes; the result holds no tag-shaped span, is no longer than the
   * template, and equals it exactly when the template holds none either.
   */
  function CleanTemplate(t: string): (r: string)
    ensures NoTagSpan(r)
    ensures |r| <= |t|
    ensures r == t <==> NoTagSpan(t)
  {
    assert NoTagSpan(t) ==> DeleteAll(Variable, DeleteAll(Wrapper, t, 0), 0) == t by {
      if NoTagSpan(t) { NoTagSpanIsFixed(t); }
    }
    var wrappersGone := DeleteAll(Wrapper, t, 0);
    VariablePassLeavesNoTagSpan(wrappersGone, 0);
    DeleteAll(Variable, wrappersGone, 0)
  }

  /** A gap the variable pass keeps, followed by a text without tag spans, has none either. */
  lemma GapThenClean(g: string, rest: string)
    requires forall i: nat :: !OccursAt(g, "{{", i)
    requires g == [] || g[|g| - 1] != '{'
    requires NoTagSpan(rest)
    ensures NoTagSpan(g + rest)
  {
    var s := g + rest;
    forall i: nat, j: nat | OccursAt(s, "{{", i) && i + 2 <= j
      ensures !OccursAt(s, "}}", j)
    {
      assert s[i] == s[i..i + 2][0] == '{';
      if i + 2 <= |g| {
        assert s[i..i + 2] == g[i..i + 2];
        assert OccursAt(g, "{{", i);
      } else if i + 1 == |g| {
        assert false;
      } else {
        var i', j' := i - |g|, j - |g|;
        assert s[i..i + 2] == rest[i'..i' + 2] by {
          assert s[i] == rest[i'] && s[i + 1] == rest[i' + 1];
        }
        assert OccursAt(rest, "{{", i');
        if OccursAt(s, "}}", j) {
          assert s[j..j + 2] == rest[j'..j' + 2] by {
            assert s[j] == rest[j'] && s[j + 1] == rest[j' + 1];
          }
          assert OccursAt(rest, "}}", j');
        }
      }
    }
  }

  /** The variable pass leaves no `{{` with a `}}` after it. */
  lemma {:induction false} VariablePassLeavesNoTagSpan(t: string, from: nat)
    requires from <= |t|
    ensures NoTagSpan(DeleteAll(Variable, t, from))
    decreases |t| - from
  {
    match VariableNext(t, from)
    case None =>
      UnmatchedRestClean(t, from);
    case Some(m) =>
      VariablePassLeavesNoTagSpan(t, m.end);
      GapBeforeMatch(t, from, m);
      GapThenClean(t[from..m.start], DeleteAll(Variable, t, m.end));
  }

  /** Where the variable pattern finds nothing, the rest of the text has no tag span. */
  lemma UnmatchedRestClean(t: string, from: nat)
    requires from <= |t| && VariableNext(t, from).None?
    ensures NoTagSpan(t[from..])
  {
    var s := t[from..];
    forall i: nat, j: nat | OccursAt(s, "{{", i) && i + 2 <= j
      ensures !OccursAt(s, "}}", j)
    {
      OccursInSlice(t, "{{", from, |t|, i);
      OccursInSlice(t, "}}", from, |t|, j);
      assert OccursAt(t, "{{", from + i) && from + i + 2 <= from + j;
      assert !OccursAt(t, "}}", from + j);
    }
  }

  /** The text the variable pass keeps before a match holds no `{{` and does not end in `{`. */
  lemma GapBeforeMatch(t: string, from: nat, m: Match)
    requires from <= |t| && VariableNext(t, from) == Some(m)
    ensures forall i: nat :: !OccursAt(t[from..m.start], "{{", i)
    ensures t[from..m.start] == [] || t[from..m.start][m.start - from - 1] != '{'
  {
    var g := t[from..m.start];
    forall i: nat ensures !OccursAt(g, "{{", i) {
      OccursInSlice(t, "{{", from, m.start, i);
    }
    if g != [] {
      // the match is the leftmost `{{`, so the character before it is not `{`
      var k := m.start - 1;
      assert !OccursAt(t, "{{", k);
      assert t[m.start] == t[m.start..m.start + 2][0] == '{';
      assert t[k..k + 2] == [t[k], t[m.start]];
      assert g[|g| - 1] == t[k];
    }
  }

  /** A text without tag spans is a fixed point of both passes. */
  lemma NoTagSpanIsFixed(t: string)
    requires NoTagSpan(t)
    ensures DeleteAll(Wrapper, t, 0) == t
    ensures DeleteAll(Variable, t, 0) == t
  {
    DeleteAllUnchangedIff(Wrapper, t);
    DeleteAllUnchangedIff(Variable, t);
  }

  /** Cleaning twice is cleaning once: the first cleaning leaves no tag span, so the second changes nothing. */
  lemma CleanTemplateIdempotent(t: string)
    ensures CleanTemplate(CleanTemplate(t)) == CleanTemplate(t)
  {
  }
}
