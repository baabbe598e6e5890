/**
 * Concrete renderings that pin the engine's behaviour down on small inputs.
 * Each template is a parameter fixed by a `requires t == ...` clause rather than a
 * literal in the body, so the verifier unfolds the literal only where a step needs it.
 */
module Scenarios {
  import opened Wrappers
  import opened Text
  import opened Escaping
  import opened Patterns
  import opened Values
  import opened Engine
  import opened EngineFacts

  /** `<b>` escaped. */
  lemma EscapeBold(v: string)
    requires v == "<b>"
    ensures HtmlSpecialChars(v) == "&lt;b&gt;"
  {
    assert HtmlSpecialChars(v[2..]) == "&gt;";
    assert HtmlSpecialChars(v[1..]) == "b&gt;";
  }

  /** `Hello {{name}}!` holds no raw tag of `name`, and one escaped tag, at 6. */
  lemma HelloTags(t: string, e: string)
    requires t == "Hello {{name}}!"
    ensures ReplaceAll(t, RawTag("name"), e) == t
    ensures ReplaceAll(t, EscapedTag("name"), e) == t[..6] + e + t[14..]
  {
    var raw, esc := RawTag("name"), EscapedTag("name");
    FindMissing(t, raw, 0, 0);
    assert ReplaceFrom(t, raw, e, 0) == t[0..] == t;
    FindAfterStretch(t, esc, 0, 0, 6);
    FindMissing(t, esc, 0, 14);
    assert ReplaceFrom(t, esc, e, 14) == t[14..];
    assert ReplaceFrom(t, esc, e, 0) == t[0..6] + e + ReplaceFrom(t, esc, e, 14);
  }

  /** The scalar branch on `Hello {{name}}!` with the value `<b>`. */
  lemma HelloSubstitution(t: string, v: string)
    requires t == "Hello {{name}}!" && v == "<b>"
    ensures Substitute(t, "name", v) == "Hello &lt;b&gt;!"
  {
    EscapeBold(v);
    HelloTags(t, v);
    HelloTags(t, HtmlSpecialChars(v));
    assert t[..6] == "Hello " && t[14..] == "!";
  }

  /** `render("Hello {{name}}!", ['name' => '<b>'])` is `Hello &lt;b&gt;!`. */
  lemma HelloEscaped(t: string, data: Entries, oracle: Oracle)
    requires t == "Hello {{name}}!" && data == [(StrKey("name"), Scalar("<b>"))]
    ensures Parse(1, Run(t, []), data, data, oracle) == Some(Run("Hello &lt;b&gt;!", []))
  {
    var out := "Hello &lt;b&gt;!";
    HelloSubstitution(t, "<b>");
    assert ParseEntry(0, Run(t, []), StrKey("name"), Scalar("<b>"), data, oracle) == Some(Run(out, []));
    SingleEntry(0, Run(t, []), StrKey("name"), Scalar("<b>"), data, oracle);
  }

  /** A root map under which rendering `{{b}}` re-creates the section that renders `{{b}}` again. */
  predicate SelfFeeding(root: Entries) {
    root == [(StrKey("b"), Scalar("{{#a}}{{b}}{{/a}}")), (StrKey("a"), Bool(true))]
  }

  /** The section text has no character that escaping changes. */
  lemma SelfFeedingPlain(v: string)
    requires v == "{{#a}}{{b}}{{/a}}"
    ensures HtmlSpecialChars(v) == v
  {
    EscapeIsIdentityIff(v);
  }

  /** The scalar `b` turns `{{b}}` into the conditional section, unchanged by escaping. */
  lemma SelfFeedingScalarStep(f: nat, t: string, v: string, calls: seq<ClosureId>, root: Entries, oracle: Oracle)
    requires t == "{{b}}" && v == "{{#a}}{{b}}{{/a}}"
    ensures ParseEntry(f, Run(t, calls), StrKey("b"), Scalar(v), root, oracle) == Some(Run(v, calls))
  {
    assert t == EscapedTag("b");
    SubstituteWholeTag("b", v);
    SelfFeedingPlain(v);
  }

  /** For a true `a`, deleting the inverted sections leaves the section alone... */
  lemma SelfFeedingSection(v: string)
    requires v == "{{#a}}{{b}}{{/a}}"
    ensures DeleteAll(Section('^', "a", true), v, 0) == v
  {
    FindMissing(v, OpenTag('^', "a"), 2, 0);
  }

  /** ...and the one conditional match has `{{b}}` for its body. */
  lemma SelfFeedingCapture(v: string)
    requires v == "{{#a}}{{b}}{{/a}}"
    ensures Captures(Section('#', "a", false), v, 0) == [Capture(v, "{{b}}")]
  {
    assert v == OpenTag('#', "a") + "{{b}}" + CloseTag("a");
    FindAfterStretch(v, CloseTag("a"), 2, 6, 11);
    SectionWhole(v, '#', "a", "{{b}}", false);
  }

  /** The conditional branch renders the body `{{b}}` against the root map again. */
  lemma ConditionalStep(f: nat, t: string, v: string, calls: seq<ClosureId>, root: Entries, oracle: Oracle)
    requires t == "{{b}}" && v == "{{#a}}{{b}}{{/a}}"
    requires Parse(f, Run(t, calls), root, root, oracle).None?
    ensures ParseEntry(f, Run(v, calls), StrKey("a"), Bool(true), root, oracle).None?
  {
    SelfFeedingSection(v);
    SelfFeedingCapture(v);
    assert KeyText(StrKey("a")) == "a";
    assert ExpandConditionals(f, Run(v, calls), [Capture(v, t)], 0, root, oracle).None?;
  }

  /** The two entries in order: `b` rewrites the template, then `a` recurses. */
  lemma SelfFeedingEntries(f: nat, t: string, v: string, calls: seq<ClosureId>, root: Entries, oracle: Oracle)
    requires |root| == 2 && root[0] == (StrKey("b"), Scalar(v)) && root[1] == (StrKey("a"), Bool(true))
    requires ParseEntry(f, Run(t, calls), StrKey("b"), Scalar(v), root, oracle) == Some(Run(v, calls))
    requires ParseEntry(f, Run(v, calls), StrKey("a"), Bool(true), root, oracle).None?
    ensures ParseEntries(f, Run(t, calls), root, 0, root, oracle).None?
  {
    assert ParseEntries(f, Run(v, calls), root, 1, root, oracle).None?;
  }

  /** The template `{{b}}` under the self-feeding root map. */
  predicate SelfFeedingInput(t: string, root: Entries) {
    t == "{{b}}" && SelfFeeding(root)
  }

  /** One round: if the nested render of `{{b}}` runs out of fuel, so does the enclosing one. */
  lemma RoundStep(f: nat, t: string, calls: seq<ClosureId>, root: Entries, oracle: Oracle)
    requires SelfFeedingInput(t, root)
    requires Parse(f, Run(t, calls), root, root, oracle).None?
    ensures Parse(f + 1, Run(t, calls), root, root, oracle).None?
  {
    var v := "{{#a}}{{b}}{{/a}}";
    SelfFeedingScalarStep(f, t, v, calls, root, oracle);
    ConditionalStep(f, t, v, calls, root, oracle);
    SelfFeedingEntries(f, t, v, calls, root, oracle);
  }

  /** No fuel suffices: the source's recursion does not end on this input. */
  lemma {:induction false} SelfFeedingDiverges(fuel: nat, t: string, calls: seq<ClosureId>, root: Entries, oracle: Oracle)
    requires SelfFeedingInput(t, root)
    ensures Parse(fuel, Run(t, calls), root, root, oracle).None?
  {
    if fuel > 0 {
      SelfFeedingDiverges(fuel - 1, t, calls, root, oracle);
      RoundStep(fuel - 1, t, calls, root, oracle);
    }
  }

  /** `{{#k}}A{{/k}}{{^k}}B{{/k}}`, the boolean example: positions 0, 7, 13 and 20 start tags. */
  predicate BoolTemplate(t: string, yes: string, no: string) {
    yes == "{{#k}}A{{/k}}" && no == "{{^k}}B{{/k}}" && t == yes + no
  }

  lemma BoolTrueDeletes(t: string, yes: string, no: string)
    requires BoolTemplate(t, yes, no)
    ensures DeleteAll(Section('^', "k", true), t, 0) == yes
  {
    var open, close := OpenTag('^', "k"), CloseTag("k");
    FindAfterStretch(t, open, 2, 0, 13);
    FindAfterStretch(t, close, 2, 19, 20);
    SectionDeletedOnce(t, '^', "k", true, 13, 20, 26);
    assert t[..13] == yes && t[26..] == [];
  }

  lemma BoolFalseDeletes(t: string, yes: string, no: string)
    requires BoolTemplate(t, yes, no)
    ensures DeleteAll(Section('#', "k", true), t, 0) == no
  {
    var open, close := OpenTag('#', "k"), CloseTag("k");
    FindAfterStretch(t, open, 2, 0, 0);
    FindAfterStretch(t, close, 2, 6, 7);
    FindMissing(t, open, 2, 13);
    assert NewlineRun(t, 13) == 0;
    SectionDeletedOnce(t, '#', "k", true, 0, 7, 13);
    assert t[..0] == [] && t[13..] == no;
  }

  /** A lone section `{{ck}}x{{/k}}` is one conditional match whose body is `x`. */
  lemma LoneSection(s: string, c: char, x: char)
    requires s == OpenTag(c, "k") + [x] + CloseTag("k") && x != '{'
    ensures Captures(Section(c, "k", false), s, 0) == [Capture(s, [x])]
  {
    FindAfterStretch(s, CloseTag("k"), 0, 6, 7);
    SectionWhole(s, c, "k", [x], false);
  }

  /** A one-character template holds no section, so a boolean leaves it alone. */
  lemma BoolOnLetter(f: nat, x: char, calls: seq<ClosureId>, b: bool, root: Entries, oracle: Oracle)
    ensures ParseEntry(f, Run([x], calls), StrKey("k"), Bool(b), root, oracle) == Some(Run([x], calls))
  {
    NoSectionNoChange(f, Run([x], calls), StrKey("k"), Bool(b), root, oracle);
  }

  /** The boolean example once its two scans are known. */
  lemma BoolRender(fuel: nat, t: string, kept: string, x: char, b: bool, data: Entries, oracle: Oracle)
    requires fuel == 2 && data == [(StrKey("k"), Bool(b))]
    requires DeleteAll(Section(if b then '^' else '#', "k", true), t, 0) == kept
    requires Captures(Section(if b then '#' else '^', "k", false), kept, 0) == [Capture(kept, [x])]
    requires |kept| > 0
    ensures Parse(fuel, Run(t, []), data, data, oracle) == Some(Run([x], []))
  {
    BoolOnLetter(0, x, [], b, data, oracle);
    SingleEntry(0, Run([x], []), StrKey("k"), Bool(b), data, oracle);
    ReplaceFirstWhole(kept, [x]);
    OneConditional(1, t, kept, [x], Run([x], []), [], "k", b, data, oracle);
    SingleEntry(1, Run(t, []), StrKey("k"), Bool(b), data, oracle);
  }

  /** `{{#k}}A{{/k}}{{^k}}B{{/k}}` with `k` true renders to `A`: the conditional branch adds no newline. */
  lemma BoolTrueExample(t: string, yes: string, no: string, data: Entries, oracle: Oracle)
    requires BoolTemplate(t, yes, no) && data == [(StrKey("k"), Bool(true))]
    ensures Parse(2, Run(t, []), data, data, oracle) == Some(Run("A", []))
  {
    LoneSection(yes, '#', 'A');
    BoolTrueDeletes(t, yes, no);
    BoolRender(2, t, yes, 'A', true, data, oracle);
  }

  /** With `k` false the same template renders to `B`. */
  lemma BoolFalseExample(t: string, yes: string, no: string, data: Entries, oracle: Oracle)
    requires BoolTemplate(t, yes, no) && data == [(StrKey("k"), Bool(false))]
    ensures Parse(2, Run(t, []), data, data, oracle) == Some(Run("B", []))
  {
    LoneSection(no, '^', 'B');
    BoolFalseDeletes(t, yes, no);
    BoolRender(2, t, no, 'B', false, data, oracle);
  }

  /** `{{#k}}X{{/k}}` with `k` an empty array renders to the empty string. */
  lemma EmptyListExample(t: string, data: Entries, oracle: Oracle)
    requires t == "{{#k}}X{{/k}}" && data == [(StrKey("k"), Array([]))]
    ensures Parse(1, Run(t, []), data, data, oracle) == Some(Run("", []))
  {
    var open, close := OpenTag('#', "k"), CloseTag("k");
    FindAfterStretch(t, open, 0, 0, 0);
    FindAfterStretch(t, close, 0, 6, 7);
    assert SectionNext(t, '#', "k", true, 0) == Some(Match(0, 6, 7, 13));
    assert DeleteAll(Section('#', "k", true), t, 0) == "";
    EmptyArrayDeletesSections(0, Run(t, []), StrKey("k"), data, oracle);
    SingleEntry(0, Run(t, []), StrKey("k"), Array([]), data, oracle);
  }

  /** One loop item: the line `{{_}}` plus newline, against `['_' => x]`, is `x` escaped plus newline. */
  lemma ItemLine(f: nat, tpl: string, x: string, calls: seq<ClosureId>, root: Entries, oracle: Oracle)
    requires tpl == "{{_}}\n"
    ensures Parse(f + 1, Run(tpl, calls), [(ItemKey, Scalar(x))], root, oracle) == Some(Run(HtmlSpecialChars(x) + "\n", calls))
  {
    var raw, esc, e := RawTag("_"), EscapedTag("_"), HtmlSpecialChars(x);
    assert ReplaceAll(tpl, raw, x) == tpl;
    FindAfterStretch(tpl, esc, 0, 0, 0);
    assert ReplaceFrom(tpl, esc, e, 5) == tpl[5..] == "\n";
    assert ReplaceFrom(tpl, esc, e, 0) == tpl[0..0] + e + ReplaceFrom(tpl, esc, e, 5);
    assert Substitute(tpl, "_", x) == e + "\n";
    SingleEntry(f, Run(tpl, calls), ItemKey, Scalar(x), root, oracle);
  }

  /** The loop body `{{_}}` neither starts with white space nor ends in a newline, so trimming keeps it. */
  lemma TrimKeepsItemTag(body: string)
    requires body == "{{_}}"
    ensures TrimLoopBody(body) == body
  {
    assert !IsSpace(body[0]) && body[4] != '\n';
    assert body[0..5] == body;
  }

  /** Where the tags of `{{#k}}{{_}}{{/k}}` are. */
  lemma ListTags(t: string)
    requires t == "{{#k}}{{_}}{{/k}}"
    ensures Find(t, OpenTag('#', "k"), 0) == Some(0)
    ensures Find(t, CloseTag("k"), 6) == Some(11)
    ensures NewlineRun(t, 17) == 0
  {
    FindAfterStretch(t, OpenTag('#', "k"), 0, 0, 0);
    FindAfterStretch(t, CloseTag("k"), 2, 6, 11);
  }

  /** The single loop match of `{{#k}}{{_}}{{/k}}`. */
  lemma ListCapture(t: string)
    requires t == "{{#k}}{{_}}{{/k}}"
    ensures Captures(Section('#', "k", true), t, 0) == [Capture(t, "{{_}}")]
  {
    ListTags(t);
    assert t == OpenTag('#', "k") + "{{_}}" + CloseTag("k");
    SectionWhole(t, '#', "k", "{{_}}", true);
  }

  /** One item of the list renders to its one-line text. */
  lemma ListItem(tpl: string, es: Entries, j: nat, acc: Run, root: Entries, oracle: Oracle)
    requires tpl == "{{_}}\n" && j < |es| && es[j].1.Scalar? && |es[j].1.text| == 1 && !IsSpecial(es[j].1.text[0])
    ensures Iterate(1, acc, tpl, es, j, root, oracle)
      == Iterate(1, Run(acc.text + es[j].1.text + "\n", acc.calls), tpl, es, j + 1, root, oracle)
  {
    var x := es[j].1.text;
    assert HtmlSpecialChars(x) == EntityOf(x[0]) + HtmlSpecialChars(x[1..]) == x;
    ItemLine(0, tpl, x, acc.calls, root, oracle);
    assert LoopContext(es[j].1) == [(ItemKey, Scalar(x))];
    IterateStep(1, acc, tpl, es, j, Run(x + "\n", acc.calls), root, oracle);
    assert acc.text + (x + "\n") == acc.text + x + "\n";
  }

  /** The three items `1`, `2`, `3` render to one line each. */
  lemma ListItems(tpl: string, es: Entries, root: Entries, oracle: Oracle)
    requires tpl == "{{_}}\n" && es == [(IntKey(0), Scalar("1")), (IntKey(1), Scalar("2")), (IntKey(2), Scalar("3"))]
    ensures Iterate(1, Run("", []), tpl, es, 0, root, oracle) == Some(Run("1\n2\n3\n", []))
  {
    assert es[0].1.text == "1" && es[1].1.text == "2" && es[2].1.text == "3";
    ListItem(tpl, es, 0, Run("", []), root, oracle);
    assert "" + "1" + "\n" == "1\n";
    ListItem(tpl, es, 1, Run("1\n", []), root, oracle);
    assert "1\n" + "2" + "\n" == "1\n2\n";
    ListItem(tpl, es, 2, Run("1\n2\n", []), root, oracle);
    assert "1\n2\n" + "3" + "\n" == "1\n2\n3\n";
  }

  /**
   * `{{#k}}{{_}}{{/k}}` with `k` the list `[1, 2, 3]` renders each item on a
   * line of its own, followed by one empty line.
   */
  lemma ListExample(t: string, es: Entries, data: Entries, oracle: Oracle)
    requires t == "{{#k}}{{_}}{{/k}}"
    requires es == [(IntKey(0), Scalar("1")), (IntKey(1), Scalar("2")), (IntKey(2), Scalar("3"))]
    requires data == [(StrKey("k"), Array(es))]
    ensures Parse(2, Run(t, []), data, data, oracle) == Some(Run("1\n2\n3\n\n", []))
  {
    var out := "1\n2\n3\n";
    assert out + "\n" == "1\n2\n3\n\n";
    TrimKeepsItemTag("{{_}}");
    assert TrimLoopBody("{{_}}") + "\n" == "{{_}}\n";
    ListItems("{{_}}\n", es, data, oracle);
    assert es[0].0 == IntKey(0) && HasIndexZero(es);
    assert LoopContent(1, [], "{{_}}", es, data, oracle) == Some(Run(out, []));
    ListCapture(t);
    OneLoop(1, t, "{{_}}", es, Run(out, []), [], "k", data, oracle);
    SingleEntry(1, Run(t, []), StrKey("k"), Array(es), data, oracle);
  }

  // ---------------------------------------------------------------------
  // A conditional nested in a loop reads the root map, not the loop item.
  // ---------------------------------------------------------------------

  /** The root map `['k' => ['f' => true, 'x' => 'in'], 'x' => 'out']`. */
  predicate ScopeRoot(root: Entries, inner: Entries) {
    && inner == [(StrKey("f"), Bool(true)), (StrKey("x"), Scalar("in"))]
    && root == [(StrKey("k"), Array(inner)), (StrKey("x"), Scalar("out"))]
  }

  /** `out` has no character that escaping changes. */
  lemma OutPlain(v: string)
    requires v == "out"
    ensures HtmlSpecialChars(v) == v
  {
    EscapeIsIdentityIff(v);
  }

  /** `{{x}}` against the root map is the root's `out`: the loop key finds no section there. */
  lemma ScopeRootX(f: nat, s: string, calls: seq<ClosureId>, root: Entries, inner: Entries, oracle: Oracle)
    requires s == "{{x}}" && ScopeRoot(root, inner)
    ensures Parse(f + 1, Run(s, calls), root, root, oracle) == Some(Run("out", calls))
  {
    var run := Run(s, calls);
    FindMissing(s, OpenTag('#', "k"), 0, 0);
    FindMissing(s, OpenTag('^', "k"), 0, 0);
    NoSectionNoChange(f, run, StrKey("k"), Array(inner), root, oracle);
    SingleEntry(f, run, StrKey("k"), Array(inner), root, oracle);
    assert s == EscapedTag("x");
    SubstituteWholeTag("x", "out");
    OutPlain("out");
    SingleEntry(f, run, StrKey("x"), Scalar("out"), root, oracle);
    assert root == [root[0]] + [root[1]];
    ParseAppend(f + 1, run, [root[0]], [root[1]], root, oracle);
  }

  /** `{{#f}}{{x}}{{/f}}` holds no inverted section of `f`. */
  lemma ScopeNoInverted(body: string)
    requires body == "{{#f}}{{x}}{{/f}}"
    ensures DeleteAll(Section('^', "f", true), body, 0) == body
  {
    FindMissing(body, OpenTag('^', "f"), 2, 0);
    DeleteAllUnchangedIff(Section('^', "f", true), body);
  }

  /** Where the tags of `{{#f}}{{x}}{{/f}}` are. */
  lemma ScopeBranchTags(body: string)
    requires body == "{{#f}}{{x}}{{/f}}"
    ensures Find(body, OpenTag('#', "f"), 0) == Some(0)
    ensures Find(body, CloseTag("f"), 6) == Some(11)
    ensures Find(body, OpenTag('#', "f"), 17).None?
  {
    FindAfterStretch(body, OpenTag('#', "f"), 0, 0, 0);
    FindAfterStretch(body, CloseTag("f"), 2, 6, 11);
    FindMissing(body, OpenTag('#', "f"), 0, 17);
  }

  /** The one conditional match of `{{#f}}{{x}}{{/f}}` has body `{{x}}`. */
  lemma ScopeBranchCapture(body: string)
    requires body == "{{#f}}{{x}}{{/f}}"
    ensures Captures(Section('#', "f", false), body, 0) == [Capture(body, "{{x}}")]
  {
    ScopeBranchTags(body);
    assert body == OpenTag('#', "f") + "{{x}}" + CloseTag("f");
    SectionWhole(body, '#', "f", "{{x}}", false);
  }

  /** The true `f` of the item renders its body against the root map, so `{{x}}` becomes `out`, not `in`. */
  lemma ScopeBranch(f: nat, body: string, calls: seq<ClosureId>, root: Entries, inner: Entries, oracle: Oracle)
    requires body == "{{#f}}{{x}}{{/f}}" && ScopeRoot(root, inner)
    ensures ParseEntry(f + 1, Run(body, calls), StrKey("f"), Bool(true), root, oracle) == Some(Run("out", calls))
  {
    ScopeNoInverted(body);
    ScopeBranchCapture(body);
    ScopeRootX(f, "{{x}}", calls, root, inner, oracle);
    OneConditional(f + 1, body, body, "{{x}}", Run("out", calls), calls, "f", true, root, oracle);
  }

  /** The array without index 0 is the context itself: its `f` branch yields `out`, which its own `x` no longer matches. */
  lemma ScopeContent(f: nat, body: string, calls: seq<ClosureId>, root: Entries, inner: Entries, oracle: Oracle)
    requires body == "{{#f}}{{x}}{{/f}}" && ScopeRoot(root, inner)
    ensures LoopContent(f + 2, calls, body, inner, root, oracle) == Some(Run("out", calls))
  {
    var run := Run(body, calls);
    assert !HasIndexZero(inner);
    ScopeBranch(f, body, calls, root, inner, oracle);
    SingleEntry(f + 1, run, StrKey("f"), Bool(true), root, oracle);
    SubstituteShort("out", "x", "in");
    SingleEntry(f + 1, Run("out", calls), StrKey("x"), Scalar("in"), root, oracle);
    assert inner == [inner[0]] + [inner[1]];
    ParseAppend(f + 2, run, [inner[0]], [inner[1]], root, oracle);
  }

  /** Where the tags of `{{#k}}{{#f}}{{x}}{{/f}}{{/k}}` are: `{{/f}}` is not the close of `k`. */
  lemma ScopeLoopTags(t: string)
    requires t == "{{#k}}{{#f}}{{x}}{{/f}}{{/k}}"
    ensures Find(t, OpenTag('#', "k"), 0) == Some(0)
    ensures Find(t, CloseTag("k"), 6) == Some(23)
    ensures Find(t, OpenTag('#', "k"), 29).None?
    ensures NewlineRun(t, 29) == 0
  {
    FindAfterStretch(t, OpenTag('#', "k"), 0, 0, 0);
    FindAfterStretch(t, CloseTag("k"), 3, 6, 23);
    FindMissing(t, OpenTag('#', "k"), 0, 29);
  }

  /** The single loop match of `{{#k}}{{#f}}{{x}}{{/f}}{{/k}}`: the whole template, its body the inner section. */
  lemma ScopeCapture(t: string, body: string)
    requires t == "{{#k}}{{#f}}{{x}}{{/f}}{{/k}}" && body == "{{#f}}{{x}}{{/f}}"
    ensures Captures(Section('#', "k", true), t, 0) == [Capture(t, body)]
  {
    ScopeLoopTags(t);
    assert t == OpenTag('#', "k") + body + CloseTag("k");
    SectionWhole(t, '#', "k", body, true);
  }

  /** The loop over `k` replaces the template by that content and one newline. */
  lemma ScopeLoop(f: nat, t: string, root: Entries, inner: Entries, oracle: Oracle)
    requires t == "{{#k}}{{#f}}{{x}}{{/f}}{{/k}}" && ScopeRoot(root, inner)
    ensures ParseEntry(f + 2, Run(t, []), StrKey("k"), Array(inner), root, oracle) == Some(Run("out\n", []))
  {
    var body := "{{#f}}{{x}}{{/f}}";
    assert "out" + "\n" == "out\n";
    ScopeContent(f, body, [], root, inner, oracle);
    ScopeCapture(t, body);
    OneLoop(f + 2, t, body, inner, Run("out", []), [], "k", root, oracle);
  }

  /** The root's first entry, the loop over `k`, on its own. */
  lemma ScopeFirstEntry(f: nat, t: string, root: Entries, inner: Entries, oracle: Oracle)
    requires t == "{{#k}}{{#f}}{{x}}{{/f}}{{/k}}" && ScopeRoot(root, inner)
    ensures Parse(f + 3, Run(t, []), [root[0]], root, oracle) == Some(Run("out\n", []))
  {
    ScopeLoop(f, t, root, inner, oracle);
    SingleEntry(f + 2, Run(t, []), StrKey("k"), Array(inner), root, oracle);
  }

  /** The root's second entry, `x`, finds no tag left in `out` and a newline. */
  lemma ScopeSecondEntry(f: nat, s: string, root: Entries, inner: Entries, oracle: Oracle)
    requires s == "out\n" && ScopeRoot(root, inner)
    ensures Parse(f + 3, Run(s, []), [root[1]], root, oracle) == Some(Run(s, []))
  {
    SubstituteShort(s, "x", "out");
    SingleEntry(f + 2, Run(s, []), StrKey("x"), Scalar("out"), root, oracle);
  }

  /**
   * `{{#k}}{{#f}}{{x}}{{/f}}{{/k}}` with `k` an array holding `f` true and `x`
   * `in`, and a root `x` of `out`, renders to `out` and one newline with three
   * or more levels of nesting allowed: the conditional inside the loop reads `x`
   * from the root map, not from the item.
   */
  lemma ScopeExample(f: nat, t: string, root: Entries, inner: Entries, oracle: Oracle)
    requires t == "{{#k}}{{#f}}{{x}}{{/f}}{{/k}}" && ScopeRoot(root, inner)
    ensures Parse(f + 3, Run(t, []), root, root, oracle) == Some(Run("out\n", []))
  {
    ScopeFirstEntry(f, t, root, inner, oracle);
    ScopeSecondEntry(f, "out\n", root, inner, oracle);
    assert root == [root[0]] + [root[1]];
    ParseAppend(f + 3, Run(t, []), [root[0]], [root[1]], root, oracle);
  }
}
