/** Properties of `parse` as modelled in Engine. */
module EngineFacts {
  import opened Wrappers
  import opened Text
  import opened Escaping
  import opened Patterns
  import opened Values
  import opened Engine

  // ---------------------------------------------------------------------
  // Fuel only bounds the recursion: a result found with some fuel is the
  // result with any larger fuel.
  // ---------------------------------------------------------------------

  lemma {:induction false} ParseMono(fuel: nat, run: Run, data: Entries, root: Entries, oracle: Oracle)
    ensures Parse(fuel, run, data, root, oracle).Some? ==>
      Parse(fuel + 1, run, data, root, oracle) == Parse(fuel, run, data, root, oracle)
    decreases fuel, 0, 0
  {
    if fuel > 0 {
      EntriesMono(fuel - 1, run, data, 0, root, oracle);
    }
  }

  lemma {:induction false} EntriesMono(f: nat, run: Run, data: Entries, i: nat, root: Entries, oracle: Oracle)
    requires i <= |data|
    ensures ParseEntries(f, run, data, i, root, oracle).Some? ==>
      ParseEntries(f + 1, run, data, i, root, oracle) == ParseEntries(f, run, data, i, root, oracle)
    decreases f, 5, |data| - i
  {
    if i < |data| {
      EntryMono(f, run, data[i].0, data[i].1, root, oracle);
      var next := ParseEntry(f, run, data[i].0, data[i].1, root, oracle);
      if next.Some? {
        EntriesMono(f, next.value, data, i + 1, root, oracle);
      }
    }
  }

  lemma {:induction false} EntryMono(f: nat, run: Run, key: Key, val: Value, root: Entries, oracle: Oracle)
    ensures ParseEntry(f, run, key, val, root, oracle).Some? ==>
      ParseEntry(f + 1, run, key, val, root, oracle) == ParseEntry(f, run, key, val, root, oracle)
    decreases f, 4, 0
  {
    var k := KeyText(key);
    match val
    case Array(es) =>
      if |es| > 0 {
        LoopsMono(f, run, Captures(Section('#', k, true), run.text, 0), 0, es, root, oracle);
      }
    case Bool(b) =>
      var kept := DeleteAll(Section(if b then '^' else '#', k, true), run.text, 0);
      var caps := Captures(Section(if b then '#' else '^', k, false), kept, 0);
      ConditionalsMono(f, run.(text := kept), caps, 0, root, oracle);
    case _ =>
  }

  lemma {:induction false} LoopsMono(f: nat, run: Run, caps: seq<Capture>, j: nat, es: Entries, root: Entries, oracle: Oracle)
    requires j <= |caps|
    ensures ExpandLoops(f, run, caps, j, es, root, oracle).Some? ==>
      ExpandLoops(f + 1, run, caps, j, es, root, oracle) == ExpandLoops(f, run, caps, j, es, root, oracle)
    decreases f, 3, |caps| - j
  {
    if j < |caps| {
      ContentMono(f, run.calls, caps[j].body, es, root, oracle);
      var content := LoopContent(f, run.calls, caps[j].body, es, root, oracle);
      if content.Some? {
        var t := ReplaceFirst(run.text, caps[j].full, content.value.text + "\n");
        LoopsMono(f, Run(t, content.value.calls), caps, j + 1, es, root, oracle);
      }
    }
  }

  lemma {:induction false} ContentMono(f: nat, calls: seq<ClosureId>, body: string, es: Entries, root: Entries, oracle: Oracle)
    ensures LoopContent(f, calls, body, es, root, oracle).Some? ==>
      LoopContent(f + 1, calls, body, es, root, oracle) == LoopContent(f, calls, body, es, root, oracle)
    decreases f, 2, 0
  {
    if HasIndexZero(es) {
      IterateMono(f, Run("", calls), TrimLoopBody(body) + "\n", es, 0, root, oracle);
    } else {
      ParseMono(f, Run(body, calls), es, root, oracle);
    }
  }

  lemma {:induction false} IterateMono(f: nat, acc: Run, tpl: string, es: Entries, j: nat, root: Entries, oracle: Oracle)
    requires j <= |es|
    ensures Iterate(f, acc, tpl, es, j, root, oracle).Some? ==>
      Iterate(f + 1, acc, tpl, es, j, root, oracle) == Iterate(f, acc, tpl, es, j, root, oracle)
    decreases f, 1, |es| - j
  {
    if j < |es| {
      ParseMono(f, Run(tpl, acc.calls), LoopContext(es[j].1), root, oracle);
      var item := Parse(f, Run(tpl, acc.calls), LoopContext(es[j].1), root, oracle);
      if item.Some? {
        IterateMono(f, Run(acc.text + item.value.text, item.value.calls), tpl, es, j + 1, root, oracle);
      }
    }
  }

  lemma {:induction false} ConditionalsMono(f: nat, run: Run, caps: seq<Capture>, j: nat, root: Entries, oracle: Oracle)
    requires j <= |caps|
    ensures ExpandConditionals(f, run, caps, j, root, oracle).Some? ==>
      ExpandConditionals(f + 1, run, caps, j, root, oracle) == ExpandConditionals(f, run, caps, j, root, oracle)
    decreases f, 3, |caps| - j
  {
    if j < |caps| {
      ParseMono(f, Run(caps[j].body, run.calls), root, root, oracle);
      var body := Parse(f, Run(caps[j].body, run.calls), root, root, oracle);
      if body.Some? {
        var t := ReplaceFirst(run.text, caps[j].full, body.value.text);
        ConditionalsMono(f, Run(t, body.value.calls), caps, j + 1, root, oracle);
      }
    }
  }

  /** Any two fuel bounds that both suffice give the same rendering. */
  lemma {:induction false} ParseFuelIndependent(fuel: nat, more: nat, run: Run, data: Entries, root: Entries, oracle: Oracle)
    requires fuel <= more
    requires Parse(fuel, run, data, root, oracle).Some?
    ensures Parse(more, run, data, root, oracle) == Parse(fuel, run, data, root, oracle)
    decreases more - fuel
  {
    if fuel < more {
      ParseMono(fuel, run, data, root, oracle);
      ParseFuelIndependent(fuel + 1, more, run, data, root, oracle);
    }
  }

  // ---------------------------------------------------------------------
  // The branches, one value kind at a time.
  // ---------------------------------------------------------------------

  /** Replacing a whole text that is exactly the needle yields the replacement. */
  lemma ReplaceWhole(p: string, r: string)
    requires |p| > 0
    ensures ReplaceAll(p, p, r) == r
  {
    assert Find(p, p, 0) == Some(0);
    assert Find(p, p, |p|).None?;
    assert ReplaceFrom(p, p, r, |p|) == [];
    assert ReplaceFrom(p, p, r, 0) == p[0..0] + r + ReplaceFrom(p, p, r, |p|);
  }

  /** Substituting into a text that is exactly `{{key}}` yields the escaped value: the raw pass finds nothing. */
  lemma SubstituteWholeTag(k: string, v: string)
    ensures Substitute(EscapedTag(k), k, v) == HtmlSpecialChars(v)
  {
    var t := EscapedTag(k);
    assert Absent(t, RawTag(k)) by {
      forall i: nat ensures !OccursAt(t, RawTag(k), i) { assert |RawTag(k)| > |t|; }
    }
    ReplaceWhole(t, HtmlSpecialChars(v));
  }

  /** A text shorter than `{{key}}` holds no tag of `key`, so substitution leaves it alone. */
  lemma SubstituteShort(t: string, k: string, v: string)
    requires |t| < |EscapedTag(k)|
    ensures Substitute(t, k, v) == t
  {
    assert Absent(t, EscapedTag(k)) by {
      forall i: nat ensures !OccursAt(t, EscapedTag(k), i) { }
    }
  }

  /** Rendering `{{key}}` against a scalar yields the escaped value. */
  lemma ScalarEscapedTag(fuel: nat, key: Key, v: string, calls: seq<ClosureId>, root: Entries, oracle: Oracle)
    requires fuel >= 1
    ensures Parse(fuel, Run(EscapedTag(KeyText(key)), calls), [(key, Scalar(v))], root, oracle)
      == Some(Run(HtmlSpecialChars(v), calls))
  {
    var k := KeyText(key);
    var run, data := Run(EscapedTag(k), calls), [(key, Scalar(v))];
    assert ReplaceAll(EscapedTag(k), RawTag(k), v) == EscapedTag(k);
    ReplaceWhole(EscapedTag(k), HtmlSpecialChars(v));
    assert Substitute(run.text, k, v) == HtmlSpecialChars(v);
    assert ParseEntry(fuel - 1, run, key, Scalar(v), root, oracle) == Some(Run(HtmlSpecialChars(v), calls));
    assert ParseEntries(fuel - 1, Run(HtmlSpecialChars(v), calls), data, 1, root, oracle) == Some(Run(HtmlSpecialChars(v), calls));
  }

  /** Rendering `{{{key}}}` against a scalar yields the value verbatim, provided the value does not itself hold `{{key}}`. */
  lemma ScalarRawTag(fuel: nat, key: Key, v: string, calls: seq<ClosureId>, root: Entries, oracle: Oracle)
    requires fuel >= 1
    requires Absent(v, EscapedTag(KeyText(key)))
    ensures Parse(fuel, Run(RawTag(KeyText(key)), calls), [(key, Scalar(v))], root, oracle)
      == Some(Run(v, calls))
  {
    var k := KeyText(key);
    var run, data := Run(RawTag(k), calls), [(key, Scalar(v))];
    ReplaceWhole(RawTag(k), v);
    assert ReplaceAll(v, EscapedTag(k), HtmlSpecialChars(v)) == v;
    assert Substitute(run.text, k, v) == v;
    assert ParseEntry(fuel - 1, run, key, Scalar(v), root, oracle) == Some(Run(v, calls));
    assert ParseEntries(fuel - 1, Run(v, calls), data, 1, root, oracle) == Some(Run(v, calls));
  }

  /** `<{{k}}>` escaped: only the angle brackets change. */
  lemma EscapeTagInBrackets(v: string)
    requires v == "<" + EscapedTag("k") + ">"
    ensures HtmlSpecialChars(v) == "&lt;" + EscapedTag("k") + "&gt;"
  {
    var esc := EscapedTag("k");
    assert forall i :: 0 <= i < |esc| ==> !IsSpecial(esc[i]);
    EscapeIsIdentityIff(esc);
    EscapeAround("<", esc, ">");
    EscapeChar('<');
    EscapeChar('>');
  }

  /** `<{{k}}>` holds `{{k}}` once, right after the bracket. */
  lemma ReplaceTagInBrackets(v: string, e: string)
    requires v == "<" + EscapedTag("k") + ">"
    ensures ReplaceAll(v, EscapedTag("k"), e) == "<" + e + ">"
  {
    var esc := EscapedTag("k");
    assert v[1..6] == esc;
    FindAfterStretch(v, esc, 0, 0, 1);
    assert Find(v, esc, 6).None?;
    assert ReplaceFrom(v, esc, e, 6) == v[6..] == ">";
    assert ReplaceFrom(v, esc, e, 0) == v[0..1] + e + ReplaceFrom(v, esc, e, 6);
  }

  /** The raw pass puts the value in verbatim, and the escaped pass then runs over the value itself. */
  lemma RawThenEscaped(k: string, v: string)
    ensures Substitute(RawTag(k), k, v) == ReplaceAll(v, EscapedTag(k), HtmlSpecialChars(v))
  {
    ReplaceWhole(RawTag(k), v);
  }

  /** The escaped pass rescans the raw value: a raw value holding its own escaped tag is not kept verbatim. */
  lemma RawValueRescanned(v: string)
    requires v == "<" + EscapedTag("k") + ">"
    ensures Substitute(RawTag("k"), "k", v) == "<" + ("&lt;" + EscapedTag("k") + "&gt;") + ">"
    ensures Substitute(RawTag("k"), "k", v) != v
  {
    RawThenEscaped("k", v);
    var e := HtmlSpecialChars(v);
    ReplaceTagInBrackets(v, e);
    EscapeTagInBrackets(v);
    var r := Substitute(RawTag("k"), "k", v);
    assert r[1] == '&' != v[1];
  }

  /** An object is skipped: the template is left as it is. */
  lemma ObjectSkipped(f: nat, run: Run, key: Key, root: Entries, oracle: Oracle)
    ensures ParseEntry(f, run, key, Object, root, oracle) == Some(run)
  {
  }

  /** A map holding only objects renders every template to itself. */
  lemma {:induction false} ObjectsOnlyLeaveTemplate(f: nat, run: Run, data: Entries, i: nat, root: Entries, oracle: Oracle)
    requires i <= |data|
    requires forall n :: i <= n < |data| ==> data[n].1 == Object
    ensures ParseEntries(f, run, data, i, root, oracle) == Some(run)
    decreases |data| - i
  {
    if i < |data| {
      ObjectsOnlyLeaveTemplate(f, run, data, i + 1, root, oracle);
    }
  }

  /**
   * A closure is invoked exactly twice per visit, even when neither tag occurs:
   * the first result feeds the raw tags, the second, escaped, the escaped tags.
   */
  lemma ClosureCalledTwice(f: nat, run: Run, key: Key, id: ClosureId, root: Entries, oracle: Oracle)
    ensures
      var k := KeyText(key);
      var r := ParseEntry(f, run, key, Closure(id), root, oracle);
      && r.Some?
      && r.value.calls == run.calls + [id, id]
      && r.value.text == ReplaceAll(ReplaceAll(run.text, RawTag(k), oracle(run.calls + [id])),
                                    EscapedTag(k), HtmlSpecialChars(oracle(run.calls + [id, id])))
      && (Absent(run.text, EscapedTag(k)) ==> r.value.text == run.text)
  {
    var k := KeyText(key);
    assert run.calls + [id] + [id] == run.calls + [id, id];
    if Absent(run.text, EscapedTag(k)) {
      RawNeedsEscaped(run.text, k);
      assert ReplaceAll(run.text, RawTag(k), oracle(run.calls + [id])) == run.text;
      assert ReplaceAll(run.text, EscapedTag(k), HtmlSpecialChars(oracle(run.calls + [id, id]))) == run.text;
    }
  }

  /**
   * An empty array deletes every `{{#key}}…{{/key}}` section with the newlines
   * after it, and changes the template exactly when such a section exists.
   */
  lemma EmptyArrayDeletesSections(f: nat, run: Run, key: Key, root: Entries, oracle: Oracle)
    ensures
      var pat := Section('#', KeyText(key), true);
      var r := ParseEntry(f, run, key, Array([]), root, oracle);
      && r == Some(Run(DeleteAll(pat, run.text, 0), run.calls))
      && (r.value.text == run.text <==> SectionNext(run.text, '#', KeyText(key), true, 0).None?)
  {
    DeleteAllUnchangedIff(Section('#', KeyText(key), true), run.text);
  }

  /** With no section of `key` in the template, no array or boolean value changes it. */
  lemma NoSectionNoChange(f: nat, run: Run, key: Key, val: Value, root: Entries, oracle: Oracle)
    requires val.Array? || val.Bool?
    requires SectionNext(run.text, '#', KeyText(key), true, 0).None?
    requires SectionNext(run.text, '^', KeyText(key), true, 0).None?
    ensures ParseEntry(f, run, key, val, root, oracle) == Some(run)
  {
    var k := KeyText(key);
    DeleteAllUnchangedIff(Section('#', k, true), run.text);
    DeleteAllUnchangedIff(Section('^', k, true), run.text);
    if val.Bool? {
    }
  }

  /** A map of one entry parses as that entry's branch, one level of fuel down. */
  lemma SingleEntry(f: nat, run: Run, key: Key, val: Value, root: Entries, oracle: Oracle)
    ensures Parse(f + 1, run, [(key, val)], root, oracle) == ParseEntry(f, run, key, val, root, oracle)
  {
    var data := [(key, val)];
    match ParseEntry(f, run, key, val, root, oracle)
    case None =>
    case Some(next) =>
      assert ParseEntries(f, next, data, 1, root, oracle) == Some(next);
  }

  /** Replacing the first occurrence, at the end of `pre`, of `full` in `pre + full + post`. */
  lemma ReplaceFirstAt(pre: string, full: string, post: string, x: string)
    requires Find(pre + full + post, full, 0) == Some(|pre|)
    ensures ReplaceFirst(pre + full + post, full, x) == pre + x + post
  {
    var t := pre + full + post;
    assert t[..|pre|] == pre;
    assert t[|pre| + |full|..] == post;
  }

  /**
   * One loop match, in the template as the earlier matches left it: its first
   * occurrence there, at the end of `pre`, becomes the content plus one newline.
   */
  lemma LoopMatchStep(f: nat, pre: string, post: string, run: Run, caps: seq<Capture>, j: nat, es: Entries, content: Run, root: Entries, oracle: Oracle)
    requires j < |caps|
    requires run.text == pre + caps[j].full + post && Find(run.text, caps[j].full, 0) == Some(|pre|)
    requires LoopContent(f, run.calls, caps[j].body, es, root, oracle) == Some(content)
    ensures ExpandLoops(f, run, caps, j, es, root, oracle)
      == ExpandLoops(f, Run(pre + content.text + "\n" + post, content.calls), caps, j + 1, es, root, oracle)
  {
    var x := content.text + "\n";
    ReplaceFirstAt(pre, caps[j].full, post, x);
    assert ReplaceFirst(run.text, caps[j].full, x) == pre + content.text + "\n" + post;
  }

  /**
   * One conditional match, in the template as the earlier matches left it: its
   * first occurrence there becomes its body rendered against the ROOT map.
   */
  lemma ConditionalMatchStep(f: nat, pre: string, post: string, run: Run, caps: seq<Capture>, j: nat, out: Run, root: Entries, oracle: Oracle)
    requires j < |caps|
    requires run.text == pre + caps[j].full + post && Find(run.text, caps[j].full, 0) == Some(|pre|)
    requires Parse(f, Run(caps[j].body, run.calls), root, root, oracle) == Some(out)
    ensures ExpandConditionals(f, run, caps, j, root, oracle)
      == ExpandConditionals(f, Run(pre + out.text + post, out.calls), caps, j + 1, root, oracle)
  {
    ReplaceFirstAt(pre, caps[j].full, post, out.text);
  }

  /** The array branch with a non-empty array expands the loop matches of the key. */
  lemma ArrayBranch(f: nat, run: Run, key: Key, es: Entries, root: Entries, oracle: Oracle)
    requires |es| > 0
    ensures ParseEntry(f, run, key, Array(es), root, oracle)
      == ExpandLoops(f, run, Captures(Section('#', KeyText(key), true), run.text, 0), 0, es, root, oracle)
  {
  }

  /** The boolean branch deletes the other kind of section, then expands the conditional matches in what is left. */
  lemma BoolBranch(f: nat, run: Run, key: Key, b: bool, kept: string, root: Entries, oracle: Oracle)
    requires kept == DeleteAll(Section(if b then '^' else '#', KeyText(key), true), run.text, 0)
    ensures ParseEntry(f, run, key, Bool(b), root, oracle)
      == ExpandConditionals(f, Run(kept, run.calls), Captures(Section(if b then '#' else '^', KeyText(key), false), kept, 0), 0, root, oracle)
  {
  }

  /** Past the last loop match nothing changes. */
  lemma LoopsDone(f: nat, run: Run, caps: seq<Capture>, es: Entries, root: Entries, oracle: Oracle)
    ensures ExpandLoops(f, run, caps, |caps|, es, root, oracle) == Some(run)
  {
  }

  /** Past the last conditional match nothing changes. */
  lemma ConditionalsDone(f: nat, run: Run, caps: seq<Capture>, root: Entries, oracle: Oracle)
    ensures ExpandConditionals(f, run, caps, |caps|, root, oracle) == Some(run)
  {
  }

  /** The boolean branch with one conditional match amid other text: only the match is replaced, by its body rendered against the root. */
  lemma ConditionalAmid(f: nat, t: string, pre: string, full: string, post: string, body: string, out: Run, calls: seq<ClosureId>, key: Key, b: bool, root: Entries, oracle: Oracle)
    requires DeleteAll(Section(if b then '^' else '#', KeyText(key), true), t, 0) == pre + full + post
    requires Captures(Section(if b then '#' else '^', KeyText(key), false), pre + full + post, 0) == [Capture(full, body)]
    requires Find(pre + full + post, full, 0) == Some(|pre|)
    requires Parse(f, Run(body, calls), root, root, oracle) == Some(out)
    ensures ParseEntry(f, Run(t, calls), key, Bool(b), root, oracle) == Some(Run(pre + out.text + post, out.calls))
  {
    var caps := [Capture(full, body)];
    var kept := Run(pre + full + post, calls);
    var done := Run(pre + out.text + post, out.calls);
    BoolBranch(f, Run(t, calls), key, b, kept.text, root, oracle);
    ConditionalMatchStep(f, pre, post, kept, caps, 0, out, root, oracle);
    ConditionalsDone(f, done, caps, root, oracle);
  }

  /** The array branch with one loop match amid other text: only the match is replaced, by the content plus one newline. */
  lemma LoopAmid(f: nat, pre: string, full: string, post: string, body: string, es: Entries, content: Run, calls: seq<ClosureId>, key: Key, root: Entries, oracle: Oracle)
    requires |es| > 0
    requires Captures(Section('#', KeyText(key), true), pre + full + post, 0) == [Capture(full, body)]
    requires Find(pre + full + post, full, 0) == Some(|pre|)
    requires LoopContent(f, calls, body, es, root, oracle) == Some(content)
    ensures ParseEntry(f, Run(pre + full + post, calls), key, Array(es), root, oracle)
      == Some(Run(pre + content.text + "\n" + post, content.calls))
  {
    var caps := [Capture(full, body)];
    var run := Run(pre + full + post, calls);
    var done := Run(pre + content.text + "\n" + post, content.calls);
    ArrayBranch(f, run, key, es, root, oracle);
    LoopMatchStep(f, pre, post, run, caps, 0, es, content, root, oracle);
    LoopsDone(f, done, caps, es, root, oracle);
  }

  /** The boolean branch with one conditional match spanning what the deletion left: its body, rendered against the root, replaces it. */
  lemma OneConditional(f: nat, t: string, kept: string, body: string, out: Run, calls: seq<ClosureId>, k: string, b: bool, root: Entries, oracle: Oracle)
    requires DeleteAll(Section(if b then '^' else '#', k, true), t, 0) == kept
    requires Captures(Section(if b then '#' else '^', k, false), kept, 0) == [Capture(kept, body)]
    requires Parse(f, Run(body, calls), root, root, oracle) == Some(out)
    ensures ParseEntry(f, Run(t, calls), StrKey(k), Bool(b), root, oracle) == Some(out)
  {
    var caps := [Capture(kept, body)];
    CapturedNonEmpty(Section(if b then '#' else '^', k, false), kept, body);
    ReplaceFirstWhole(kept, out.text);
    BoolBranch(f, Run(t, calls), StrKey(k), b, kept, root, oracle);
    ConditionalsDone(f, out, caps, root, oracle);
  }

  /** The array branch with one loop match spanning the whole template: the content plus one newline. */
  lemma OneLoop(f: nat, t: string, body: string, es: Entries, content: Run, calls: seq<ClosureId>, k: string, root: Entries, oracle: Oracle)
    requires |es| > 0
    requires Captures(Section('#', k, true), t, 0) == [Capture(t, body)]
    requires LoopContent(f, calls, body, es, root, oracle) == Some(content)
    ensures ParseEntry(f, Run(t, calls), StrKey(k), Array(es), root, oracle) == Some(Run(content.text + "\n", content.calls))
  {
    var caps, run := [Capture(t, body)], Run(t, calls);
    var done := Run(content.text + "\n", content.calls);
    CapturedNonEmpty(Section('#', k, true), t, body);
    ReplaceFirstWhole(t, content.text + "\n");
    ArrayBranch(f, run, StrKey(k), es, root, oracle);
    LoopsDone(f, done, caps, es, root, oracle);
  }

  /** A capture that is the whole text is never empty: every match spans its two tags. */
  lemma CapturedNonEmpty(p: Pattern, t: string, body: string)
    requires Captures(p, t, 0) == [Capture(t, body)]
    ensures |t| > 0
  {
    var m := Next(p, t, 0).value;
    assert Within(t, 0, m);
  }

  /** The item loop takes one step when the item renders. */
  lemma IterateStep(f: nat, acc: Run, tpl: string, es: Entries, j: nat, item: Run, root: Entries, oracle: Oracle)
    requires j < |es|
    requires Parse(f, Run(tpl, acc.calls), LoopContext(es[j].1), root, oracle) == Some(item)
    ensures Iterate(f, acc, tpl, es, j, root, oracle) == Iterate(f, Run(acc.text + item.text, item.calls), tpl, es, j + 1, root, oracle)
  {
  }

  /** Loop content only grows: each item's rendering is appended after the ones before it. */
  lemma {:induction false} IterateAppends(f: nat, acc: Run, tpl: string, es: Entries, j: nat, root: Entries, oracle: Oracle)
    requires j <= |es|
    ensures Iterate(f, acc, tpl, es, j, root, oracle).Some? ==> acc.text <= Iterate(f, acc, tpl, es, j, root, oracle).value.text
    decreases |es| - j
  {
    if j < |es| {
      match Parse(f, Run(tpl, acc.calls), LoopContext(es[j].1), root, oracle)
      case None =>
      case Some(item) =>
        var next := Run(acc.text + item.text, item.calls);
        IterateAppends(f, next, tpl, es, j + 1, root, oracle);
    }
  }

  /** The texts of `items`, concatenated in order. */
  function Texts(items: seq<Run>): string {
    if items == [] then "" else items[0].text + Texts(items[1..])
  }

  /** The invocation history after `items`, starting from `calls`. */
  function LastCalls(calls: seq<ClosureId>, items: seq<Run>): seq<ClosureId> {
    if items == [] then calls else items[|items| - 1].calls
  }

  /**
   * Item `j + i` of `es`, in its loop context, renders `tpl` to `items[i]`, each
   * starting from the invocation history the item before it left.
   */
  ghost predicate ItemsRender(f: nat, tpl: string, calls: seq<ClosureId>, es: Entries, j: nat, items: seq<Run>, root: Entries, oracle: Oracle)
    decreases |items|
  {
    && j + |items| == |es|
    && (items != [] ==>
      && Parse(f, Run(tpl, calls), LoopContext(es[j].1), root, oracle) == Some(items[0])
      && ItemsRender(f, tpl, items[0].calls, es, j + 1, items[1..], root, oracle))
  }

  /**
   * The item loop is the in-order concatenation of the item renderings: when
   * the items render to `items`, the loop yields all their texts in order
   * after `acc`, and the history the last one left.
   */
  lemma {:induction false} IterateConcat(f: nat, acc: Run, tpl: string, es: Entries, j: nat, items: seq<Run>, root: Entries, oracle: Oracle)
    requires ItemsRender(f, tpl, acc.calls, es, j, items, root, oracle)
    ensures Iterate(f, acc, tpl, es, j, root, oracle) == Some(Run(acc.text + Texts(items), LastCalls(acc.calls, items)))
    decreases |es| - j
  {
    if j == |es| {
      assert acc.text + Texts(items) == acc.text;
    } else {
      var rest := items[1..];
      var next := Run(acc.text + items[0].text, items[0].calls);
      assert acc.text + Texts(items) == next.text + Texts(rest);
      assert LastCalls(acc.calls, items) == LastCalls(next.calls, rest);
      IterateStep(f, acc, tpl, es, j, items[0], root, oracle);
      IterateConcat(f, next, tpl, es, j + 1, rest, root, oracle);
    }
  }

  /**
   * A loop over an array with index 0: the content is every item's rendering of
   * the trimmed body plus a newline, against the item's context, in order.
   */
  lemma LoopItems(f: nat, calls: seq<ClosureId>, body: string, es: Entries, items: seq<Run>, root: Entries, oracle: Oracle)
    requires HasIndexZero(es)
    requires ItemsRender(f, TrimLoopBody(body) + "\n", calls, es, 0, items, root, oracle)
    ensures LoopContent(f, calls, body, es, root, oracle) == Some(Run(Texts(items), LastCalls(calls, items)))
  {
    IterateConcat(f, Run("", calls), TrimLoopBody(body) + "\n", es, 0, items, root, oracle);
    assert "" + Texts(items) == Texts(items);
  }

  // ---------------------------------------------------------------------
  // The walk over the entries composes.
  // ---------------------------------------------------------------------

  /** The entry loop's shape, for any step: stop at the first None, else go on with the step's result. */
  function Walk(step: (Run, Key, Value) -> Option<Run>, run: Run, data: Entries, i: nat): Option<Run>
    requires i <= |data|
    decreases |data| - i
  {
    if i == |data| then Some(run)
    else match step(run, data[i].0, data[i].1)
      case None => None
      case Some(next) => Walk(step, next, data, i + 1)
  }

  /** One entry's branch, as a step of the walk. */
  function EntryStep(f: nat, root: Entries, oracle: Oracle): (Run, Key, Value) -> Option<Run> {
    (run: Run, key: Key, val: Value) => ParseEntry(f, run, key, val, root, oracle)
  }

  /** The engine's entry loop is the walk with the engine's branch as its step. */
  lemma {:induction false} EntriesIsWalk(f: nat, run: Run, data: Entries, i: nat, root: Entries, oracle: Oracle)
    requires i <= |data|
    ensures ParseEntries(f, run, data, i, root, oracle) == Walk(EntryStep(f, root, oracle), run, data, i)
    decreases |data| - i
  {
    if i < |data| {
      var e := ParseEntry(f, run, data[i].0, data[i].1, root, oracle);
      assert EntryStep(f, root, oracle)(run, data[i].0, data[i].1) == e;
      if e.Some? {
        EntriesIsWalk(f, e.value, data, i + 1, root, oracle);
      }
    }
  }

  /** Walking `d`, which is `d1 + d2`, from past `d1` is walking `d2`. */
  lemma {:induction false} WalkShift(step: (Run, Key, Value) -> Option<Run>, run: Run, d1: Entries, d2: Entries, d: Entries, i: nat)
    requires d == d1 + d2 && i <= |d2|
    ensures Walk(step, run, d, |d1| + i) == Walk(step, run, d2, i)
    decreases |d2| - i
  {
    if i < |d2| {
      assert d[|d1| + i] == d2[i];
      match step(run, d2[i].0, d2[i].1)
      case None =>
      case Some(next) => WalkShift(step, next, d1, d2, d, i + 1);
    }
  }

  /** Walking `d`, which is `d1 + d2`, from `i` within `d1`, is walking the rest of `d1`, then `d2`. */
  lemma {:induction false} WalkPrefix(step: (Run, Key, Value) -> Option<Run>, run: Run, d1: Entries, d2: Entries, d: Entries, i: nat)
    requires d == d1 + d2 && i <= |d1|
    ensures Walk(step, run, d, i)
      == match Walk(step, run, d1, i)
         case None => None
         case Some(mid) => Walk(step, mid, d2, 0)
    decreases |d1| - i
  {
    if i == |d1| {
      WalkShift(step, run, d1, d2, d, 0);
    } else {
      assert d[i] == d1[i];
      match step(run, d1[i].0, d1[i].1)
      case None =>
      case Some(next) => WalkPrefix(step, next, d1, d2, d, i + 1);
    }
  }

  /** Walking `d1 + d2` is walking `d1`, then `d2` on what `d1` left. */
  lemma EntriesAppend(f: nat, run: Run, d1: Entries, d2: Entries, root: Entries, oracle: Oracle)
    ensures ParseEntries(f, run, d1 + d2, 0, root, oracle)
      == match ParseEntries(f, run, d1, 0, root, oracle)
         case None => None
         case Some(mid) => ParseEntries(f, mid, d2, 0, root, oracle)
  {
    var step := EntryStep(f, root, oracle);
    EntriesIsWalk(f, run, d1 + d2, 0, root, oracle);
    EntriesIsWalk(f, run, d1, 0, root, oracle);
    WalkPrefix(step, run, d1, d2, d1 + d2, 0);
    match ParseEntries(f, run, d1, 0, root, oracle)
    case None =>
    case Some(mid) => EntriesIsWalk(f, mid, d2, 0, root, oracle);
  }

  /** Rendering against `d1 + d2` is rendering against `d1`, then against `d2`, with the same fuel. */
  lemma ParseAppend(fuel: nat, run: Run, d1: Entries, d2: Entries, root: Entries, oracle: Oracle)
    ensures Parse(fuel, run, d1 + d2, root, oracle)
      == match Parse(fuel, run, d1, root, oracle)
         case None => None
         case Some(mid) => Parse(fuel, mid, d2, root, oracle)
  {
    if fuel > 0 {
      EntriesAppend(fuel - 1, run, d1, d2, root, oracle);
    }
  }
}
