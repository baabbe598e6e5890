/**
 * `parse`: for each entry of the binding map, in order, the whole template is
 * rewritten once according to the kind of the value. Section bodies are
 * rendered by recursive calls; conditional bodies are rendered against the
 * ROOT map (the one the outermost render received), loop bodies against the
 * current item.
 *
 * The source's recursion need not end (a scalar in the root map can re-create
 * the conditional section that renders it), so every function here carries a
 * fuel bound and answers None when the bound is exhausted.
 */
module Engine {
  import opened Wrappers
  import opened Text
  import opened Escaping
  import opened Patterns
  import opened Values

  /** A closure's result, given every closure invocation so far with this one last. */
  type Oracle = seq<ClosureId> -> string

  /** The template being rewritten, and the closure invocations made so far. */
  datatype Run = Run(text: string, calls: seq<ClosureId>)

  /** `{{{key}}}`: the raw form of a variable. */
  function RawTag(k: string): string {
    "{{{" + k + "}}}"
  }

  /** `{{key}}`: the escaped form of a variable. */
  function EscapedTag(k: string): string {
    "{{" + k + "}}"
  }

  /** A raw tag contains the escaped tag, so a text without escaped tags has no raw tags either. */
  lemma RawNeedsEscaped(t: string, k: string)
    requires Absent(t, EscapedTag(k))
    ensures Absent(t, RawTag(k))
  {
    var raw, esc := RawTag(k), EscapedTag(k);
    assert raw == "{" + esc + "}";
    forall i: nat | OccursAt(t, raw, i) ensures false {
      var w := t[i..i + |raw|];
      forall j | 0 <= j < |esc| ensures t[i + 1 + j] == esc[j] {
        assert t[i + 1 + j] == w[1 + j] == raw[1 + j];
      }
      assert t[i + 1..i + 1 + |esc|] == esc;
      assert OccursAt(t, esc, i + 1);
    }
  }

  /**
   * The scalar branch: every raw tag gets `v`, then every escaped tag gets `v`
   * escaped. A template holding no escaped tag of `k` (hence no raw one) is left
   * as it is, and so is one whose raw tags are gone and whose escaped tags are
   * absent from the value.
   */
  function Substitute(t: string, k: string, v: string): (r: string)
    ensures Absent(t, EscapedTag(k)) ==> r == t
    ensures Absent(t, RawTag(k)) ==> r == ReplaceAll(t, EscapedTag(k), HtmlSpecialChars(v))
  {
    assert Absent(t, EscapedTag(k)) ==> Absent(t, RawTag(k)) by {
      if Absent(t, EscapedTag(k)) { RawNeedsEscaped(t, k); }
    }
    ReplaceAll(ReplaceAll(t, RawTag(k), v), EscapedTag(k), HtmlSpecialChars(v))
  }

  /** `parse(template, data)`; None when more than `fuel` nested calls would be needed. */
  function Parse(fuel: nat, run: Run, data: Entries, root: Entries, oracle: Oracle): (r: Option<Run>)
    ensures r.Some? ==> run.calls <= r.value.calls
    decreases fuel, 0, 0
  {
    if fuel == 0 then None else ParseEntries(fuel - 1, run, data, 0, root, oracle)
  }

  /** The `foreach ($data as $key => $val)` loop, from entry `i` on. */
  function ParseEntries(f: nat, run: Run, data: Entries, i: nat, root: Entries, oracle: Oracle): (r: Option<Run>)
    requires i <= |data|
    ensures r.Some? ==> run.calls <= r.value.calls
    decreases f, 5, |data| - i
  {
    if i == |data| then Some(run)
    else
      var next :- ParseEntry(f, run, data[i].0, data[i].1, root, oracle);
      ParseEntries(f, next, data, i + 1, root, oracle)
  }

  /** One entry: the branch is chosen by the kind of the value. */
  function ParseEntry(f: nat, run: Run, key: Key, val: Value, root: Entries, oracle: Oracle): (r: Option<Run>)
    ensures r.Some? ==> run.calls <= r.value.calls
    decreases f, 4, 0
  {
    var k := KeyText(key);
    match val
    case Array(es) =>
      if |es| > 0 then
        ExpandLoops(f, run, Captures(Section('#', k, true), run.text, 0), 0, es, root, oracle)
      else
        Some(run.(text := DeleteAll(Section('#', k, true), run.text, 0)))
    case Bool(b) =>
      var kept := DeleteAll(Section(if b then '^' else '#', k, true), run.text, 0);
      var caps := Captures(Section(if b then '#' else '^', k, false), kept, 0);
      ExpandConditionals(f, run.(text := kept), caps, 0, root, oracle)
    case Closure(id) =>
      var first := run.calls + [id];
      var second := first + [id];
      var t := ReplaceAll(run.text, RawTag(k), oracle(first));
      Some(Run(ReplaceAll(t, EscapedTag(k), HtmlSpecialChars(oracle(second))), second))
    case Scalar(s) => Some(run.(text := Substitute(run.text, k, s)))
    case Null => Some(run.(text := Substitute(run.text, k, "")))
    case Object => Some(run)
  }

  /** Each loop match, in order, replaced (first occurrence only) by its content and one newline. */
  function ExpandLoops(f: nat, run: Run, caps: seq<Capture>, j: nat, es: Entries, root: Entries, oracle: Oracle): (r: Option<Run>)
    requires j <= |caps|
    ensures r.Some? ==> run.calls <= r.value.calls
    decreases f, 3, |caps| - j
  {
    if j == |caps| then Some(run)
    else
      var content :- LoopContent(f, run.calls, caps[j].body, es, root, oracle);
      var t := ReplaceFirst(run.text, caps[j].full, content.text + "\n");
      ExpandLoops(f, Run(t, content.calls), caps, j + 1, es, root, oracle)
  }

  /**
   * The content one loop match expands to: with index 0 set, every item's
   * rendering of the trimmed body plus a newline, concatenated; otherwise the
   * untrimmed body rendered once against the array itself.
   */
  function LoopContent(f: nat, calls: seq<ClosureId>, body: string, es: Entries, root: Entries, oracle: Oracle): (r: Option<Run>)
    ensures r.Some? ==> calls <= r.value.calls
    decreases f, 2, 0
  {
    if HasIndexZero(es) then Iterate(f, Run("", calls), TrimLoopBody(body) + "\n", es, 0, root, oracle)
    else Parse(f, Run(body, calls), es, root, oracle)
  }

  /** The item loop: `acc.text` holds the renderings of the items before `j`. */
  function Iterate(f: nat, acc: Run, tpl: string, es: Entries, j: nat, root: Entries, oracle: Oracle): (r: Option<Run>)
    requires j <= |es|
    ensures r.Some? ==> acc.calls <= r.value.calls
    decreases f, 1, |es| - j
  {
    if j == |es| then Some(acc)
    else
      var item :- Parse(f, Run(tpl, acc.calls), LoopContext(es[j].1), root, oracle);
      Iterate(f, Run(acc.text + item.text, item.calls), tpl, es, j + 1, root, oracle)
  }

  /** Each conditional match, in order, replaced (first occurrence only) by its body rendered against the root map. */
  function ExpandConditionals(f: nat, run: Run, caps: seq<Capture>, j: nat, root: Entries, oracle: Oracle): (r: Option<Run>)
    requires j <= |caps|
    ensures r.Some? ==> run.calls <= r.value.calls
    decreases f, 3, |caps| - j
  {
    if j == |caps| then Some(run)
    else
      var body :- Parse(f, Run(caps[j].body, run.calls), root, root, oracle);
      var t := ReplaceFirst(run.text, caps[j].full, body.text);
      ExpandConditionals(f, Run(t, body.calls), caps, j + 1, root, oracle)
  }
}
