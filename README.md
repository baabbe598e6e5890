# A verified model of the Simplon Mustache engine

Simplon Mustache is a small PHP template engine: one class, `Simplon\Mustache\Mustache`.
`render($template, $data, $customParsers)` does three things:
- it stores the binding map as the root map;
- it rewrites the template once per entry of the map, in insertion order;
- it then hands the text to an ordered list of caller-supplied passes.

How an entry rewrites the template depends on the kind of its value:
- a scalar (or null) fills `{{{key}}}` raw and then `{{key}}` escaped with `htmlspecialchars`;
- a closure does the same with its results;
- an empty array deletes `{{#key}}…{{/key}}` sections;
- a boolean deletes the opposite conditional sections and renders the matching ones against the root map;
- a non-empty array expands `{{#key}}…{{/key}}` as a loop or a nested section;
- an object is skipped.

`renderByFile` adds a template cache, keyed by path, in front of a file store. `cleanTemplate` offers two fixed deletion passes that strip left-over tags.

The model is in Dafny, one module per concern:

| file | module | what it holds |
|---|---|---|
| `wrappers.dfy` | `Wrappers` | `Option` |
| `text.dfy` | `Text` | literal search (`Find`), `str_replace` (`ReplaceAll`), limit-1 `preg_replace` of a quoted literal (`ReplaceFirst`) |
| `escaping.dfy` | `Escaping` | `htmlspecialchars` with the PHP 8.1 defaults (`&`, `<`, `>`, `"`, `'`) and its inverse |
| `patterns.dfy` | `Patterns` | hand-written leftmost-match scanners for the engine's fixed regular expressions, `preg_replace(…, '')`, `preg_match_all`, and the trim at line 137 |
| `values.dfy` | `Values` | keys, values, binding maps, `isset($a[0])`, the loop-item wrapping |
| `engine.dfy` | `Engine` | `parse`, as fuel-bounded mutually recursive functions |
| `engine_facts.dfy` | `EngineFacts` | what each branch of `parse` does, one match at a time amid other text, how the entry walk and the item loop compose, and fuel monotonicity |
| `scenarios.dfy` | `Scenarios` | whole renders of small templates, and a render that never ends |
| `cleanup.dfy` | `Cleanup` | `cleanTemplate` |
| `customparsers.dfy` | `CustomParsers` | `handleCustomParsers`, as a fold and as the source's loop |
| `mustache.dfy` | `Mustache` | the class with the two static fields, `render` and `renderByFile` |

Some parts are abstracted away:
- The file system is a `Store`: a map from file name to `Some(text)`, or to `None` when the file exists but cannot be read.
- A closure's result comes from an `Oracle`. It is given the whole history of closure invocations, the current one last, so a closure may return something different on every call.
- A user pattern is a `Matcher` ("does the pattern capture anything in this text?").
- A user callback is a `Callbacks` function.
- `parse`'s recursion need not end, so `Engine.Parse` carries a fuel bound and returns `None` when the bound runs out. `render` reports that as `Failed(OutOfFuel)`.

Where the code does something other than what one would expect on reading its comments:
- **The boolean branch adds no newline.** `{{#k}}A{{/k}}{{^k}}B{{/k}}` with `k => true` renders to `A`, not `A\n` (`Scenarios.BoolTrueExample`). Only the loop branch appends `"\n"` (src/Mustache.php:150); the boolean branch replaces the match by the parsed body alone (src/Mustache.php:184-189).
- **Rendering need not terminate.** This template and root map render to `None` at every fuel (`Scenarios.SelfFeedingDiverges`):
  - template `{{b}}`;
  - root map `b => "{{#a}}{{b}}{{/a}}", a => true`.
- **A conditional inside a loop reads the root map, not the loop item.** The boolean branch always renders its body against the root map (src/Mustache.php:186). So `{{#k}}{{#f}}{{x}}{{/f}}{{/k}}` with root map `k => [f => true, x => "in"], x => "out"` renders to `out` and a newline, not `in` (`Scenarios.ScopeExample`).
- **The escaped pass rescans the raw value.** The raw pass runs first, and the escaped pass then runs over its result. A raw value that itself holds `{{key}}` is therefore altered (`EngineFacts.RawValueRescanned`).

## Model

| member | source | states |
|---|---|---|
| Text.Find | src/Mustache.php:148-153 | the result is the leftmost occurrence at or after the start position; None exactly when there is none |
| Text.ReplaceAll | src/Mustache.php:199-200 | `str_replace` with a non-empty needle joins the left-to-right pieces between occurrences with the replacement; a text without the needle is returned as it is |
| Text.ReplaceFirst | src/Mustache.php:148-153 | with limit 1, the leftmost occurrence of the quoted match in the current text is replaced, and nothing else changes; a text without it is unchanged |
| Text.ReplaceIsJoin | src/Mustache.php:199-200 | `str_replace` equals cutting the text at its non-overlapping left-to-right occurrences and joining the pieces with the replacement |
| Text.PiecesRestore | src/Mustache.php:208-211 | joining the pieces with the needle gives the text back, so the replacement loses no text |
| Text.PiecesAvoid | src/Mustache.php:208-211 | no piece contains the needle: `str_replace` replaces every occurrence |
| Text.ReplacePresent | src/Mustache.php:208-211 | a text holding the needle is changed by `str_replace` unless the replacement is the needle itself |
| Text.ReplaceFirstWhole | src/Mustache.php:184-189 | a match spanning the whole template is replaced by the replacement alone |
| Escaping.HtmlSpecialChars | src/Mustache.php:211 | the escaped text holds no `<`, `>`, `"` or `'` and is at least as long as the input |
| Escaping.UnescapeEntity | src/Mustache.php:211 | each entity produced by the escape reads back as the character it stands for |
| Escaping.EscapeChar | src/Mustache.php:211 | a single character escapes to its own entity, or to itself when it is not special |
| Escaping.EscapeAround | src/Mustache.php:211 | a part that escaping leaves alone stays in place while the text around it is escaped |
| Escaping.UnescapeAfterEscape | src/Mustache.php:211 | escaping loses nothing: reading the entities back gives the original text |
| Escaping.EscapeIsIdentityIff | src/Mustache.php:211 | escaping leaves a text unchanged if and only if the text holds none of `&<>"'` |
| Escaping.EscapeConcat | src/Mustache.php:200 | escaping works character by character: it distributes over concatenation |
| Patterns.NewlineRun | src/Mustache.php:110 | the greedy `\n*` takes every newline at the position and stops at the first non-newline |
| Patterns.SectionNext | src/Mustache.php:110 | a section match starts at the leftmost opening tag; its body runs up to the first closing tag after it; the newlines after are eaten only in the `\n*` form; None only when no opening tag has a closing tag after it |
| Patterns.SectionNextSpan | src/Mustache.php:110 | given the leftmost opening tag and the first closing tag after it, the match starts at the tag and its body is exactly what lies between the tags |
| Patterns.SectionNextEnd | src/Mustache.php:110 | the same match ends after the closing tag and, in the `\n*` form, after every newline that follows it |
| Patterns.WrapperNext | src/Mustache.php:89 | the wrapper pass matches from the leftmost `{{`; it ends after the first `}}` after it, the first `{{/` after that, the first `}}` after that, and every newline that follows; None only when no `{{ … }} … {{/ … }}` sequence exists |
| Patterns.VariableNext | src/Mustache.php:92 | the variable pass matches from the leftmost `{{`; it ends after the first `}}` after it and every newline that follows; None only when no `{{` has a `}}` after it |
| Patterns.Next | src/Mustache.php:89-92 | every match lies inside the text, at or after the scan position, and is not empty |
| Patterns.DeleteAll | src/Mustache.php:161 | deleting the matches never lengthens the text |
| Patterns.DeleteAllUnchangedIff | src/Mustache.php:158-162 | a deletion pass leaves the text unchanged exactly when the pattern has no match |
| Patterns.SectionDeletedOnce | src/Mustache.php:161 | a template with a single section, at the leftmost opening tag, loses exactly that section and the newlines after it; the text before and after is kept |
| Patterns.Captures | src/Mustache.php:110-113 | `preg_match_all`, here and at line 176: the successive leftmost matches, each scan resuming at the end of the last; no contract of its own, its meaning is stated by `Patterns.CapturesEmptyIff`, `Patterns.SectionOnce` and `Patterns.SectionWhole` |
| Patterns.CapturesEmptyIff | src/Mustache.php:110-113 | `preg_match_all` yields no match exactly when the scanner finds none from the start |
| Patterns.SectionOnce | src/Mustache.php:110 | a template that opens with a section and has no second opening tag after it yields one match: the section with its newlines, and the text between the tags as body |
| Patterns.SectionWhole | src/Mustache.php:176 | a template that is exactly one section yields one match: the whole template, with the text between the tags as body |
| Patterns.IsSpace | src/Mustache.php:137 | PCRE2's `\s` under `/u`: the controls 9 to 13, space, U+0085, U+00A0, U+1680, U+180E, U+2000 to U+200A, U+2028, U+2029, U+202F, U+205F and U+3000; a character class with no contract of its own, used by `Patterns.LeadingSpace` and `Patterns.TrimLoopBody` |
| Patterns.LeadingSpace | src/Mustache.php:137 | `^\s*`, with `\s` in Unicode mode (including U+0085 and U+180E), takes every leading white-space character and stops at the first other one |
| Patterns.TrimEnd | src/Mustache.php:137 | the end cut removes nothing from a body without a final newline, the final newline alone when the character before it is not one, and two newlines when there are two |
| Patterns.TrimKeepsNonSpace | src/Mustache.php:137 | the trimmed slice is empty exactly when the body is all white space, and otherwise starts with a non-space |
| Patterns.TrimEndCases | src/Mustache.php:137 | with the leading white space cut, the trimmed body plus nothing, one or two newlines gives the rest back, by how many newlines end the body |
| Patterns.TrimLoopBody | src/Mustache.php:137 | all leading white space goes; a body without a final newline keeps its end; otherwise the final `\n` goes, and one `\n` directly before it too; empty exactly when the body is all white space; otherwise it starts with a non-space |
| Values.DigitsOf | src/Mustache.php:110 | a natural number's decimal text: digits only, no leading zero, reading back as the number |
| Values.KeyText | src/Mustache.php:110 | a string key is spliced as it is; an integer key as its decimal text, with a minus sign when negative |
| Values.HasIndexZero | src/Mustache.php:120 | `isset($val[0])` can only hold for a non-empty array, and never for one whose keys are all strings |
| Values.LoopContext | src/Mustache.php:122-134 | the context a loop item renders against never has index 0 set; an array without index 0 is used as it is, anything else is wrapped as `['_' => item]` |
| Values.LoopContextIdempotent | src/Mustache.php:125-134 | wrapping a context again changes nothing: after line 131 no item is wrapped twice |
| Cleanup.CleanTemplate | src/Mustache.php:86-95 | after both passes no `{{` has a `}}` anywhere after it; the text never grows, and it is unchanged exactly when it has no such span |
| Cleanup.VariablePassLeavesNoTagSpan | src/Mustache.php:92 | the second pass alone leaves no `{{` with a later `}}`, whatever its input |
| Cleanup.UnmatchedRestClean | src/Mustache.php:92 | where the second pass finds no more match, the rest of the text has no `{{` with a later `}}` |
| Cleanup.GapBeforeMatch | src/Mustache.php:92 | the text the second pass skips before a match holds no `{{` and does not end in `{` |
| Cleanup.GapThenClean | src/Mustache.php:92 | such a gap followed by a span-free text is span-free |
| Cleanup.NoTagSpanIsFixed | src/Mustache.php:89-92 | a text without such a span is left unchanged by both passes |
| Cleanup.CleanTemplateIdempotent | src/Mustache.php:86-95 | cleaning a cleaned template changes nothing |
| Engine.RawNeedsEscaped | src/Mustache.php:199-200 | every `{{{key}}}` contains `{{key}}`, so a text without the escaped tag has no raw tag either |
| Engine.Substitute | src/Mustache.php:208-211 | a template without `{{key}}` is unchanged; one without `{{{key}}}` gets the escaped value in place of every `{{key}}` |
| Engine.Parse | src/Mustache.php:103-216 | a render only appends to the closure-invocation history |
| Engine.ParseEntries | src/Mustache.php:105-213 | walking the entries in order only appends to the invocation history |
| Engine.ParseEntry | src/Mustache.php:107-212 | one entry's rewrite only appends to the invocation history |
| Engine.ExpandLoops | src/Mustache.php:115-154 | expanding the loop matches only appends to the invocation history |
| Engine.LoopContent | src/Mustache.php:117-145 | computing one loop's content only appends to the invocation history |
| Engine.Iterate | src/Mustache.php:122-138 | the item loop only appends to the invocation history |
| Engine.ExpandConditionals | src/Mustache.php:181-190 | expanding the conditional matches only appends to the invocation history |
| EngineFacts.ParseMono | src/Mustache.php:103-216 | a render that finishes within some fuel gives the same result with one more unit of fuel |
| EngineFacts.EntriesMono | src/Mustache.php:105-213 | the same for the walk over the entries |
| EngineFacts.EntryMono | src/Mustache.php:107-212 | the same for one entry |
| EngineFacts.LoopsMono | src/Mustache.php:115-154 | the same for the loop expansion |
| EngineFacts.ContentMono | src/Mustache.php:117-145 | the same for one loop's content |
| EngineFacts.IterateMono | src/Mustache.php:122-138 | the same for the item loop |
| EngineFacts.ConditionalsMono | src/Mustache.php:181-190 | the same for the conditional expansion |
| EngineFacts.ParseFuelIndependent | src/Mustache.php:103-216 | any two fuel bounds that both suffice give the same rendering, so the bound is not part of the meaning |
| EngineFacts.EntriesIsWalk | src/Mustache.php:105-213 | the entry walk is a plain left-to-right fold of the one-entry rewrite over the map |
| EngineFacts.WalkShift | src/Mustache.php:105 | walking the tail of `d1 + d2` is walking `d2` |
| EngineFacts.WalkPrefix | src/Mustache.php:105 | walking `d1 + d2` is walking `d1`, then `d2` on what it left, failing when either fails |
| EngineFacts.EntriesAppend | src/Mustache.php:105-213 | the entries compose: rewriting with `d1 + d2` is rewriting with `d1`, then with `d2` on the result |
| EngineFacts.ParseAppend | src/Mustache.php:103-216 | the same at the level of a render, with the same fuel |
| EngineFacts.ReplaceWhole | src/Mustache.php:208 | `str_replace` on a text that is exactly the needle yields the replacement |
| EngineFacts.SubstituteWholeTag | src/Mustache.php:208-211 | a template that is exactly `{{key}}` becomes the escaped value |
| EngineFacts.SubstituteShort | src/Mustache.php:208-211 | a template shorter than `{{key}}` is left as it is |
| EngineFacts.ScalarEscapedTag | src/Mustache.php:205-212 | `{{key}}` bound to a scalar renders to the escaped value |
| EngineFacts.ScalarRawTag | src/Mustache.php:205-212 | `{{{key}}}` bound to a scalar renders to the value verbatim when the value does not itself hold `{{key}}` |
| EngineFacts.RawThenEscaped | src/Mustache.php:208-211 | for `{{{key}}}` the raw value goes in first, and the escaped pass then replaces every `{{key}}` inside that value |
| EngineFacts.EscapeTagInBrackets | src/Mustache.php:211 | escaping `<{{k}}>` changes only the brackets |
| EngineFacts.ReplaceTagInBrackets | src/Mustache.php:211 | `<{{k}}>` holds `{{k}}` once, and `str_replace` replaces that occurrence |
| EngineFacts.RawValueRescanned | src/Mustache.php:208-211 | the raw value `<{{k}}>` put in for `{{{k}}}` is rescanned by the escaped pass and becomes `<&lt;{{k}}&gt;>`, which differs from the value |
| EngineFacts.ObjectSkipped | src/Mustache.php:205 | an object value leaves the template and the invocation history as they are |
| EngineFacts.ObjectsOnlyLeaveTemplate | src/Mustache.php:105-213 | a map holding only objects renders every template to itself |
| EngineFacts.ClosureCalledTwice | src/Mustache.php:196-201 | a closure is invoked exactly twice per visit, even with no tag present; the first result replaces the raw tags, the second, escaped, replaces the escaped tags; with no tag the text is unchanged |
| EngineFacts.EmptyArrayDeletesSections | src/Mustache.php:158-162 | an empty array deletes every `{{#key}}…{{/key}}` section with the newlines after it, and changes the template exactly when such a section exists |
| EngineFacts.NoSectionNoChange | src/Mustache.php:107-192 | with no section of the key in the template, an array or boolean value leaves it unchanged |
| EngineFacts.SingleEntry | src/Mustache.php:105-216 | a one-entry map renders as that entry's branch |
| EngineFacts.ReplaceFirstAt | src/Mustache.php:148-153 | when the first occurrence of a match is right after `pre`, only that occurrence is replaced; `pre` and `post` stay |
| EngineFacts.LoopMatchStep | src/Mustache.php:147-153 | one loop match, in the template as the earlier matches left it: its first occurrence becomes the loop content plus one newline, and the expansion goes on with the next match |
| EngineFacts.ConditionalMatchStep | src/Mustache.php:183-189 | one conditional match, in the template as the earlier matches left it: its first occurrence becomes its body rendered against the root map, and the expansion goes on with the next match |
| EngineFacts.LoopAmid | src/Mustache.php:107-153 | a non-empty array with one loop match amid other text gives the text before it, the loop content, a newline, and the text after it |
| EngineFacts.ConditionalAmid | src/Mustache.php:166-191 | a boolean whose deletion leaves one matching section amid other text gives the text before it, the body rendered against the root map, and the text after it |
| EngineFacts.OneConditional | src/Mustache.php:166-191 | when what the deletion left is exactly one matching section, the boolean's result is that section's body rendered against the root map |
| EngineFacts.OneLoop | src/Mustache.php:107-153 | a loop match spanning the template is replaced by the loop content plus exactly one newline |
| EngineFacts.IterateAppends | src/Mustache.php:117-138 | the loop content only grows: each item's rendering follows those of the items before it |
| EngineFacts.IterateConcat | src/Mustache.php:122-138 | the item loop is the in-order concatenation of the item renderings, each against the item's context, ending with the history the last item left |
| EngineFacts.LoopItems | src/Mustache.php:117-138 | with index 0 set, the loop content is the concatenation of the renderings of the trimmed body plus a newline, one per item in order |
| Scenarios.EscapeBold | src/Mustache.php:211 | `<b>` escapes to `&lt;b&gt;` |
| Scenarios.HelloTags | src/Mustache.php:208-211 | `Hello {{name}}!` has no raw tag, and one escaped tag at 6 |
| Scenarios.HelloSubstitution | src/Mustache.php:205-212 | the scalar branch turns `Hello {{name}}!` with `<b>` into `Hello &lt;b&gt;!` |
| Scenarios.HelloEscaped | src/Mustache.php:32-35 | the render of `Hello {{name}}!` with `name => "<b>"`, that map also being the root map, is `Hello &lt;b&gt;!` |
| Scenarios.SelfFeedingScalarStep | src/Mustache.php:205-212 | the scalar `b` turns `{{b}}` into the section `{{#a}}{{b}}{{/a}}` |
| Scenarios.SelfFeedingSection | src/Mustache.php:173 | no `{{^a}}` section exists to delete in it |
| Scenarios.SelfFeedingCapture | src/Mustache.php:176 | the `{{#a}}` section is the whole text, with body `{{b}}` |
| Scenarios.ConditionalStep | src/Mustache.php:184-189 | `a => true` re-renders `{{b}}` against the root map, so it succeeds only if that render does |
| Scenarios.SelfFeedingEntries | src/Mustache.php:105-213 | the walk over the self-feeding root map fails when the boolean entry fails |
| Scenarios.RoundStep | src/Mustache.php:103-216 | re-rendering `{{b}}` against the self-feeding root map needs one more level of fuel than the render it starts |
| Scenarios.SelfFeedingDiverges | src/Mustache.php:186 | `{{b}}` with `b => "{{#a}}{{b}}{{/a}}", a => true` never finishes, at any fuel |
| Scenarios.BoolTrueDeletes | src/Mustache.php:173 | `true` deletes the `{{^k}}` section and keeps the `{{#k}}` one |
| Scenarios.BoolFalseDeletes | src/Mustache.php:173 | `false` deletes the `{{#k}}` section and keeps the `{{^k}}` one |
| Scenarios.LoneSection | src/Mustache.php:176 | a lone one-letter section is captured whole, with its letter as body |
| Scenarios.BoolOnLetter | src/Mustache.php:166-192 | a boolean leaves a one-letter text without tags unchanged |
| Scenarios.BoolRender | src/Mustache.php:166-192 | the render of a one-entry boolean map is the kept section's letter |
| Scenarios.BoolTrueExample | src/Mustache.php:166-192 | `{{#k}}A{{/k}}{{^k}}B{{/k}}` with `k => true` renders to `A`, with no newline added |
| Scenarios.BoolFalseExample | src/Mustache.php:166-192 | the same template with `k => false` renders to `B` |
| Scenarios.EmptyListExample | src/Mustache.php:158-162 | `{{#k}}X{{/k}}` with an empty array renders to the empty text |
| Scenarios.ItemLine | src/Mustache.php:127-137 | the item body `{{_}}\n` renders a wrapped scalar item as its escaped text and a newline |
| Scenarios.TrimKeepsItemTag | src/Mustache.php:137 | the trim leaves `{{_}}` as it is |
| Scenarios.ListTags | src/Mustache.php:110 | in `{{#k}}{{_}}{{/k}}` the opening tag is at 0, the closing tag at 11, and no newline follows |
| Scenarios.ListCapture | src/Mustache.php:110 | that template is one loop match with body `{{_}}` |
| Scenarios.ListItem | src/Mustache.php:122-138 | each innocuous one-character scalar item appends itself and a newline |
| Scenarios.ListItems | src/Mustache.php:122-138 | items `1`, `2`, `3` give the loop content `1\n2\n3\n` |
| Scenarios.ListExample | src/Mustache.php:107-153 | `{{#k}}{{_}}{{/k}}` with the list `[1, 2, 3]` renders to `1\n2\n3\n\n`: one line per item and one more newline after the loop |
| Scenarios.ScopeRootX | src/Mustache.php:205-212 | `{{x}}` rendered against the root map `k => [f => true, x => "in"], x => "out"` is `out` |
| Scenarios.ScopeNoInverted | src/Mustache.php:173 | the loop body `{{#f}}{{x}}{{/f}}` has no `{{^f}}` section to delete |
| Scenarios.ScopeBranchTags | src/Mustache.php:176 | in that body the opening tag is at 0, the closing tag at 11, and no second opening tag follows |
| Scenarios.ScopeBranchCapture | src/Mustache.php:176 | that body is one conditional match with body `{{x}}` |
| Scenarios.ScopeBranch | src/Mustache.php:166-191 | inside the loop item, `f => true` renders that body as `out`: the root's `x`, not the item's |
| Scenarios.ScopeContent | src/Mustache.php:141-145 | the item map has no index 0, so the loop content is one render of the body against the item map, which gives `out` |
| Scenarios.ScopeLoopTags | src/Mustache.php:110 | in `{{#k}}{{#f}}{{x}}{{/f}}{{/k}}` the opening tag is at 0, the closing tag at 23, with nothing after it |
| Scenarios.ScopeCapture | src/Mustache.php:110 | that template is one loop match with body `{{#f}}{{x}}{{/f}}` |
| Scenarios.ScopeLoop | src/Mustache.php:107-153 | the array entry `k` turns that template into `out` and a newline |
| Scenarios.ScopeFirstEntry | src/Mustache.php:105-213 | the first root entry alone gives `out` and a newline |
| Scenarios.ScopeSecondEntry | src/Mustache.php:205-212 | the second root entry, `x => "out"`, leaves `out` and a newline as they are |
| Scenarios.ScopeExample | src/Mustache.php:103-216 | the whole render of `{{#k}}{{#f}}{{x}}{{/f}}{{/k}}` against that root map is `out` and a newline; the item's `x => "in"` is never used |
| CustomParsers.Fires | src/Mustache.php:228-232 | a pass can fire only when it has both a pattern and a callback |
| CustomParsers.StepLog | src/Mustache.php:228-235 | one pass makes at most one invocation, and makes one exactly when it fires |
| CustomParsers.Step | src/Mustache.php:228-235 | a pass that makes no invocation leaves the text alone; a changed text is the result of the one invocation, which was given the text itself |
| CustomParsers.Log | src/Mustache.php:226-237 | the passes make at most one invocation each |
| CustomParsers.Apply | src/Mustache.php:226-239 | the text after every pass in list order, each on the text the previous passes left; no contract of its own, its meaning is stated by `CustomParsers.ApplyResult`, `CustomParsers.ApplyAppend` and `CustomParsers.PassStep` |
| CustomParsers.ApplyResult | src/Mustache.php:226-239 | the passes return the text itself when no callback ran, and otherwise what the last invocation returned |
| CustomParsers.ApplyOne | src/Mustache.php:228-235 | a list of one pass is that pass's step, with that step's invocations |
| CustomParsers.LogChains | src/Mustache.php:226-237 | the first invocation is given the text itself, and every later one the text the invocation before it returned |
| CustomParsers.ApplyAppend | src/Mustache.php:226-237 | the passes compose: running `ps + qs` runs `qs` on what `ps` left |
| CustomParsers.LogAppend | src/Mustache.php:226-237 | the invocations of `ps + qs` are those of `ps`, then those of `qs` on what `ps` left |
| CustomParsers.PassStep | src/Mustache.php:226-237 | the first `i + 1` passes are the first `i`, then pass `i` on the text they left |
| CustomParsers.SinglePass | src/Mustache.php:228-235 | a pass without a pattern, a callback or a capture leaves the text and calls nothing; otherwise its callback is called once on the whole text, and its result is the new text |
| CustomParsers.NoneFire | src/Mustache.php:226-239 | when no pass fires, the text comes back unchanged and no callback runs |
| CustomParsers.AtMostOncePerPass | src/Mustache.php:226-237 | there are at most as many callback invocations as passes, and each one is of a callback in the list |
| CustomParsers.CallbackSetAppend | src/Mustache.php:226 | the callbacks of a concatenated list are those of its parts |
| CustomParsers.HandleCustomParsers | src/Mustache.php:224-240 | the loop returns the text after every pass in list order, each on the previous pass's result, and the exact invocations made |
| Mustache.FileName | src/Mustache.php:55 | the file name is the path, a dot, then the extension |
| Mustache.LoadTemplate | src/Mustache.php:55-78 | a cache hit, with any extension, returns the cached text and reads nothing; a miss reads `path.ext`; a success caches the text under the path and keeps every old entry; a missing or unreadable file fails with the matching error and leaves the cache alone |
| Mustache.SecondLoadHits | src/Mustache.php:58-78 | once a path has loaded, every later load of it is a hit, whatever the extension and the store now hold |
| Mustache.Mustache.constructor | src/Mustache.php:15-20 | the root map is unset and the cache is empty |
| Mustache.Mustache.Render | src/Mustache.php:29-41 | the root map becomes `data` (empty by default); the result is the parse of the template against `data`, with `data` also as root, followed by the custom parsers (none by default); the cache is untouched |
| Mustache.Mustache.RenderByFile | src/Mustache.php:52-79 | the extension defaults to `mustache`; the cache is consulted by path; on a miss the file is read once and cached; a missing or unreadable file fails with everything else unchanged; otherwise the cached text is rendered as `render` does |

## Left out

- File system: `file_exists` and `file_get_contents` are a `Store` map. `Mustache.Mustache.fileReads` records the reads; it is an observer with no counterpart in the source.
- Exceptions: the two `MustacheException`s of `renderByFile` are `Failed(MissingTemplate(name))` and `Failed(UnreadableTemplate(name))`. The message text is not modelled.
- User patterns and callbacks in `handleCustomParsers` are uninterpreted (`Matcher`, `Callbacks`). So are the match array the callback receives, and what it does besides returning a text.
- Closures: a closure's side effects are not modelled, beyond its calls being recorded in the invocation history its result may depend on. A closure that calls `render` itself, and so overwrites the root map while `parse` runs, is not modelled.
- Type juggling: an int or float bound to a key is a `Scalar` holding its text already converted. Float formatting is not modelled, and `null` is the empty text.
- `htmlspecialchars` with another charset is not modelled, and neither is invalid UTF-8. The same goes for `preg_replace` returning null on invalid UTF-8 under the `u` flag at line 137. Every text is taken to be valid.
- PCRE failures: on hitting its backtracking, recursion or JIT-stack limit, `preg_replace` returns null and `preg_match_all` returns false (src/Mustache.php:89, 92, 110, 148, 161, 173, 176, 184). The casts at src/Mustache.php:94 and 215 would then turn a null template into the empty text. The model's scanners always succeed, so these failures are not modelled.
- Regular-expression metacharacters in keys are not modelled: keys are spliced raw into the patterns at lines 110, 161, 173 and 176. The model treats them as literal text.
- Back-references in replacement texts (`$1`, `\1`) at lines 148-153 and 184-189 are not modelled: a replacement is inserted literally.
- PHP array keys: the model takes them as PHP stores them, so a decimal-integer string key is already `IntKey`. Key normalisation itself is not modelled.
- Values.Entries: a binding map is a sequence of key-value pairs, which could hold a key twice where a PHP array cannot. Every map is taken to have distinct keys; no contract depends on this.
- Concurrency: the static fields are modelled for a single thread.
- The disjunct `is_array($val) && empty($val)` at line 166 is dead, because line 158 handles that case first. It is left out.
- Termination: `parse` need not end. `Engine.Parse` gives up with `None` once its fuel is exhausted, and `Mustache.Mustache.Render` then reports `Failed(OutOfFuel)` and leaves the invocation history as it was. The source would instead recurse until the stack or memory runs out.
- Mustache.Mustache.Render: it also leaves the invocation history unchanged when fuel runs out, where the source would have made some calls before running out.
- Engine.Parse: its own contract states only that the invocation history grows. The lemmas that state the rest are `EngineFacts.ParseAppend`, `EngineFacts.SingleEntry` and `EngineFacts.ParseFuelIndependent`, together with the whole renders in `Scenarios`.
- Engine.ParseEntries: its own contract states only that the invocation history grows. The in-order walk is stated by `EngineFacts.EntriesIsWalk` and `EngineFacts.EntriesAppend`.
- Engine.ParseEntry: its own contract states only that the invocation history grows. The branches are stated by `EngineFacts.ScalarEscapedTag`, `EngineFacts.ScalarRawTag`, `EngineFacts.ClosureCalledTwice`, `EngineFacts.ObjectSkipped`, `EngineFacts.EmptyArrayDeletesSections`, `EngineFacts.NoSectionNoChange`, `EngineFacts.LoopAmid` and `EngineFacts.ConditionalAmid`. These cover a template with at most one loop or conditional match of the key; several matches are covered match by match, by `EngineFacts.LoopMatchStep` and `EngineFacts.ConditionalMatchStep`.
- Engine.ExpandLoops: its own contract states only that the invocation history grows. One match at a time is stated by `EngineFacts.LoopMatchStep`.
- Engine.LoopContent: its own contract states only that the invocation history grows. The index-0 case is stated by `EngineFacts.LoopItems`; the other case, one render of the untrimmed body against the array, by `Scenarios.ScopeContent` for one template only.
- Engine.Iterate: its own contract states only that the invocation history grows. The in-order concatenation is stated by `EngineFacts.IterateConcat` and `EngineFacts.IterateAppends`.
- Engine.ExpandConditionals: its own contract states only that the invocation history grows. One match at a time, rendered against the root map, is stated by `EngineFacts.ConditionalMatchStep`.
- `cleanTemplate` is not called by `render`, and is modelled on its own.
