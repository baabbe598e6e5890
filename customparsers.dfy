/**
 * `handleCustomParsers`: the caller's passes over the rendered text, in list
 * order, each on the text the previous ones left. A pass needs both a pattern
 * and a callback; it fires when its pattern has at least one match of capture
 * group 1 in the current text, and then its callback's result is the new text.
 *
 * The user's regular expression and callback are uninterpreted: `Matcher`
 * answers whether the pattern captures anything in a text, `Callbacks` gives a
 * callback's result on a text (the match set it also receives is determined by
 * the pattern and the text).
 */
module CustomParsers {
  import opened Wrappers

  type CallbackId = nat

  /** One entry of `$customParsers`; a missing or null field is None. */
  datatype CustomParser = CustomParser(pattern: Option<string>, callback: Option<CallbackId>)

  /** Whether `preg_match_all` of the pattern on the text sets `$match[1][0]`. */
  type Matcher = (string, string) -> bool

  /** The callback's result for the pattern's matches on the text. */
  type Callbacks = (CallbackId, string, string) -> string

  /** One callback invocation: which callback, for which pattern, on which text. */
  datatype Invocation = Invocation(callback: CallbackId, pattern: string, text: string)

  /** A pass fires when it has both fields and its pattern captures something in the text. */
  predicate Fires(p: CustomParser, t: string, matches: Matcher)
    ensures Fires(p, t, matches) ==> p.pattern.Some? && p.callback.Some?
  {
    p.pattern.Some? && p.callback.Some? && matches(p.pattern.value, t)
  }

  /**
   * The text after one pass: a pass that makes no invocation leaves the text
   * alone, and a changed text is the result of the one invocation the pass made.
   */
  function Step(p: CustomParser, t: string, matches: Matcher, callbacks: Callbacks): (r: string)
    ensures StepLog(p, t, matches) == [] ==> r == t
    ensures r != t ==>
      var log := StepLog(p, t, matches);
      |log| == 1 && r == callbacks(log[0].callback, log[0].pattern, log[0].text) && log[0].text == t
  {
    if Fires(p, t, matches) then callbacks(p.callback.value, p.pattern.value, t) else t
  }

  /** The invocations one pass makes. */
  function StepLog(p: CustomParser, t: string, matches: Matcher): (r: seq<Invocation>)
    ensures |r| <= 1
    ensures |r| == 1 <==> Fires(p, t, matches)
  {
    if Fires(p, t, matches) then [Invocation(p.callback.value, p.pattern.value, t)] else []
  }

  /** The text after every pass of `ps`, in order, each on the text the previous ones left. */
  function Apply(t: string, ps: seq<CustomParser>, matches: Matcher, callbacks: Callbacks): string
    decreases |ps|
  {
    if ps == [] then t
    else Apply(Step(ps[0], t, matches, callbacks), ps[1..], matches, callbacks)
  }

  /** The invocations every pass of `ps` makes, in order: at most one per pass, the first on the text itself. */
  function Log(t: string, ps: seq<CustomParser>, matches: Matcher, callbacks: Callbacks): (r: seq<Invocation>)
    ensures |r| <= |ps|
    decreases |ps|
  {
    if ps == [] then []
    else StepLog(ps[0], t, matches) + Log(Step(ps[0], t, matches, callbacks), ps[1..], matches, callbacks)
  }

  /**
   * What the passes return: the text itself when no callback ran, otherwise
   * the result of the last callback invocation.
   */
  lemma {:induction false} ApplyResult(t: string, ps: seq<CustomParser>, matches: Matcher, callbacks: Callbacks)
    ensures Log(t, ps, matches, callbacks) == [] ==> Apply(t, ps, matches, callbacks) == t
    ensures
      var log := Log(t, ps, matches, callbacks);
      log != [] ==> Apply(t, ps, matches, callbacks) == callbacks(log[|log| - 1].callback, log[|log| - 1].pattern, log[|log| - 1].text)
    decreases |ps|
  {
    if ps != [] {
      var next := Step(ps[0], t, matches, callbacks);
      var head, tail := StepLog(ps[0], t, matches), Log(next, ps[1..], matches, callbacks);
      ApplyResult(next, ps[1..], matches, callbacks);
      assert Log(t, ps, matches, callbacks) == head + tail;
      if tail == [] {
        assert Apply(t, ps, matches, callbacks) == next;
      } else {
        assert (head + tail)[|head + tail| - 1] == tail[|tail| - 1];
      }
    }
  }

  /** One pass on its own is one step. */
  lemma ApplyOne(t: string, p: CustomParser, matches: Matcher, callbacks: Callbacks)
    ensures Apply(t, [p], matches, callbacks) == Step(p, t, matches, callbacks)
    ensures Log(t, [p], matches, callbacks) == StepLog(p, t, matches)
  {
    assert [p][1..] == [];
  }

  /**
   * The invocations chain: the first sees the text itself, each later one the
   * text the invocation before it returned.
   */
  lemma {:induction false} LogChains(t: string, ps: seq<CustomParser>, matches: Matcher, callbacks: Callbacks)
    ensures
      var log := Log(t, ps, matches, callbacks);
      && (log != [] ==> log[0].text == t)
      && forall k :: 0 < k < |log| ==> log[k].text == callbacks(log[k - 1].callback, log[k - 1].pattern, log[k - 1].text)
    decreases |ps|
  {
    if ps != [] {
      var next := Step(ps[0], t, matches, callbacks);
      var head, tail := StepLog(ps[0], t, matches), Log(next, ps[1..], matches, callbacks);
      LogChains(next, ps[1..], matches, callbacks);
      var log := head + tail;
      if head != [] {
        assert head[0].text == t;
        forall k | 0 < k < |log|
          ensures log[k].text == callbacks(log[k - 1].callback, log[k - 1].pattern, log[k - 1].text)
        {
          if k == 1 {
            assert next == callbacks(head[0].callback, head[0].pattern, head[0].text);
          }
        }
      } else {
        assert next == t;
        assert log == tail;
      }
    }
  }

  /** Passes compose: running `ps + qs` is running `qs` on what `ps` left. */
  lemma {:induction false} ApplyAppend(t: string, ps: seq<CustomParser>, qs: seq<CustomParser>, matches: Matcher, callbacks: Callbacks)
    ensures Apply(t, ps + qs, matches, callbacks) == Apply(Apply(t, ps, matches, callbacks), qs, matches, callbacks)
    decreases |ps|
  {
    if ps == [] {
      assert ps + qs == qs;
    } else {
      var t' := Step(ps[0], t, matches, callbacks);
      assert (ps + qs)[0] == ps[0] && (ps + qs)[1..] == ps[1..] + qs;
      assert Apply(t, ps + qs, matches, callbacks) == Apply(t', ps[1..] + qs, matches, callbacks);
      assert Apply(t, ps, matches, callbacks) == Apply(t', ps[1..], matches, callbacks);
      ApplyAppend(t', ps[1..], qs, matches, callbacks);
    }
  }

  /** ...and the invocations of `ps + qs` are those of `ps`, then those of `qs` on what `ps` left. */
  lemma {:induction false} LogAppend(t: string, ps: seq<CustomParser>, qs: seq<CustomParser>, matches: Matcher, callbacks: Callbacks)
    ensures Log(t, ps + qs, matches, callbacks)
      == Log(t, ps, matches, callbacks) + Log(Apply(t, ps, matches, callbacks), qs, matches, callbacks)
    decreases |ps|
  {
    if ps == [] {
      assert ps + qs == qs;
    } else {
      var t' := Step(ps[0], t, matches, callbacks);
      var head := StepLog(ps[0], t, matches);
      assert (ps + qs)[0] == ps[0] && (ps + qs)[1..] == ps[1..] + qs;
      assert Log(t, ps + qs, matches, callbacks) == head + Log(t', ps[1..] + qs, matches, callbacks);
      assert Log(t, ps, matches, callbacks) == head + Log(t', ps[1..], matches, callbacks);
      assert Apply(t, ps, matches, callbacks) == Apply(t', ps[1..], matches, callbacks);
      LogAppend(t', ps[1..], qs, matches, callbacks);
    }
  }

  /** A single pass: a skipped one leaves the text and calls nothing; a firing one calls its callback once, on the whole text, and returns its result. */
  lemma SinglePass(t: string, p: CustomParser, matches: Matcher, callbacks: Callbacks)
    ensures !Fires(p, t, matches) ==> Apply(t, [p], matches, callbacks) == t && Log(t, [p], matches, callbacks) == []
    ensures Fires(p, t, matches) ==>
      && Apply(t, [p], matches, callbacks) == callbacks(p.callback.value, p.pattern.value, t)
      && Log(t, [p], matches, callbacks) == [Invocation(p.callback.value, p.pattern.value, t)]
  {
    assert [p][1..] == [];
  }

  /** When no pass fires on the text, the text comes back unchanged and no callback runs. */
  lemma {:induction false} NoneFire(t: string, ps: seq<CustomParser>, matches: Matcher, callbacks: Callbacks)
    requires forall i :: 0 <= i < |ps| ==> !Fires(ps[i], t, matches)
    ensures Apply(t, ps, matches, callbacks) == t
    ensures Log(t, ps, matches, callbacks) == []
    decreases |ps|
  {
    if ps != [] {
      assert forall i :: 0 <= i < |ps[1..]| ==> ps[1..][i] == ps[i + 1];
      NoneFire(t, ps[1..], matches, callbacks);
    }
  }

  /** Each pass calls its callback at most once, however many matches its pattern has. */
  lemma {:induction false} AtMostOncePerPass(t: string, ps: seq<CustomParser>, matches: Matcher, callbacks: Callbacks)
    ensures |Log(t, ps, matches, callbacks)| <= |ps|
    ensures forall k :: 0 <= k < |Log(t, ps, matches, callbacks)| ==> Log(t, ps, matches, callbacks)[k].callback in CallbackSet(ps)
    decreases |ps|
  {
    if ps != [] {
      var t' := Step(ps[0], t, matches, callbacks);
      AtMostOncePerPass(t', ps[1..], matches, callbacks);
      assert ps == [ps[0]] + ps[1..];
      CallbackSetAppend([ps[0]], ps[1..]);
    }
  }

  /** The callbacks named in `ps`. */
  function CallbackSet(ps: seq<CustomParser>): set<CallbackId>
    decreases |ps|
  {
    if ps == [] then {}
    else (if ps[0].callback.Some? then {ps[0].callback.value} else {}) + CallbackSet(ps[1..])
  }

  lemma {:induction false} CallbackSetAppend(ps: seq<CustomParser>, qs: seq<CustomParser>)
    ensures CallbackSet(ps + qs) == CallbackSet(ps) + CallbackSet(qs)
    decreases |ps|
  {
    if ps == [] {
      assert ps + qs == qs;
    } else {
      assert (ps + qs)[1..] == ps[1..] + qs;
      CallbackSetAppend(ps[1..], qs);
    }
  }

  /** The passes up to `i + 1` are those up to `i`, then pass `i` on the text they left. */
  lemma PassStep(t: string, ps: seq<CustomParser>, i: nat, matches: Matcher, callbacks: Callbacks)
    requires i < |ps|
    ensures Apply(t, ps[..i + 1], matches, callbacks) == Step(ps[i], Apply(t, ps[..i], matches, callbacks), matches, callbacks)
    ensures Log(t, ps[..i + 1], matches, callbacks)
      == Log(t, ps[..i], matches, callbacks) + StepLog(ps[i], Apply(t, ps[..i], matches, callbacks), matches)
  {
    var mid := Apply(t, ps[..i], matches, callbacks);
    assert ps[..i + 1] == ps[..i] + [ps[i]];
    ApplyAppend(t, ps[..i], [ps[i]], matches, callbacks);
    LogAppend(t, ps[..i], [ps[i]], matches, callbacks);
    ApplyOne(mid, ps[i], matches, callbacks);
  }

  /** The source's loop over `$parsers`, updating `$template`; also returns the invocations made. */
  method HandleCustomParsers(template: string, parsers: seq<CustomParser>, matches: Matcher, callbacks: Callbacks)
    returns (r: string, log: seq<Invocation>)
    ensures r == Apply(template, parsers, matches, callbacks)
    ensures log == Log(template, parsers, matches, callbacks)
  {
    r, log := template, [];
    var i := 0;
    while i < |parsers|
      invariant 0 <= i <= |parsers|
      invariant r == Apply(template, parsers[..i], matches, callbacks)
      invariant log == Log(template, parsers[..i], matches, callbacks)
    {
      var p := parsers[i];
      PassStep(template, parsers, i, matches, callbacks);
      if p.pattern.Some? && p.callback.Some? {
        if matches(p.pattern.value, r) {
          log := log + [Invocation(p.callback.value, p.pattern.value, r)];
          r := callbacks(p.callback.value, p.pattern.value, r);
        }
      }
      i := i + 1;
    }
    assert parsers[..i] == parsers;
  }
}
