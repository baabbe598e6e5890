/**
 * `htmlspecialchars` with the defaults of PHP 8.1 and later
 * (ENT_QUOTES | ENT_SUBSTITUTE | ENT_HTML401, double encoding on):
 * `&`, `<`, `>`, `"` and `'` become entities, every other character is kept.
 */
module Escaping {

  /** The characters `htmlspecialchars` rewrites. */
  predicate IsSpecial(c: char) {
    c == '&' || c == '<' || c == '>' || c == '"' || c == '\''
  }

  function EntityOf(c: char): string {
    match c
    case '&' => "&amp;"
    case '<' => "&lt;"
    case '>' => "&gt;"
    case '"' => "&quot;"
    case '\'' => "&#039;"
    case _ => [c]
  }

  /** The escaped form of `s`: no markup character survives, and nothing is lost. */
  function HtmlSpecialChars(s: string): (r: string)
    ensures forall i :: 0 <= i < |r| ==> r[i] != '<' && r[i] != '>' && r[i] != '"' && r[i] != '\''
    ensures |r| >= |s|
  {
    if s == [] then [] else EntityOf(s[0]) + HtmlSpecialChars(s[1..])
  }

  /** The five entities read back (the inverse used to state that escaping loses nothing). */
  function Unescape(t: string): string {
    if t == [] then []
    else if |t| >= 5 && t[..5] == "&amp;" then "&" + Unescape(t[5..])
    else if |t| >= 4 && t[..4] == "&lt;" then "<" + Unescape(t[4..])
    else if |t| >= 4 && t[..4] == "&gt;" then ">" + Unescape(t[4..])
    else if |t| >= 6 && t[..6] == "&quot;" then "\"" + Unescape(t[6..])
    else if |t| >= 6 && t[..6] == "&#039;" then "'" + Unescape(t[6..])
    else [t[0]] + Unescape(t[1..])
  }

  /** The entity for `c`, read back first, gives `c`; the entities differ in their second character. */
  lemma UnescapeEntity(c: char, rest: string)
    ensures Unescape(EntityOf(c) + rest) == [c] + Unescape(rest)
  {
    var t := EntityOf(c) + rest;
    if c == '&' {
      assert t[..5] == "&amp;" && t[5..] == rest;
    } else if c == '<' {
      assert t[1] == 'l' && t[..4] == "&lt;" && t[4..] == rest;
      assert |t| >= 5 ==> t[..5][1] == 'l';
    } else if c == '>' {
      assert t[1] == 'g' && t[..4] == "&gt;" && t[4..] == rest;
      assert |t| >= 5 ==> t[..5][1] == 'g';
      assert t[..4][1] == 'g';
    } else if c == '"' {
      assert t[1] == 'q' && t[..6] == "&quot;" && t[6..] == rest;
      assert t[..5][1] == 'q' && t[..4][1] == 'q';
    } else if c == '\'' {
      assert t[1] == '#' && t[..6] == "&#039;" && t[6..] == rest;
      assert t[..5][1] == '#' && t[..4][1] == '#' && t[..6][1] == '#';
    } else {
      assert t[0] == c && t[1..] == rest;
      assert |t| >= 4 ==> t[..4][0] == c;
      assert |t| >= 5 ==> t[..5][0] == c;
      assert |t| >= 6 ==> t[..6][0] == c;
    }
  }

  /** A single character escapes to its entity. */
  lemma EscapeChar(c: char)
    ensures HtmlSpecialChars([c]) == EntityOf(c)
  {
    assert [c][1..] == [];
  }

  /** Text that escaping keeps as it is stays as it is between two escaped neighbours. */
  lemma EscapeAround(l: string, x: string, r: string)
    requires HtmlSpecialChars(x) == x
    ensures HtmlSpecialChars(l + x + r) == HtmlSpecialChars(l) + x + HtmlSpecialChars(r)
  {
    EscapeConcat(l, x);
    EscapeConcat(l + x, r);
  }

  /** Escaping is undone by reading the entities back. */
  lemma {:induction false} UnescapeAfterEscape(s: string)
    ensures Unescape(HtmlSpecialChars(s)) == s
  {
    if s != [] {
      UnescapeAfterEscape(s[1..]);
      UnescapeEntity(s[0], HtmlSpecialChars(s[1..]));
      assert [s[0]] + s[1..] == s;
    }
  }

  /** Escaping changes a text exactly when the text holds one of the five special characters. */
  lemma {:induction false} EscapeIsIdentityIff(s: string)
    ensures HtmlSpecialChars(s) == s <==> forall i :: 0 <= i < |s| ==> !IsSpecial(s[i])
  {
    if s != [] {
      EscapeIsIdentityIff(s[1..]);
      var tail := HtmlSpecialChars(s[1..]);
      if IsSpecial(s[0]) {
        assert |EntityOf(s[0])| >= 4;
        assert |HtmlSpecialChars(s)| > |s|;
      } else {
        assert HtmlSpecialChars(s) == [s[0]] + tail;
        if tail == s[1..] {
          assert [s[0]] + s[1..] == s;
        } else {
          assert HtmlSpecialChars(s)[1..] == tail;
        }
        assert forall i :: 1 <= i < |s| ==> s[i] == s[1..][i - 1];
      }
    }
  }

  /** Escaping works character by character: it distributes over concatenation. */
  lemma {:induction false} EscapeConcat(a: string, b: string)
    ensures HtmlSpecialChars(a + b) == HtmlSpecialChars(a) + HtmlSpecialChars(b)
  {
    if a != [] {
      var ab := a + b;
      assert ab[0] == a[0] && ab[1..] == a[1..] + b;
      EscapeConcat(a[1..], b);
      assert HtmlSpecialChars(ab) == EntityOf(a[0]) + HtmlSpecialChars(a[1..] + b);
      assert HtmlSpecialChars(a) == EntityOf(a[0]) + HtmlSpecialChars(a[1..]);
    } else {
      assert a + b == b;
    }
  }
}
