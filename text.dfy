/**
 * Literal text search and replacement, as the engine uses it:
 * `str_replace` (every non-overlapping occurrence, scanned left to right,
 * replaced text never rescanned) and `preg_replace` of a quoted literal with
 * limit 1 (the leftmost occurrence only).
 */
module Text {
  import opened Wrappers

  /** `p` occurs in `s` starting at index `i`. */
  predicate OccursAt(s: string, p: string, i: nat) {
    i + |p| <= |s| && s[i..i + |p|] == p
  }

  /** `p` occurs nowhere in `s`. */
  ghost predicate Absent(s: string, p: string) {
    forall i: nat :: !OccursAt(s, p, i)
  }

  /** The leftmost occurrence of `p` in `s` at or after `from`. */
  function Find(s: string, p: string, from: nat): (r: Option<nat>)
    ensures r.Some? ==> from <= r.value && OccursAt(s, p, r.value)
    ensures r.Some? ==> forall i: nat :: from <= i < r.value ==> !OccursAt(s, p, i)
    ensures r.None? ==> forall i: nat :: from <= i ==> !OccursAt(s, p, i)
    decreases |s| - from
  {
    if from + |p| > |s| then None
    else if s[from..from + |p|] == p then Some(from)
    else Find(s, p, from + 1)
  }

  /** An occurrence of `p` in a slice of `s` is an occurrence in `s`. */
  lemma OccursInSlice(s: string, p: string, lo: nat, hi: nat, i: nat)
    requires lo <= hi <= |s|
    ensures OccursAt(s[lo..hi], p, i) <==> i + |p| <= hi - lo && OccursAt(s, p, lo + i)
  {
    if i + |p| <= hi - lo {
      var t, u := s[lo..hi][i..i + |p|], s[lo + i..lo + i + |p|];
      forall k | 0 <= k < |p| ensures t[k] == u[k] {
        assert t[k] == s[lo + i + k];
      }
      assert s[lo..hi][i..i + |p|] == s[lo + i..lo + i + |p|];
    }
  }

  /**
   * PHP's `str_replace(p, r, s)`: the text cut at the needle's occurrences and
   * joined again with the replacement; an empty needle, or a needle that does
   * not occur, leaves the subject alone.
   */
  function ReplaceAll(s: string, p: string, r: string): (t: string)
    ensures |p| > 0 ==> t == Join(Pieces(s, p, 0), r)
    ensures |p| == 0 || Absent(s, p) ==> t == s
  {
    if |p| == 0 then s
    else
      ReplaceIsJoin(s, p, r, 0);
      ReplaceFrom(s, p, r, 0)
  }

  function ReplaceFrom(s: string, p: string, r: string, from: nat): string
    requires |p| > 0 && from <= |s|
    decreases |s| - from
  {
    match Find(s, p, from)
    case None => s[from..]
    case Some(i) => s[from..i] + r + ReplaceFrom(s, p, r, i + |p|)
  }

  /** The pieces of `s[from..]` between the occurrences `str_replace` replaces. */
  function Pieces(s: string, p: string, from: nat): seq<string>
    requires |p| > 0 && from <= |s|
    decreases |s| - from
  {
    match Find(s, p, from)
    case None => [s[from..]]
    case Some(i) => [s[from..i]] + Pieces(s, p, i + |p|)
  }

  function Join(ps: seq<string>, sep: string): string {
    if |ps| == 0 then ""
    else if |ps| == 1 then ps[0]
    else ps[0] + sep + Join(ps[1..], sep)
  }

  /** The leftmost occurrence of `p` in `s` replaced by `r` (`preg_replace` of a quoted literal, limit 1). */
  function ReplaceFirst(s: string, p: string, r: string): (t: string)
    ensures Absent(s, p) ==> t == s
    ensures forall i: nat :: OccursAt(s, p, i) && (forall j: nat :: j < i ==> !OccursAt(s, p, j)) ==>
      t == s[..i] + r + s[i + |p|..]
  {
    match Find(s, p, 0)
    case None => s
    case Some(i) => s[..i] + r + s[i + |p|..]
  }

  /** `str_replace` replaces exactly the occurrences `Pieces` cuts at: it joins the pieces with `r`. */
  lemma {:induction false} ReplaceIsJoin(s: string, p: string, r: string, from: nat)
    requires |p| > 0 && from <= |s|
    ensures ReplaceFrom(s, p, r, from) == Join(Pieces(s, p, from), r)
    decreases |s| - from
  {
    match Find(s, p, from)
    case None =>
    case Some(i) =>
      ReplaceIsJoin(s, p, r, i + |p|);
      assert Pieces(s, p, from)[1..] == Pieces(s, p, i + |p|);
  }

  /** Joining the pieces with `p` itself gives back the text: the pieces lose nothing. */
  lemma {:induction false} PiecesRestore(s: string, p: string, from: nat)
    requires |p| > 0 && from <= |s|
    ensures Join(Pieces(s, p, from), p) == s[from..]
    decreases |s| - from
  {
    match Find(s, p, from)
    case None =>
    case Some(i) =>
      PiecesRestore(s, p, i + |p|);
      assert Pieces(s, p, from)[1..] == Pieces(s, p, i + |p|);
      assert s[from..] == s[from..i] + p + s[i + |p|..];
  }

  /** No piece contains the needle: every occurrence was replaced. */
  lemma {:induction false} PiecesAvoid(s: string, p: string, from: nat)
    requires |p| > 0 && from <= |s|
    ensures forall k :: 0 <= k < |Pieces(s, p, from)| ==> Absent(Pieces(s, p, from)[k], p)
    decreases |s| - from
  {
    var ps := Pieces(s, p, from);
    match Find(s, p, from)
    case None =>
      forall i: nat ensures !OccursAt(s[from..], p, i) {
        OccursInSlice(s, p, from, |s|, i);
      }
    case Some(i) =>
      PiecesAvoid(s, p, i + |p|);
      forall j: nat ensures !OccursAt(s[from..i], p, j) {
        OccursInSlice(s, p, from, i, j);
      }
      assert ps[1..] == Pieces(s, p, i + |p|);
      forall k | 0 <= k < |ps| ensures Absent(ps[k], p) {
        if k > 0 { assert ps[k] == ps[1..][k - 1]; }
      }
  }

  /** A text with the needle changes unless `r` is the needle itself. */
  lemma {:induction false} ReplacePresent(s: string, p: string, r: string, i: nat)
    requires OccursAt(s, p, i) && |p| > 0 && r != p
    ensures ReplaceAll(s, p, r) != s
  {
    var ps := Pieces(s, p, 0);
    ReplaceIsJoin(s, p, r, 0);
    PiecesRestore(s, p, 0);
    assert Find(s, p, 0).Some?;
    assert |ps| >= 2;
    JoinDiffers(ps, p, r);
  }

  /** Joining the same pieces (at least two of them) with different separators gives different texts. */
  lemma JoinDiffers(ps: seq<string>, a: string, b: string)
    requires |ps| >= 2 && a != b
    ensures Join(ps, a) != Join(ps, b)
  {
    var x, y := Join(ps[1..], a), Join(ps[1..], b);
    assert Join(ps, a) == ps[0] + (a + x) && Join(ps, b) == ps[0] + (b + y);
    if |a| < |b| {
      JoinLengthMono(ps[1..], a, b);
      assert |Join(ps, a)| < |Join(ps, b)|;
    } else if |b| < |a| {
      JoinLengthMono(ps[1..], b, a);
      assert |Join(ps, b)| < |Join(ps, a)|;
    } else {
      var n := |ps[0]| + |a|;
      assert Join(ps, a)[|ps[0]|..n] == a;
      assert Join(ps, b)[|ps[0]|..n] == b;
    }
  }

  lemma {:induction false} JoinLengthMono(ps: seq<string>, a: string, b: string)
    requires |a| <= |b|
    ensures |Join(ps, a)| <= |Join(ps, b)|
  {
    if |ps| >= 2 {
      JoinLengthMono(ps[1..], a, b);
    }
  }

  /**
   * The leftmost occurrence from `from` is at `i` when every earlier start
   * disagrees with the needle at offset `d`.
   */
  lemma FindAfterStretch(s: string, p: string, d: nat, from: nat, i: nat)
    requires d < |p| && from <= i
    requires OccursAt(s, p, i)
    requires forall j :: from + d <= j < i + d ==> s[j] != p[d]
    ensures Find(s, p, from) == Some(i)
    decreases i - from
  {
    if from < i {
      assert s[from..from + |p|][d] == s[from + d];
      FindAfterStretch(s, p, d, from + 1, i);
    }
  }

  /** A needle is not found from `from` when every start with room for it disagrees with it at offset `d`. */
  lemma FindMissing(s: string, p: string, d: nat, from: nat)
    requires d < |p|
    requires forall j :: from + d <= j && j + |p| - d <= |s| ==> s[j] != p[d]
    ensures Find(s, p, from).None?
    decreases |s| - from
  {
    if from + |p| <= |s| {
      assert s[from..from + |p|][d] == s[from + d];
      FindMissing(s, p, d, from + 1);
    }
  }

  /** A whole template replaced by its own first occurrence is the replacement. */
  lemma ReplaceFirstWhole(s: string, r: string)
    requires |s| > 0
    ensures ReplaceFirst(s, s, r) == r
  {
    assert OccursAt(s, s, 0) && s[..0] + r + s[|s|..] == r;
  }
}
