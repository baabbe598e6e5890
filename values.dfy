/** The values a binding map can hold, and the few questions the engine asks about them. */
module Values {

  /** A PHP array key as PHP stores it (decimal-integer strings are already integers). */
  datatype Key = IntKey(n: int) | StrKey(s: string)

  /** Identifies a closure; what it returns is decided by an oracle (see Engine.Oracle). */
  type ClosureId = nat

  datatype Value =
    | Scalar(text: string)          // a string or number, already converted to its text
    | Null
    | Bool(b: bool)
    | Array(entries: seq<(Key, Value)>)
    | Closure(id: ClosureId)
    | Object                        // any other object: the engine skips it

  /** A binding map (a PHP array), in insertion order. */
  type Entries = seq<(Key, Value)>

  /** The decimal digits of `n`, most significant first. */
  function DigitsOf(n: nat): (r: string)
    ensures |r| > 0 && (n > 0 ==> r[0] != '0')
    ensures forall i :: 0 <= i < |r| ==> '0' <= r[i] <= '9'
    ensures Decimal(r) == n
    decreases n
  {
    var d := ('0' as int + n % 10) as char;
    if n < 10 then [d]
    else
      var r := DigitsOf(n / 10) + [d];
      assert r[..|r| - 1] == DigitsOf(n / 10);
      r
  }

  /** The value of a string of decimal digits (the reading `(int)` gives it). */
  function Decimal(s: string): int
    decreases |s|
  {
    if s == [] then 0 else Decimal(s[..|s| - 1]) * 10 + (s[|s| - 1] as int - '0' as int)
  }

  /** The text of a key as string concatenation yields it; an integer key reads back as itself. */
  function KeyText(k: Key): (r: string)
    ensures k.StrKey? ==> r == k.s
    ensures k.IntKey? && k.n >= 0 ==> r == DigitsOf(k.n) && Decimal(r) == k.n
    ensures k.IntKey? && k.n < 0 ==> |r| > 1 && r[0] == '-' && Decimal(r[1..]) == -k.n
  {
    match k
    case StrKey(s) => s
    case IntKey(n) => if n < 0 then "-" + DigitsOf(-n) else DigitsOf(n)
  }

  /** `isset($a[0])`: key 0 is present with a non-null value. */
  predicate HasIndexZero(es: Entries)
    ensures HasIndexZero(es) ==> |es| > 0
    ensures (forall i :: 0 <= i < |es| ==> es[i].0.StrKey?) ==> !HasIndexZero(es)
  {
    exists i :: 0 <= i < |es| && es[i].0 == IntKey(0) && !es[i].1.Null?
  }

  /** The reserved key under which a loop exposes its current item. */
  const ItemKey: Key := StrKey("_")

  /**
   * The binding map one loop item is rendered against: a non-array, or an
   * array with index 0, is wrapped as `['_' => item]`; any other array is used
   * as it is. Either way the context has no index 0, so the item is not
   * iterated over a second time, and an item that already is such a map is
   * left alone.
   */
  function LoopContext(item: Value): (ctx: Entries)
    ensures !HasIndexZero(ctx)
    ensures item.Array? && !HasIndexZero(item.entries) ==> ctx == item.entries
    ensures (item.Array? && ctx == item.entries) || ctx == [(ItemKey, item)]
  {
    match item
    case Array(es) => if HasIndexZero(es) then [(ItemKey, item)] else es
    case _ => [(ItemKey, item)]
  }

  /** Wrapping is done once: the context of a context, taken as an item, is that context. */
  lemma LoopContextIdempotent(item: Value)
    ensures LoopContext(Array(LoopContext(item))) == LoopContext(item)
  {
  }
}
