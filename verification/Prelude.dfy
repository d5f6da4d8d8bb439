/** Small definitions that the models share. */
module Prelude {

  datatype Option<+T> = None | Some(value: T)

  /** The `n` numbers from `lo` on. */
  function Span(lo: nat, n: nat): (s: set<nat>)
    ensures forall x :: x in s <==> lo <= x < lo + n
  {
    if n == 0 then {} else Span(lo, n - 1) + {lo + n - 1}
  }

  lemma {:induction false} SpanSize(lo: nat, n: nat)
    ensures |Span(lo, n)| == n
  {
    if n > 0 {
      SpanSize(lo, n - 1);
    }
  }

  lemma {:induction false} SubsetSize(a: set<nat>, b: set<nat>)
    requires a <= b
    ensures |a| <= |b| && (|a| == |b| ==> a == b)
  {
    if a != {} {
      var x :| x in a;
      SubsetSize(a - {x}, b - {x});
    } else if b != {} {
      var x :| x in b;
      assert |b| > 0;
    }
  }

  lemma Missing(a: set<nat>, b: set<nat>) returns (x: nat)
    requires |a| < |b|
    ensures x in b && x !in a
  {
    if b <= a {
      SubsetSize(b, a);
    }
    x :| x in b && x !in a;
  }

  function Pow2(n: nat): (p: nat)
    ensures p > 0
  {
    if n == 0 then 1 else 2 * Pow2(n - 1)
  }

  /** The sequence without the element at `j`. */
  function Without<T>(s: seq<T>, j: nat): seq<T>
    requires j < |s|
  {
    s[..j] + s[j + 1..]
  }
}
