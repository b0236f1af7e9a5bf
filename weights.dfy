/** Edge weights and distances: a mathematical integer or positive infinity.
    The input cells are produced by parseInt, so every finite entry is an
    integer; the no-edge marker becomes Number.POSITIVE_INFINITY. */
module Weights {

  datatype Weight = Fin(value: int) | Inf

  /** JavaScript `+` restricted to integers and +Infinity: infinity absorbs. */
  function Add(a: Weight, b: Weight): (r: Weight)
  {
    if a.Inf? || b.Inf? then Inf else Fin(a.value + b.value)
  }

  /** JavaScript `<` restricted to integers and +Infinity. */
  predicate Less(a: Weight, b: Weight)
  {
    match (a, b)
    case (Fin(x), Fin(y)) => x < y
    case (Fin(_), Inf) => true
    case (Inf, _) => false
  }

  /** The non-strict order that goes with Less. */
  predicate Le(a: Weight, b: Weight)
  {
    !Less(b, a)
  }

  /** Infinity is never below anything, and everything is at most infinity. */
  lemma InfIsTop(a: Weight)
    ensures !Less(Inf, a) && Le(a, Inf)
    ensures Le(Inf, a) ==> a == Inf
  {
  }

  /** `INFINITY + x < y` never holds, whatever x and y are. */
  lemma InfSumNeverLess(x: Weight, y: Weight)
    ensures !Less(Add(Inf, x), y) && !Less(Add(x, Inf), y)
  {
  }

  lemma LessIsStrict(a: Weight, b: Weight)
    ensures Less(a, b) ==> Le(a, b) && a != b
    ensures Le(a, b) && a != b ==> Less(a, b)
  {
  }

  lemma LeTransitive(a: Weight, b: Weight, c: Weight)
    requires Le(a, b) && Le(b, c)
    ensures Le(a, c)
  {
  }

  lemma LeAntisymmetric(a: Weight, b: Weight)
    requires Le(a, b) && Le(b, a)
    ensures a == b
  {
  }

  lemma AddAssociative(a: Weight, b: Weight, c: Weight)
    ensures Add(Add(a, b), c) == Add(a, Add(b, c))
  {
  }

  /** Addition is monotone in both arguments. */
  lemma AddMonotone(a: Weight, a': Weight, b: Weight, b': Weight)
    requires Le(a, a') && Le(b, b')
    ensures Le(Add(a, b), Add(a', b'))
  {
  }

  /** Adding a weight that is not negative never makes a sum smaller. */
  lemma AddNonNegative(a: Weight, c: Weight)
    requires !Less(c, Fin(0))
    ensures Le(a, Add(a, c)) && Le(a, Add(c, a))
  {
  }
}
