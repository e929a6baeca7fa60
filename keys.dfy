/** Keys of a slice map: the real line extended with both infinities.
    Keys are mathematical numbers; NaN and rounding are not part of this model. */
module ExtKeys {

  datatype Key = NegInf | Fin(x: real) | PosInf

  /** The strict order of -inf < every finite key < +inf. */
  predicate Lt(a: Key, b: Key)
  {
    || (a.NegInf? && !b.NegInf?)
    || (a.Fin? && b.Fin? && a.x < b.x)
    || (a.Fin? && b.PosInf?)
  }

  /** The non-strict order; it is total, so `a <= b` is `not b < a`. */
  predicate Le(a: Key, b: Key)
  {
    !Lt(b, a)
  }
}
