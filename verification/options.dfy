/** Nullable values, the way Spark SQL treats them. */
module Options {

  /** A column value that may be SQL null (`None`). */
  datatype Option<+T> = None | Some(value: T)

  /** SQL equality `a = b` used as a filter or join condition: a comparison
      with null is null, which a filter or a join treats as false. */
  predicate SqlEquals<T(==)>(a: Option<T>, b: Option<T>)
  {
    a.Some? && b.Some? && a.value == b.value
  }

  /** A built-in column function applied to a nullable column: null in, null out. */
  function Lift<T, U>(f: T -> U, a: Option<T>): Option<U>
  {
    match a
    case None => None
    case Some(v) => Some(f(v))
  }
}
