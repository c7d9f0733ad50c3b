/** Cell values of the tables the three scripts build, and the per-cell
    arithmetic and comparisons pandas applies to them. */
module Cells {

  datatype Option<T> = None | Some(value: T)

  datatype Result<T, E> = Ok(value: T) | Err(error: E)

  /** One table cell. `Missing` is pandas' NaN/None, `PosInf` and `NegInf`
      are the IEEE infinities a division by zero produces, `Num` is a finite
      number (exact instead of floating point) and `Text` a string cell. */
  datatype Cell = Missing | Num(x: real) | PosInf | NegInf | Text(s: string)

  /** What a column holds after `pd.to_numeric(..., errors='coerce')`: a
      number, finite or not, or Missing -- never text. */
  predicate IsNumeric(c: Cell) {
    !c.Text?
  }

  /** The IEEE result of dividing a finite `x` by zero (signed zeros aside). */
  function OverZero(x: real): (r: Cell)
    ensures r.Missing? <==> x == 0.0
    ensures r == PosInf <==> x > 0.0
    ensures r == NegInf <==> x < 0.0
  {
    if x > 0.0 then PosInf else if x < 0.0 then NegInf else Missing
  }

  function Negate(c: Cell): Cell
    requires IsNumeric(c)
  {
    match c
    case Num(x) => Num(-x)
    case PosInf => NegInf
    case NegInf => PosInf
    case Missing => Missing
  }

  /** Element-wise `/` of two numeric pandas columns, IEEE-754 without
      signed zeros: a non-zero finite value over zero is an infinity of its
      sign, 0/0 and inf/inf are NaN, a finite value over an infinity is 0. */
  function Div(a: Cell, b: Cell): (r: Cell)
    requires IsNumeric(a) && IsNumeric(b)
    ensures IsNumeric(r)
    ensures (a.Missing? || b.Missing?) ==> r.Missing?
    ensures a.Num? && b.Num? && b.x != 0.0 ==> r == Num(a.x / b.x)
    ensures a.Num? && b.Num? && b.x == 0.0 ==> r == OverZero(a.x)
  {
    if a.Missing? || b.Missing? then Missing
    else if a.Num? && b.Num? then (if b.x != 0.0 then Num(a.x / b.x) else OverZero(a.x))
    else if a.Num? then Num(0.0)
    else if b.Num? then (if b.x < 0.0 then Negate(a) else a)
    else Missing
  }

  /** Element-wise multiplication by a positive constant. */
  function Scale(c: Cell, k: real): (r: Cell)
    requires IsNumeric(c) && k > 0.0
    ensures IsNumeric(r)
    ensures r.Missing? <==> c.Missing?
    ensures c.Num? ==> r == Num(c.x * k)
    ensures !c.Num? ==> r == c
  {
    match c
    case Num(x) => Num(x * k)
    case _ => c
  }

  /** pandas `c >= k`: NaN compares false, +inf is above every bound. */
  predicate AtLeast(c: Cell, k: real)
    requires IsNumeric(c)
  {
    match c
    case Num(x) => x >= k
    case PosInf => true
    case _ => false
  }

  /** pandas `c <= k`. */
  predicate AtMost(c: Cell, k: real)
    requires IsNumeric(c)
  {
    match c
    case Num(x) => x <= k
    case NegInf => true
    case _ => false
  }

  /** pandas `c > k`. */
  predicate Above(c: Cell, k: real)
    requires IsNumeric(c)
  {
    match c
    case Num(x) => x > k
    case PosInf => true
    case _ => false
  }

  /** pandas `Series.between(lo, hi)`: inclusive at both ends. */
  predicate Between(c: Cell, lo: real, hi: real)
    requires IsNumeric(c)
  {
    AtLeast(c, lo) && AtMost(c, hi)
  }

  lemma BetweenExact(c: Cell, lo: real, hi: real)
    requires IsNumeric(c) && lo <= hi
    ensures Between(c, lo, hi) <==> c.Num? && lo <= c.x <= hi
  {
  }

  /** Truncation toward zero, what `astype(int)` does to a float. */
  function Trunc(x: real): (n: int)
    ensures x >= 0.0 ==> n as real <= x < n as real + 1.0
    ensures x < 0.0 ==> n as real - 1.0 < x <= n as real
  {
    if x >= 0.0 then x.Floor else -((-x).Floor)
  }

  predicate IsWhole(x: real) {
    x.Floor as real == x
  }
}
