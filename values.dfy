/** The Python runtime values that columns store and that the library inspects
    with `isinstance` and with Python truthiness (`if x:`). */
module Values {

  import opened Wrappers

  /** An IEEE-754 double, identified by its bit pattern; its arithmetic is not modelled. */
  datatype Float = Float(bits: bv64)

  /** A `datetime.date` or `datetime.datetime`, identified by an opaque time stamp. */
  datatype Date = Date(stamp: int)

  datatype Value =
    | IntV(i: int)
    | BoolV(b: bool)                         // `bool` is a subclass of `int` in Python
    | FloatV(f: Float)
    | DateV(d: Date)
    | StrV(s: string)
    | Null                                   // Python's `None`
    | Other(typeName: string, truthy: bool)  // any other object: a list, a dict, ...

  /** A float is false exactly when it is +0.0 or -0.0 (NaN is true). */
  predicate FloatIsZero(x: Float)
  {
    x.bits & 0x7FFF_FFFF_FFFF_FFFF == 0
  }

  /** Python's `bool(v)`. */
  predicate Truthy(v: Value)
  {
    match v
    case IntV(i) => i != 0
    case BoolV(b) => b
    case FloatV(x) => !FloatIsZero(x)
    case DateV(_) => true
    case StrV(s) => s != ""
    case Null => false
    case Other(_, t) => t
  }

  /** Python's `bool(s)` for an optional string argument such as a format (`None` or `""` is false). */
  predicate Given(s: Option<string>)
  {
    s.Some? && s.value != ""
  }

  /** One decimal digit. */
  function Digit(d: nat): (c: char)
    requires d < 10
  {
    "0123456789"[d]
  }

  /** Python's `"%d" % n` (equivalently `str(n)`) for a natural number. */
  function Decimal(n: nat): (s: string)
    ensures |s| >= 1
    ensures n < 10 <==> |s| == 1
    decreases n
  {
    if n < 10 then [Digit(n)] else Decimal(n / 10) + [Digit(n % 10)]
  }

  /** Python's `"%02d" % n`: at least two digits, zero-padded on the left. */
  function Decimal2(n: nat): (s: string)
    ensures |s| >= 2
  {
    if n < 10 then "0" + Decimal(n) else Decimal(n)
  }
}
