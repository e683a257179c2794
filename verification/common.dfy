/** Small shared vocabulary: optional values and silo addresses. */
module Common {

  /** A value that may be missing (C# nullable). */
  datatype Option<+T> = None | Some(value: T) {

    /** The value, or `default` when it is missing (C# `??`). */
    function GetOr(default: T): T {
      match this
      case Some(v) => v
      case None => default
    }
  }

  /** A silo is identified by its address; only equality of addresses matters here. */
  type SiloAddress = nat

  /** Converts an optional integer to an optional real (C# lifted numeric conversion). */
  function ToReal(x: Option<int>): (r: Option<real>)
    ensures r.None? <==> x.None?
    ensures x.Some? ==> r.value == x.value as real
  {
    match x
    case None => None
    case Some(v) => Some(v as real)
  }

  /** C# `(long)f` for a finite float: truncation toward zero. */
  function TruncateTowardZero(x: real): (r: int)
    ensures r as real <= x < r as real + 1.0 || r as real - 1.0 < x <= r as real
    ensures 0.0 <= x ==> r == x.Floor
    ensures x < 0.0 ==> r == -((-x).Floor)
  {
    if x >= 0.0 then x.Floor else -((-x).Floor)
  }

  /** C# integer division `a / b`, which truncates toward zero (Dafny's `/` is Euclidean). */
  function TruncatingDiv(a: int, b: int): (q: int)
    requires b != 0
    ensures a >= 0 && b > 0 ==> q == a / b
    ensures a >= 0 && b > 0 ==> q * b <= a < (q + 1) * b
  {
    var q := (if a < 0 then -a else a) / (if b < 0 then -b else b);
    if (a < 0) == (b < 0) then q else -q
  }
}
