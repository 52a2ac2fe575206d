/**
 * The integer calculator service: four stateless request handlers over
 * unbounded integers (Python `int`). A handler either returns a `Result`
 * message carrying a value or sets an error status on the call.
 */
module Calculator {

  /** The status codes a calculator handler can leave on its call. */
  datatype StatusCode = InvalidArgument

  /**
   * What a handler answers: a `Result` message with its value, or an error
   * status with its details (the `Result` sent alongside it is empty).
   */
  datatype Reply = Value(value: int) | Failed(code: StatusCode, details: string)

  /** The details text Div sets when asked to divide by zero. */
  const DivisionByZeroDetails: string := "Erro: Divisão por zero!"

  /** Add: a value that Sub takes back to x. */
  function Add(x: int, y: int): (r: Reply)
    ensures r.Value? && Sub(r.value, y) == Value(x)
  {
    Value(x + y)
  }

  /** Sub: the value that y must be added to in order to give x back. */
  function Sub(x: int, y: int): (r: Reply)
    ensures r.Value? && r.value + y == x
  {
    Value(x - y)
  }

  /**
   * Mul: 0 when y is 0; otherwise a multiple of y whose floor quotient by y
   * is x, which only the product x * y is (MulContractIsProduct).
   */
  function Mul(x: int, y: int): (r: Reply)
    ensures r.Value?
    ensures y == 0 ==> r.value == 0
    ensures y != 0 ==> r.value % y == 0 && IsFloorQuotient(r.value, y, x)
  {
    if y == 0 then Value(x * y)
    else ExactMultipleHasNoRemainder(x, y); Value(x * y)
  }

  /**
   * `q` is the floor of x / y: the remainder x - q * y lies between 0 and y,
   * on the side of y (it is zero or has y's sign, and is smaller than |y|).
   */
  ghost predicate IsFloorQuotient(x: int, y: int, q: int)
    requires y != 0
  {
    var r := x - q * y;
    if y > 0 then 0 <= r < y else y < r <= 0
  }

  /**
   * Python's `x // y`. Dafny's `/` is Euclidean (its remainder is never
   * negative), which is the floor only when y > 0; for y < 0 and a nonzero
   * remainder the floor is one less.
   */
  function FloorDiv(x: int, y: int): (q: int)
    requires y != 0
    ensures IsFloorQuotient(x, y, q)
  {
    if y > 0 || x % y == 0 then x / y else x / y - 1
  }

  /** Div: an INVALID_ARGUMENT error for y == 0, otherwise the floor quotient. */
  function Div(x: int, y: int): (r: Reply)
    ensures r.Failed? <==> y == 0
    ensures y == 0 ==> r == Failed(InvalidArgument, DivisionByZeroDetails)
    ensures y != 0 ==> r.Value? && IsFloorQuotient(x, y, r.value)
  {
    if y == 0 then Failed(InvalidArgument, DivisionByZeroDetails)
    else Value(FloorDiv(x, y))
  }

  /** The floor quotient is unique, so Div's contract pins its value down. */
  lemma FloorQuotientUnique(x: int, y: int, q1: int, q2: int)
    requires y != 0
    requires IsFloorQuotient(x, y, q1) && IsFloorQuotient(x, y, q2)
    ensures q1 == q2
  {
    var r1, r2 := x - q1 * y, x - q2 * y;
    assert (q2 - q1) * y == r1 - r2;
    if q1 < q2 {
      MulAtLeastOnce(q2 - q1, y);
    } else if q2 < q1 {
      MulAtLeastOnce(q1 - q2, y);
    }
  }

  /** |k * y| >= |y| for a positive multiplier k. */
  lemma MulAtLeastOnce(k: int, y: int)
    requires k >= 1
    ensures y > 0 ==> k * y >= y
    ensures y < 0 ==> k * y <= y
  {
  }

  /** Mul's contract admits exactly one value for each x and y: the product. */
  lemma MulContractIsProduct(x: int, y: int, v: int)
    requires y != 0 && v % y == 0 && IsFloorQuotient(v, y, x)
    ensures v == x * y
  {
    var q := v / y;
    assert v == q * y;
    assert IsFloorQuotient(v, y, q);
    FloorQuotientUnique(v, y, q, x);
  }

  /** Mul steps by x as y steps by one, so with Mul(x, 0) == 0 it is repeated addition. */
  lemma MulStep(x: int, y: int)
    ensures Mul(x, y + 1).value == Mul(x, y).value + x
  {
  }

  /** Div undoes Mul for every nonzero divisor. */
  lemma DivUndoesMul(x: int, y: int)
    requires y != 0
    ensures Div(Mul(x, y).value, y) == Value(x)
  {
  }

  /**
   * Where `x // y` and Dafny's Euclidean `x / y` agree and where they do not:
   * equal for y > 0 or an exact division, one less for y < 0 otherwise.
   */
  lemma FloorDivVersusEuclidean(x: int, y: int)
    requires y != 0
    ensures y > 0 ==> Div(x, y) == Value(x / y)
    ensures y < 0 && x % y == 0 ==> Div(x, y) == Value(x / y)
    ensures y < 0 && x % y != 0 ==> Div(x, y) == Value(x / y - 1)
  {
  }

  /** The magnitude of n. */
  function Abs(n: int): (m: nat)
    ensures m == n || m == -n
  {
    if n < 0 then -n else n
  }

  /** Division truncating toward zero, as C, Java and Go compute it. */
  function TruncDiv(x: int, y: int): (q: int)
    requires y != 0
  {
    if (x < 0) == (y < 0) then Abs(x) / Abs(y) else -(Abs(x) / Abs(y))
  }

  /**
   * `x // y` is the truncated quotient, except when the operands have
   * opposite signs and y does not divide x: then it is one less.
   */
  lemma FloorDivVersusTruncated(x: int, y: int)
    requires y != 0
    ensures (x < 0) != (y < 0) && x % y != 0 ==> Div(x, y) == Value(TruncDiv(x, y) - 1)
    ensures (x < 0) == (y < 0) || x % y == 0 ==> Div(x, y) == Value(TruncDiv(x, y))
  {
    var t, s := Abs(x) / Abs(y), Abs(x) % Abs(y);
    assert TruncDiv(x, y) == if (x < 0) == (y < 0) then t else -t;
    DividesIffNoRemainder(x, y, s);
    var f := FloorFromMagnitudes(x, y, t, s);
    FloorQuotientUnique(x, y, Div(x, y).value, f);
    assert Div(x, y) == Value(f);
  }

  /**
   * From |x| == t * |y| + s with 0 <= s < |y|: the floor quotient is t when
   * the signs agree, -t when they differ and s == 0, and -t - 1 otherwise.
   */
  lemma FloorFromMagnitudes(x: int, y: int, t: int, s: int) returns (f: int)
    requires y != 0 && t == Abs(x) / Abs(y) && s == Abs(x) % Abs(y)
    ensures IsFloorQuotient(x, y, f)
    ensures f == if (x < 0) == (y < 0) then t else if s == 0 then -t else -t - 1
  {
    var a: int, b: int := Abs(x), Abs(y);
    assert a == t * b + s && 0 <= s < b;
    if x >= 0 && y > 0 {
      f := t;
      assert x - f * y == s;
    } else if x < 0 && y < 0 {
      f := t;
      assert x - f * y == -(a - t * b);
    } else if x >= 0 {
      f := if s == 0 then -t else -t - 1;
      assert x == a && y == -b;
      assert x - f * y == (if s == 0 then a - t * b else a - t * b - b);
    } else {
      f := if s == 0 then -t else -t - 1;
      assert x == -a && y == b;
      assert x - f * y == (if s == 0 then t * b - a else t * b - a + b);
    }
  }

  /** y divides x exactly when |y| divides |x|. */
  lemma DividesIffNoRemainder(x: int, y: int, s: int)
    requires y != 0 && s == Abs(x) % Abs(y)
    ensures x % y == 0 <==> s == 0
  {
    if s == 0 {
      var k := SignedMultiple(x, y, Abs(x) / Abs(y));
      ExactMultipleHasNoRemainder(k, y);
    } else if x % y == 0 {
      var q := x / y;
      assert x == q * y;
      AbsOfProduct(q, y);
      ExactMultipleHasNoRemainder(Abs(q), Abs(y));
      assert false;
    }
  }

  /** |x| == t * |y| makes x a multiple of y, with t or -t as the factor. */
  lemma SignedMultiple(x: int, y: int, t: int) returns (k: int)
    requires y != 0 && Abs(x) == t * Abs(y)
    ensures x == k * y
  {
    if (x < 0) == (y < 0) {
      k := t;
      if x < 0 { assert -x == t * -y; }
    } else {
      k := -t;
      if x < 0 { assert -x == t * y; } else { assert x == t * -y; }
    }
  }

  /** |k * y| == |k| * |y|. */
  lemma AbsOfProduct(k: int, y: int)
    ensures Abs(k * y) == Abs(k) * Abs(y)
  {
    if k < 0 && y < 0 {
      assert k * y == (-k) * (-y);
    } else if k < 0 {
      assert k * y == -((-k) * y);
    } else if y < 0 {
      assert k * y == -(k * (-y));
    }
  }

  /** (k * y) % y == 0. */
  lemma ExactMultipleHasNoRemainder(k: int, y: int)
    requires y != 0
    ensures (k * y) % y == 0
  {
    var p := k * y;
    var q, r := p / y, p % y;
    assert p == q * y + r && 0 <= r < Abs(y);
    assert (k - q) * y == r;
    if k != q {
      if k > q { MulAtLeastOnce(k - q, y); } else { MulAtLeastOnce(q - k, y); }
    }
  }
}
