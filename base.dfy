/**
  * Values shared by every controller of the SpendSmart backend: optional
  * values, the HTTP outcome of a request, record ids, money, and the decimal
  * rounding that `Number.prototype.toFixed` performs on a quotient.
  */
module Base {

  datatype Option<T> = None | Some(value: T)

  /** Status codes the controllers answer with. */
  const OK: nat := 200
  const CREATED: nat := 201
  const BAD_REQUEST: nat := 400
  const UNAUTHORIZED: nat := 401
  const NOT_FOUND: nat := 404
  const CONFLICT: nat := 409
  const INTERNAL_ERROR: nat := 500

  /**
    * The outcome of one request: a success carrying the value the controller
    * serialises, or an error status with the `message` of its JSON body.
    */
  datatype Result<T> = Ok(value: T) | Err(status: nat, message: string)

  /** Document ids (MongoDB ObjectIds), compared only for equality. */
  type Id = nat

  /**
    * Amounts of money in cents. Decimal128 arithmetic on amounts with two
    * decimals is exact, so integer cents reproduce it.
    */
  type Money = int

  /**
    * `findOne(filter)` over a table in its natural order: the position of the
    * first record the filter accepts, if any.
    */
  function FindIndex<T>(s: seq<T>, p: T -> bool): (r: Option<nat>)
    ensures r.Some? ==> r.value < |s| && p(s[r.value])
    ensures r.Some? ==> forall k :: 0 <= k < r.value ==> !p(s[k])
    ensures r.None? ==> forall k :: 0 <= k < |s| ==> !p(s[k])
  {
    if s == [] then None
    else if p(s[0]) then Some(0)
    else
      match FindIndex(s[1..], p)
      case None => None
      case Some(i) => Some(i + 1)
  }

  /** Removes the element at position i, keeping the order of the others. */
  function RemoveAt<T>(s: seq<T>, i: nat): (r: seq<T>)
    requires i < |s|
    ensures |r| == |s| - 1
    ensures forall k :: 0 <= k < i ==> r[k] == s[k]
    ensures forall k :: i <= k < |r| ==> r[k] == s[k + 1]
    ensures multiset(r) + multiset{s[i]} == multiset(s)
  {
    assert s == s[..i] + [s[i]] + s[i + 1..];
    s[..i] + s[i + 1..]
  }

  function Abs(x: int): (r: int)
    ensures r >= 0 && (r == x || r == -x)
  {
    if x < 0 then -x else x
  }

  lemma RoundMagnitude(a: int, b: int, m: int)
    requires a >= 0 && b > 0 && m == (2 * a + b) / (2 * b)
    ensures m >= 0
    ensures -b < 2 * (m * b - a) <= b
  {
    var rest := (2 * a + b) % (2 * b);
    assert 2 * a + b == m * (2 * b) + rest;
    assert 0 <= rest < 2 * b;
    assert m * (2 * b) == 2 * (m * b);
  }

  /**
    * `(n / d).toFixed(0)` read back as a number: the integer nearest to n/d,
    * a tie going away from zero. Scaled, this is the rounding to one or two
    * decimals that the controllers apply to percentages and quotas.
    */
  function RoundDiv(n: int, d: int): (r: int)
    requires d != 0
    ensures 2 * Abs(r * d - n) <= Abs(d)
    ensures 2 * Abs(r * d - n) == Abs(d) ==> Abs(r * d) > Abs(n)
    ensures n >= 0 && d > 0 ==> r >= 0
  {
    var m := (2 * Abs(n) + Abs(d)) / (2 * Abs(d));
    var r := if (n < 0) != (d < 0) then -m else m;
    RoundDivFacts(n, d, m, r);
    r
  }

  lemma RoundDivFacts(n: int, d: int, m: int, r: int)
    requires d != 0 && m == (2 * Abs(n) + Abs(d)) / (2 * Abs(d))
    requires r == if (n < 0) != (d < 0) then -m else m
    ensures 2 * Abs(r * d - n) <= Abs(d)
    ensures 2 * Abs(r * d - n) == Abs(d) ==> Abs(r * d) > Abs(n)
    ensures n >= 0 && d > 0 ==> r >= 0
  {
    var a, b := Abs(n), Abs(d);
    RoundMagnitude(a, b, m);
    var p := m * b;
    var e := p - a;
    assert p >= 0 by { assert m >= 0 && b > 0; }
    SignedProduct(n, d, m, r);
    assert r * d - n == e || r * d - n == -e;
    assert Abs(r * d) == p;
  }

  lemma SignedProduct(n: int, d: int, m: int, r: int)
    requires d != 0 && m >= 0
    requires r == if (n < 0) != (d < 0) then -m else m
    ensures n >= 0 ==> r * d == m * Abs(d)
    ensures n < 0 ==> r * d == -(m * Abs(d))
    ensures (n >= 0) ==> n == Abs(n)
    ensures (n < 0) ==> n == -Abs(n)
  {
    if d < 0 {
      var b := Abs(d);
      assert b == -d;
      if n >= 0 {
        assert r == -m;
        assert r * d == (-m) * d == m * (-d) == m * b;
      } else {
        assert r == m;
        assert r * d == m * d == -(m * (-d)) == -(m * b);
      }
    }
  }

  lemma {:induction false} RoundDivExact(q: int, d: int)
    requires d != 0
    ensures RoundDiv(q * d, d) == q
  {
    var n := q * d;
    var r := RoundDiv(n, d);
    var k := r - q;
    assert 2 * Abs(r * d - n) <= Abs(d);
    Distribute(r, q, d);
    assert 2 * Abs(k * d) <= Abs(d);
    SmallMultipleIsZero(k, d);
  }

  lemma Distribute(r: int, q: int, d: int)
    ensures r * d - q * d == (r - q) * d
  {
  }

  /** A nonzero multiple of d is at least as large as d. */
  lemma SmallMultipleIsZero(k: int, d: int)
    requires d != 0 && 2 * Abs(k * d) <= Abs(d)
    ensures k == 0
  {
    if k != 0 {
      MultiplyBelow(k, d);
    }
  }

  lemma MultiplyBelow(k: int, d: int)
    requires k != 0 && d != 0
    ensures Abs(k * d) >= Abs(d)
  {
    if k > 0 && d > 0 {
      assert k * d >= d;
    } else if k > 0 {
      assert k * d <= d;
    } else if d > 0 {
      assert k * d <= -d;
    } else {
      assert k * d >= -d;
    }
  }
}
