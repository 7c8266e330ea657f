/** Positional numerals: a natural number written as a fixed number of digits
    in some base, most significant digit first. Big-endian byte words (base 256)
    and packed 2-bit colour indexes (base 4) are both instances. */
module Digits {

  function Pow(b: nat, n: nat): (p: nat)
    ensures b >= 1 ==> p >= 1
  {
    if n == 0 then 1
    else
      var rest := Pow(b, n - 1);
      if b == 0 then 0
      else
        MulMonotone(1, rest, b);
        b * rest
  }

  /** Multiplying the exponent by two squares the base: a shift by `2k` bits is
      a shift by `k` base-4 digits. */
  lemma {:induction false} PowSquare(k: nat)
    ensures Pow(2, 2 * k) == Pow(4, k)
  {
    if k > 0 {
      PowSquare(k - 1);
      assert Pow(2, 2 * k) == 2 * (2 * Pow(2, 2 * (k - 1)));
    }
  }

  lemma {:induction false} MulAddDistributes(x: int, y: int, b: int)
    ensures (x + y) * b == x * b + y * b
  {
  }

  lemma {:induction false} MulAssociates(x: int, y: int, z: int)
    ensures (x * y) * z == x * (y * z)
  {
  }

  lemma {:induction false} ShiftDigit(d: int, p: int, f: int, b: int, last: int)
    ensures (d * p + f) * b + last == d * (b * p) + (f * b + last)
  {
    MulAddDistributes(d * p, f, b);
    MulAssociates(d, p, b);
  }

  lemma {:induction false} MulMonotone(a: nat, c: nat, b: nat)
    requires a <= c
    ensures a * b <= c * b
  {
    assert c * b == a * b + (c - a) * b;
  }

  /** Euclidean division recovers the quotient and remainder it was built from. */
  lemma {:induction false} DivModOf(q: nat, r: nat, b: nat)
    requires r < b
    ensures (q * b + r) / b == q
    ensures (q * b + r) % b == r
  {
    var x := q * b + r;
    var q', r' := x / b, x % b;
    assert x == q' * b + r';
    if q' < q {
      MulMonotone(q' + 1, q, b);
      assert false;
    } else if q' > q {
      MulMonotone(q + 1, q', b);
      assert false;
    }
  }

  lemma {:induction false} DivBelow(v: nat, b: nat, p: nat)
    requires b >= 1
    requires v < p * b
    ensures v / b < p
  {
    if v / b >= p {
      MulMonotone(p, v / b, b);
      assert false;
    }
  }

  lemma {:induction false} Regroup(q: int, p: int, r: int, b: int, s: int)
    ensures (q * p + r) * b + s == q * (p * b) + (r * b + s)
  {
    MulAddDistributes(q * p, r, b);
    MulAssociates(q, p, b);
  }

  lemma {:induction false} RemainderBound(r: nat, p: nat, s: nat, b: nat)
    requires r < p && s < b
    ensures r * b + s < p * b
  {
    MulMonotone(r + 1, p, b);
    MulAddDistributes(r, 1, b);
  }

  /** Dividing twice is dividing once by the product. */
  lemma {:induction false} DivDiv(v: nat, b: nat, k: nat)
    requires b >= 2
    ensures (v / b) / Pow(b, k) == v / Pow(b, k + 1)
  {
    var p := Pow(b, k);
    var q1, r1 := v / b, v % b;
    var q2, r2 := q1 / p, q1 % p;
    DivModIdentity(v, b);
    DivModIdentity(q1, p);
    assert v == q2 * (p * b) + (r2 * b + r1) by {
      Regroup(q2, p, r2, b, r1);
    }
    RemainderBound(r2, p, r1, b);
    DivModOf(q2, r2 * b + r1, p * b);
    PowStep(b, k);
  }

  lemma {:induction false} PowStep(b: nat, k: nat)
    ensures Pow(b, k + 1) == Pow(b, k) * b
  {
  }

  ghost predicate AllBelow(ds: seq<nat>, b: nat)
  {
    forall i :: 0 <= i < |ds| ==> ds[i] < b
  }

  /** The value of the digits `ds` in base `b`, most significant first. */
  function FromDigits(ds: seq<nat>, b: nat): nat
  {
    if |ds| == 0 then 0 else FromDigits(ds[..|ds| - 1], b) * b + ds[|ds| - 1]
  }

  /** The `n` lowest digits of `v` in base `b`, most significant first. */
  function ToDigits(v: nat, n: nat, b: nat): (ds: seq<nat>)
    requires b >= 2
    ensures |ds| == n
    ensures forall i :: 0 <= i < n ==> ds[i] < b
  {
    if n == 0 then [] else ToDigits(v / b, n - 1, b) + [v % b]
  }

  lemma {:induction false} FromDigitsSnoc(ds: seq<nat>, d: nat, b: nat)
    ensures FromDigits(ds + [d], b) == FromDigits(ds, b) * b + d
  {
    assert (ds + [d])[..|ds|] == ds;
  }

  /** Reading the leading digit first: it weighs `b` to the number of digits after it. */
  lemma {:induction false} FromDigitsCons(d: nat, ds: seq<nat>, b: nat)
    ensures FromDigits([d] + ds, b) == d * Pow(b, |ds|) + FromDigits(ds, b)
    decreases |ds|
  {
    if |ds| == 0 {
      assert [d] + ds == [] + [d];
      FromDigitsSnoc([], d, b);
    } else {
      var init, last := ds[..|ds| - 1], ds[|ds| - 1];
      var p, f := Pow(b, |init|), FromDigits(init, b);
      assert FromDigits([d] + ds, b) == (d * p + f) * b + last by {
        assert [d] + ds == ([d] + init) + [last];
        FromDigitsSnoc([d] + init, last, b);
        FromDigitsCons(d, init, b);
      }
      assert FromDigits(ds, b) == f * b + last;
      assert Pow(b, |ds|) == b * p;
      ShiftDigit(d, p, f, b, last);
    }
  }

  /** Digits below the base denote a number below `b` to the number of digits. */
  lemma {:induction false} FromDigitsBound(ds: seq<nat>, b: nat)
    requires b >= 1
    requires AllBelow(ds, b)
    ensures FromDigits(ds, b) < Pow(b, |ds|)
    decreases |ds|
  {
    if |ds| > 0 {
      var init, last := ds[..|ds| - 1], ds[|ds| - 1];
      var p, f := Pow(b, |init|), FromDigits(init, b);
      assert f < p by {
        FromDigitsBound(init, b);
      }
      RemainderBound(f, p, last, b);
      assert Pow(b, |ds|) == p * b;
    }
  }

  /** Writing a number in `n` digits and reading it back yields the number. */
  lemma {:induction false} FromToDigits(v: nat, n: nat, b: nat)
    requires b >= 2
    requires v < Pow(b, n)
    ensures FromDigits(ToDigits(v, n, b), b) == v
    decreases n
  {
    if n > 0 {
      var q, d := v / b, v % b;
      var ds := ToDigits(q, n - 1, b);
      assert q < Pow(b, n - 1) by {
        QuotientBelow(v, b, n);
      }
      assert FromDigits(ds, b) == q by {
        FromToDigits(q, n - 1, b);
      }
      assert ToDigits(v, n, b) == ds + [d];
      assert FromDigits(ds + [d], b) == v by {
        FromDigitsSnoc(ds, d, b);
        DivModIdentity(v, b);
      }
    }
  }

  lemma {:induction false} QuotientBelow(v: nat, b: nat, n: nat)
    requires b >= 2 && n > 0
    requires v < Pow(b, n)
    ensures v / b < Pow(b, n - 1)
  {
    var p := Pow(b, n - 1);
    assert v < p * b;
    DivBelow(v, b, p);
  }

  lemma {:induction false} DivModIdentity(v: nat, b: nat)
    requires b >= 1
    ensures (v / b) * b + v % b == v
  {
  }

  /** Reading digits and writing the number back in as many digits yields the digits. */
  lemma {:induction false} ToFromDigits(ds: seq<nat>, b: nat)
    requires b >= 2
    requires AllBelow(ds, b)
    ensures ToDigits(FromDigits(ds, b), |ds|, b) == ds
    decreases |ds|
  {
    if |ds| > 0 {
      var init, last := ds[..|ds| - 1], ds[|ds| - 1];
      DivModOf(FromDigits(init, b), last, b);
      ToFromDigits(init, b);
      assert ds == init + [last];
    }
  }

  /** Digit `i` of `ToDigits(v, n, b)` is `v` shifted right by `n - 1 - i` digits, modulo the base. */
  lemma {:induction false} DigitAt(v: nat, n: nat, b: nat, i: nat)
    requires b >= 2
    requires i < n
    ensures ToDigits(v, n, b)[i] == (v / Pow(b, n - 1 - i)) % b
    decreases n
  {
    var init := ToDigits(v / b, n - 1, b);
    assert ToDigits(v, n, b) == init + [v % b];
    if i < n - 1 {
      assert ToDigits(v, n, b)[i] == init[i];
      DigitAt(v / b, n - 1, b, i);
      DivDiv(v, b, n - 2 - i);
    } else {
      assert Pow(b, n - 1 - i) == 1;
    }
  }
}
