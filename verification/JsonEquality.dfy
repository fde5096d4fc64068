/** Which values `operator==` takes for equal. */
module JsonEquality {
  import opened JsonValue

  /** The eight types are told apart. */
  lemma TypeByKind(x: Json, y: Json)
    ensures x.Type() == y.Type() <==>
      && (x.Null? <==> y.Null?) && (x.Bool? <==> y.Bool?) && (x.Int? <==> y.Int?) && (x.Uint? <==> y.Uint?)
      && (x.Float? <==> y.Float?) && (x.Str? <==> y.Str?) && (x.Arr? <==> y.Arr?) && (x.Obj? <==> y.Obj?)
  {
  }

  predicate Numeric(j: Json) {
    j.Int? || j.Uint? || j.Float?
  }

  /** No number anywhere in the value. */
  predicate NumberFree(j: Json) {
    match j
    case Arr(a) => forall i | 0 <= i < |a| :: NumberFree(a[i])
    case Obj(o) => forall k | k in o :: NumberFree(o[k])
    case _ => !Numeric(j)
  }

  /** Without numbers only the same value is equal. */
  lemma {:induction false} EqIsIdentity(x: Json, y: Json)
    requires NumberFree(x) || NumberFree(y)
    ensures Eq(x, y) <==> x == y
  {
    match (x, y)
    case (Arr(a), Arr(b)) =>
      if |a| == |b| {
        forall i | 0 <= i < |a| ensures Eq(a[i], b[i]) <==> a[i] == b[i] { EqIsIdentity(a[i], b[i]); }
      }
    case (Obj(a), Obj(b)) =>
      if a.Keys == b.Keys {
        forall k | k in a ensures Eq(a[k], b[k]) <==> a[k] == b[k] { EqIsIdentity(a[k], b[k]); }
        assert a == b <==> forall k | k in a :: a[k] == b[k];
      }
    case _ =>
  }

  /** Containers are equal if they have the same shape and equal children; nothing is equal to a value of another
      kind, numbers aside. */
  lemma EqByShape(x: Json, y: Json)
    ensures x.Arr? && y.Arr? ==>
      (Eq(x, y) <==> |x.a| == |y.a| && forall i | 0 <= i < |x.a| :: Eq(x.a[i], y.a[i]))
    ensures x.Obj? && y.Obj? ==>
      (Eq(x, y) <==> (forall k :: k in x.o <==> k in y.o) && forall k | k in x.o :: Eq(x.o[k], y.o[k]))
    ensures x.Type() != y.Type() && !(Numeric(x) && Numeric(y)) ==> !Eq(x, y)
  {
    if x.Obj? && y.Obj? {
      assert x.o.Keys == y.o.Keys <==> forall k :: k in x.o <==> k in y.o;
    }
  }

  /** Integers of one kind are equal if they are the same; a signed and an unsigned one if they agree in their 64
      bits. */
  lemma EqOfIntegers(i: int64, k: int64, u: uint64, v: uint64)
    ensures Eq(Int(i), Int(k)) <==> i == k
    ensures Eq(Uint(u), Uint(v)) <==> u == v
    ensures Eq(Int(i), Uint(u)) <==> (i - u) % 0x1_0000_0000_0000_0000 == 0
    ensures Eq(Uint(u), Int(i)) <==> (i - u) % 0x1_0000_0000_0000_0000 == 0
  {
  }

  /** Doubles are equal if they are the same number or the same infinity; a NaN is equal to nothing. */
  lemma EqOfDoubles(x: real, y: real, d: Double)
    ensures Eq(Float(Finite(x)), Float(Finite(y))) <==> x == y
    ensures Eq(Float(PosInfinity), Float(d)) <==> d == PosInfinity
    ensures Eq(Float(NegInfinity), Float(d)) <==> d == NegInfinity
    ensures !Eq(Float(NaN), Float(d)) && !Eq(Float(d), Float(NaN))
  {
  }

  function Abs(i: int): nat {
    if i < 0 then -i else i
  }

  /** `product`, `m` times `unit`, is as near to `n` as can be, and of two such multiples the even one. */
  predicate Nearest(n: nat, product: nat, unit: nat, m: nat) {
    2 * Abs(product - n) <= unit && (2 * Abs(product - n) == unit ==> m % 2 == 0)
  }

  /** `m` * 2^`e` is what rounding `n` to a 53-bit significand yields: the nearest such number, and of two nearest
      ones the one with the even significand. */
  predicate Rounds(n: nat, m: nat, e: nat) {
    && m <= TWO_53
    && (e == 0 ==> m == n)
    && (e > 0 ==> 0x10_0000_0000_0000 * Pow2(e) <= n)
    && n < 0x20_0000_0000_0000 * Pow2(e)
    && Nearest(n, m * Pow2(e), Pow2(e), m)
  }

  lemma {:induction false} LostBitsFit(n: nat)
    ensures n < 0x20_0000_0000_0000 * Pow2(LostBits(n))
    ensures LostBits(n) > 0 ==> 0x10_0000_0000_0000 * Pow2(LostBits(n)) <= n
    decreases n
  {
    if n >= TWO_53 {
      LostBitsFit(n / 2);
    }
  }

  lemma ProductGrows(a: nat, b: nat, unit: nat)
    requires a <= b
    ensures a * unit <= b * unit
  {
  }

  lemma QuotientBelow(n: nat, unit: nat, bound: nat)
    requires unit > 0 && n < bound * unit
    ensures n / unit < bound
  {
    assert n / unit * unit <= n;
    if bound <= n / unit { ProductGrows(bound, n / unit, unit); }
  }

  lemma ChoiceIsNearest(n: nat, q: nat, rest: nat, product: nat, unit: nat)
    requires rest < unit && n == product + rest
    ensures if 2 * rest > unit || (2 * rest == unit && q % 2 == 1) then Nearest(n, product + unit, unit, q + 1)
      else Nearest(n, product, unit, q)
  {
  }

  lemma Division(n: nat, unit: nat)
    requires unit > 0
    ensures n == n / unit * unit + n % unit && n % unit < unit
    ensures (n / unit + 1) * unit == n / unit * unit + unit
    ensures unit == 1 ==> n / unit == n && n % unit == 0
  {
  }

  lemma RoundedIsNearest(n: nat, unit: nat) returns (m: nat)
    requires unit > 0
    ensures RoundHalfEven(n, unit) == m * unit && (m == n / unit || m == n / unit + 1)
    ensures Nearest(n, m * unit, unit, m)
    ensures unit == 1 ==> m == n
  {
    hide Nearest;
    var q, rest := n / unit, n % unit;
    Division(n, unit);
    ChoiceIsNearest(n, q, rest, q * unit, unit);
    m := if 2 * rest > unit || (2 * rest == unit && q % 2 == 1) then q + 1 else q;
  }

  /** The cast of an integer to a double rounds its magnitude. */
  lemma AsDoubleRounds(i: int) returns (m: nat, e: nat)
    ensures Rounds(Abs(i), m, e)
    ensures AsDouble(i) == Finite((if i < 0 then -(m * Pow2(e)) else m * Pow2(e)) as real)
  {
    var n := Abs(i);
    e := LostBits(n);
    LostBitsFit(n);
    m := RoundedIsNearest(n, Pow2(e));
    QuotientBelow(n, Pow2(e), TWO_53);
  }

  /** There is one rounded number only. */
  lemma RoundsOnce(n: nat, m: nat, e: nat, m': nat, e': nat)
    requires Rounds(n, m, e) && Rounds(n, m', e')
    ensures m == m' && e == e'
  {
    if e < e' {
      Pow2Grows(e, e');
    } else if e' < e {
      Pow2Grows(e', e);
    } else {
      NearestOnce(n, m, m', Pow2(e));
    }
  }

  lemma NearestOnce(n: nat, m: nat, m': nat, unit: nat)
    requires unit > 0
    requires Nearest(n, m * unit, unit, m) && Nearest(n, m' * unit, unit, m')
    ensures m == m'
  {
    if m < m' {
      Apart(m, m', unit);
    } else if m' < m {
      Apart(m', m, unit);
    }
  }

  /** Multiples are at least one unit apart, and exactly one only if they are neighbours. */
  lemma Apart(m: nat, m': nat, unit: nat)
    requires unit > 0 && m < m'
    ensures m' * unit >= m * unit + unit
    ensures m' * unit == m * unit + unit ==> m' == m + 1
  {
    var k := m' - m;
    assert m' * unit == m * unit + k * unit;
    ProductGrows(1, k, unit);
    if k >= 2 { ProductGrows(2, k, unit); }
  }

  lemma {:induction false} Pow2Grows(e: nat, e': nat)
    requires e < e'
    ensures 2 * Pow2(e) <= Pow2(e')
    decreases e'
  {
    if e < e' - 1 {
      Pow2Grows(e, e' - 1);
    }
  }

  /** A signed integer and a double are equal if the double is the rounded integer. */
  lemma EqOfIntAndDouble(i: int64, x: real, m: nat, e: nat)
    requires Rounds(Abs(i), m, e)
    ensures Eq(Int(i), Float(Finite(x))) <==> x == (if i < 0 then -(m * Pow2(e)) else m * Pow2(e)) as real
    ensures Eq(Float(Finite(x)), Int(i)) <==> Eq(Int(i), Float(Finite(x)))
    ensures !Eq(Int(i), Float(PosInfinity)) && !Eq(Int(i), Float(NegInfinity))
  {
    var m', e' := AsDoubleRounds(i);
    RoundsOnce(Abs(i), m, e, m', e');
  }

  /** So are an unsigned one and a double. */
  lemma EqOfUintAndDouble(u: uint64, x: real, m: nat, e: nat)
    requires Rounds(u, m, e)
    ensures Eq(Uint(u), Float(Finite(x))) <==> x == (m * Pow2(e)) as real
    ensures Eq(Float(Finite(x)), Uint(u)) <==> Eq(Uint(u), Float(Finite(x)))
    ensures !Eq(Uint(u), Float(PosInfinity)) && !Eq(Uint(u), Float(NegInfinity))
  {
    var m', e' := AsDoubleRounds(u);
    RoundsOnce(u, m, e, m', e');
  }
}
