/** JSON values and the equality the library defines on them.  A `char` stands for one byte. */
module JsonValue {

  type int64 = i: int | -0x8000_0000_0000_0000 <= i < 0x8000_0000_0000_0000
  type uint64 = u: int | 0 <= u < 0x1_0000_0000_0000_0000

  /** A double precision number; the two zeros, equal to each other in C++, are one value here. */
  datatype Double = NaN | PosInfinity | NegInfinity | Finite(r: real)

  datatype Json =
    | Null
    | Bool(b: bool)
    | Int(i: int64)
    | Uint(u: uint64)
    | Float(f: Double)
    | Str(s: string)
    | Arr(a: seq<Json>)
    | Obj(o: map<string, Json>)
  {
    predicate Container?() {
      Arr? || Obj?
    }

    predicate Primitive?() {
      !Container?()
    }

    /** `type()`. */
    function Type(): ValueType {
      match this
      case Null => NullType
      case Bool(_) => BooleanType
      case Int(_) => IntegerType
      case Uint(_) => UnsignedType
      case Float(_) => FloatType
      case Str(_) => StringType
      case Arr(_) => ArrayType
      case Obj(_) => ObjectType
    }
  }

  datatype ValueType =
    NullType | BooleanType | IntegerType | UnsignedType | FloatType | StringType | ArrayType | ObjectType

  // ----- equality -----

  /** `static_cast` of a 64-bit unsigned to a 64-bit signed integer. */
  function AsInt64(u: uint64): int64 {
    if u < 0x8000_0000_0000_0000 then u else u - 0x1_0000_0000_0000_0000
  }

  const TWO_53: int := 0x20_0000_0000_0000

  /** The number of low bits a 53-bit significand cannot hold. */
  function LostBits(n: nat): nat {
    if n < TWO_53 then 0 else 1 + LostBits(n / 2)
  }

  function Pow2(e: nat): (p: nat)
    ensures p > 0
  {
    if e == 0 then 1 else 2 * Pow2(e - 1)
  }

  /** Round to the nearest multiple of `unit`, ties to the even multiple. */
  function RoundHalfEven(n: nat, unit: nat): nat
    requires unit > 0
  {
    var q, rest := n / unit, n % unit;
    if 2 * rest > unit || (2 * rest == unit && q % 2 == 1) then (q + 1) * unit else q * unit
  }

  /** `static_cast` of an integer to a double: 53 significant bits, round to nearest even. */
  function AsDouble(i: int): Double {
    var n: nat := if i < 0 then -i else i;
    var rounded: int := RoundHalfEven(n, Pow2(LostBits(n)));
    Finite((if i < 0 then -rounded else rounded) as real)
  }

  predicate EqDouble(a: Double, b: Double) {
    a == b && !a.NaN?
  }

  /** `operator==`. */
  predicate Eq(lhs: Json, rhs: Json) {
    match (lhs, rhs)
    case (Arr(x), Arr(y)) => |x| == |y| && forall i | 0 <= i < |x| :: Eq(x[i], y[i])
    case (Obj(x), Obj(y)) => x.Keys == y.Keys && forall k | k in x :: Eq(x[k], y[k])
    case (Null, Null) => true
    case (Str(x), Str(y)) => x == y
    case (Bool(x), Bool(y)) => x == y
    case (Int(x), Int(y)) => x == y
    case (Uint(x), Uint(y)) => x == y
    case (Float(x), Float(y)) => EqDouble(x, y)
    case (Int(x), Float(y)) => EqDouble(AsDouble(x), y)
    case (Float(x), Int(y)) => EqDouble(x, AsDouble(y))
    case (Uint(x), Float(y)) => EqDouble(AsDouble(x), y)
    case (Float(x), Uint(y)) => EqDouble(x, AsDouble(y))
    case (Uint(x), Int(y)) => AsInt64(x) == y
    case (Int(x), Uint(y)) => x == AsInt64(y)
    case _ => false
  }

  /** No NaN anywhere in the value. */
  predicate NaNFree(j: Json) {
    match j
    case Float(f) => !f.NaN?
    case Arr(a) => forall i | 0 <= i < |a| :: NaNFree(a[i])
    case Obj(o) => forall k | k in o :: NaNFree(o[k])
    case _ => true
  }

  /** A value equals itself exactly when it holds no NaN. */
  lemma {:induction false} EqReflexive(j: Json)
    ensures Eq(j, j) <==> NaNFree(j)
  {
    match j
    case Arr(a) =>
      forall i | 0 <= i < |a| ensures Eq(a[i], a[i]) <==> NaNFree(a[i]) { EqReflexive(a[i]); }
    case Obj(o) =>
      forall k | k in o ensures Eq(o[k], o[k]) <==> NaNFree(o[k]) { EqReflexive(o[k]); }
    case _ =>
  }

  /** Whatever compares equal to something holds no NaN. */
  lemma {:induction false} EqIsNaNFree(x: Json, y: Json)
    requires Eq(x, y)
    ensures NaNFree(x) && NaNFree(y)
  {
    match (x, y)
    case (Arr(a), Arr(b)) =>
      forall i | 0 <= i < |a| ensures NaNFree(a[i]) && NaNFree(b[i]) { EqIsNaNFree(a[i], b[i]); }
    case (Obj(a), Obj(b)) =>
      forall k | k in a ensures NaNFree(a[k]) && NaNFree(b[k]) { EqIsNaNFree(a[k], b[k]); }
    case _ =>
  }

  // ----- the order of object members -----

  /** `std::string`'s `operator<`: byte-wise lexicographic order. */
  predicate Less(a: string, b: string) {
    b != [] && (a == [] || a[0] < b[0] || (a[0] == b[0] && Less(a[1..], b[1..])))
  }

  /** At the first byte where they differ the smaller one decides; a text comes before its continuations. */
  predicate DiffersAt(a: string, b: string, i: nat) {
    && i <= |a| && i < |b| && a[..i] == b[..i]
    && (i == |a| || (i < |a| && a[i] as int < b[i] as int))
  }

  lemma {:induction false} LessExactly(a: string, b: string)
    ensures Less(a, b) <==> exists i: nat :: DiffersAt(a, b, i)
  {
    forall i: nat | DiffersAt(a, b, i) && i > 0 ensures a != [] && b != [] && a[0] == b[0] {
      assert a[0] == a[..i][0] && b[0] == b[..i][0];
    }
    if a != [] && b != [] && a[0] == b[0] {
      LessExactly(a[1..], b[1..]);
      assert a == [a[0]] + a[1..] && b == [b[0]] + b[1..];
      if i: nat :| DiffersAt(a[1..], b[1..], i) {
        assert a[..i + 1] == [a[0]] + a[1..][..i] && b[..i + 1] == [b[0]] + b[1..][..i];
        assert DiffersAt(a, b, i + 1);
      }
      if i: nat :| DiffersAt(a, b, i) {
        assert i > 0;
        assert a[..i] == [a[0]] + a[1..][..i - 1] && b[..i] == [b[0]] + b[1..][..i - 1];
        assert a[..i][1..] == a[1..][..i - 1] && b[..i][1..] == b[1..][..i - 1];
        assert DiffersAt(a[1..], b[1..], i - 1);
      }
    } else if b != [] && Less(a, b) {
      assert DiffersAt(a, b, 0);
    }
  }

  lemma {:induction false} LessTransitive(a: string, b: string, c: string)
    requires Less(a, b) && Less(b, c)
    ensures Less(a, c)
  {
    if a != [] && a[0] == b[0] && b[0] == c[0] {
      LessTransitive(a[1..], b[1..], c[1..]);
    }
  }

  lemma {:induction false} LessTotal(a: string, b: string)
    ensures Less(a, b) || a == b || Less(b, a)
  {
    if a != [] && b != [] && a[0] == b[0] {
      LessTotal(a[1..], b[1..]);
      assert a == [a[0]] + a[1..] && b == [b[0]] + b[1..];
    }
  }

  lemma {:induction false} LessIrreflexive(a: string)
    ensures !Less(a, a)
  {
    if a != [] {
      LessIrreflexive(a[1..]);
    }
  }

  predicate Least(s: set<string>, k: string) {
    k in s && forall x | x in s :: x == k || Less(k, x)
  }

  lemma {:induction false} LeastExists(s: set<string>)
    requires s != {}
    ensures exists k :: Least(s, k)
    decreases |s|
  {
    var k :| k in s;
    var rest := s - {k};
    if rest == {} {
      assert s == {k};
      assert Least(s, k);
    } else {
      LeastExists(rest);
      var m :| Least(rest, m);
      LessTotal(k, m);
      if Less(k, m) {
        forall x | x in s ensures x == k || Less(k, x) {
          if x != k && x != m { LessTransitive(k, m, x); }
        }
        assert Least(s, k);
      } else {
        assert Least(s, m);
      }
    }
  }

  lemma LeastUnique(s: set<string>, k: string, m: string)
    requires Least(s, k) && Least(s, m)
    ensures k == m
  {
    if k != m {
      LessTransitive(k, m, k);
      LessIrreflexive(k);
    }
  }

  /** The key a `std::map` iteration starts with. */
  function MinKey(s: set<string>): (k: string)
    requires s != {}
    ensures Least(s, k)
  {
    LeastExists(s);
    assert forall k, m | Least(s, k) && Least(s, m) :: k == m by {
      forall k, m | Least(s, k) && Least(s, m) ensures k == m { LeastUnique(s, k, m); }
    }
    var k :| k in s && Least(s, k);
    k
  }

  predicate Sorted(ks: seq<string>) {
    forall i, j | 0 <= i < j < |ks| :: Less(ks[i], ks[j])
  }

  /** The keys in the order in which a `std::map` iterates over them. */
  function SortedKeys(s: set<string>): (ks: seq<string>)
    ensures Sorted(ks)
    ensures forall k :: k in ks <==> k in s
    decreases |s|
  {
    if s == {} then []
    else
      var k := MinKey(s);
      var rest := SortedKeys(s - {k});
      assert forall i | 0 <= i < |rest| :: rest[i] in rest && Less(k, rest[i]);
      [k] + rest
  }

  lemma SortedDistinct(ks: seq<string>, i: nat, j: nat)
    requires Sorted(ks) && i < j < |ks|
    ensures ks[i] != ks[j]
  {
    LessIrreflexive(ks[i]);
  }
}
