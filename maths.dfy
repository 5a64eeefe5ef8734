/** Integer helpers of the shared library: Euclid's greatest common divisor,
    least common multiples, Manhattan distance, the shoelace area and the
    repeating-pattern detector. The generic `INumber<T>` code is modelled over
    unbounded `int`; C#'s truncating `%` and `/` are written out. */
module Maths {
  import opened Wrappers

  /** The exceptions these helpers can raise. */
  datatype MathError =
    | ArgumentError       // System.ArgumentException
    | InvalidOperation    // System.InvalidOperationException (First/Aggregate on an empty sequence)
    | DivideByZero        // System.DivideByZeroException

  /** A C# `(T x, T y)` tuple. */
  type Point = (int, int)

  function Abs(x: int): (r: nat)
    ensures r == x || r == -x
  {
    if x < 0 then -x else x
  }

  // ---------------------------------------------------------------------------
  // C# integer division and remainder (truncating toward zero)

  /** C# `a / b`: the quotient rounded toward zero. */
  function CsQuot(a: int, b: int): (q: int)
    requires b != 0
    ensures Abs(q) == Abs(a) / Abs(b)
  {
    var x, y := Abs(a), Abs(b);
    QuotientSign(x, y);
    if (a < 0) == (b < 0) then x / y else -(x / y)
  }

  /** The quotient of naturals is a natural. */
  lemma QuotientSign(x: nat, y: nat)
    requires y > 0
    ensures x / y >= 0
  {
  }

  /** C# `a % b`: the remainder takes the sign of the dividend. */
  function CsRem(a: int, b: int): (r: int)
    requires b != 0
    ensures a == b * CsQuot(a, b) + r
    ensures Abs(r) < Abs(b)
    ensures a >= 0 ==> r >= 0
    ensures a <= 0 ==> r <= 0
  {
    QuotRem(a, b);
    var m := Abs(a) % Abs(b);
    if a >= 0 then m else -m
  }

  /** Euclid's division of the magnitudes, with the signs put back. */
  lemma QuotRem(a: int, b: int)
    requires b != 0
    ensures 0 <= Abs(a) % Abs(b) < Abs(b)
    ensures a >= 0 ==> a == b * CsQuot(a, b) + Abs(a) % Abs(b)
    ensures a < 0 ==> a == b * CsQuot(a, b) - Abs(a) % Abs(b)
  {
    var x: int, y: int := Abs(a), Abs(b);
    var q, m := x / y, x % y;
    DivMod(x, y);
    var p := Mul(y, q);
    if (a < 0) == (b < 0) {
      assert CsQuot(a, b) == q;
      if b < 0 {
        NegateLeft(y, q);
        assert b * q == -p;
        assert a == -p - m;
      } else {
        assert a == p + m;
      }
    } else {
      assert CsQuot(a, b) == -q;
      if b < 0 {
        NegateBoth(y, q);
        assert b * -q == p;
        assert a == p + m;
      } else {
        NegateRight(y, q);
        assert b * -q == -p;
        assert a == -p - m;
      }
    }
  }

  /** Euclid's division of naturals. */
  lemma DivMod(x: nat, y: nat)
    requires y > 0
    ensures x == Mul(y, x / y) + x % y && 0 <= x % y < y
  {
  }

  lemma NegateLeft(y: int, q: int)
    ensures (-y) * q == -(y * q)
  {
  }

  lemma NegateRight(y: int, q: int)
    ensures y * -q == -(y * q)
  {
  }

  lemma NegateBoth(y: int, q: int)
    ensures (-y) * -q == y * q
  {
  }

  // ---------------------------------------------------------------------------
  // Divisibility

  function Mul(a: int, b: int): int { a * b }

  /** `d` divides `n`: `n` is `d` times some integer (zero divides only zero). */
  ghost predicate Divides(d: int, n: int) {
    exists k :: Mul(d, k) == n
  }

  lemma DividesIntro(d: int, n: int, k: int)
    requires n == d * k
    ensures Divides(d, n)
  {
    assert Mul(d, k) == n;
  }

  /** The cofactor of a divisor. */
  ghost function Cofactor(d: int, n: int): (k: int)
    requires Divides(d, n)
    ensures n == d * k
  {
    var k :| Mul(d, k) == n; k
  }

  /** A common divisor of `x` and `y` divides `x - y * q`. */
  lemma DividesCombination(d: int, x: int, y: int, q: int)
    requires Divides(d, x) && Divides(d, y)
    ensures Divides(d, x - y * q)
  {
    var kx, ky := Cofactor(d, x), Cofactor(d, y);
    assert y * q == d * (ky * q);
    assert x - y * q == d * (kx - ky * q);
    DividesIntro(d, x - y * q, kx - ky * q);
  }

  lemma DividesTransitive(a: int, b: int, c: int)
    requires Divides(a, b) && Divides(b, c)
    ensures Divides(a, c)
  {
    var kb, kc := Cofactor(a, b), Cofactor(b, c);
    assert c == a * (kb * kc);
    DividesIntro(a, c, kb * kc);
  }

  // ---------------------------------------------------------------------------
  // Greatest common divisor

  /** Euclid's algorithm as written: `b == 0 ? a : Gcd(b, a % b)` with C#'s
      remainder, over all integers. The result divides both arguments, and it
      is zero only for two zero arguments; its sign follows the arguments. */
  function GreatestCommonDivisor(a: int, b: int): (g: int)
    ensures Divides(g, a) && Divides(g, b)
    ensures g == 0 <==> a == 0 && b == 0
    ensures a >= 0 && b >= 0 ==> g >= 0
    decreases Abs(b)
  {
    if b == 0 then
      DividesIntro(a, a, 1);
      DividesIntro(a, 0, 0);
      a
    else
      var r := CsRem(a, b);
      var g := GreatestCommonDivisor(b, r);
      assert a == b * CsQuot(a, b) + r;
      DividesCombination(g, r, b, -CsQuot(a, b));
      assert r - b * -CsQuot(a, b) == a;
      g
  }

  /** Every common divisor of `a` and `b` divides their greatest common divisor. */
  lemma {:induction false} GcdIsGreatest(a: int, b: int, d: int)
    requires Divides(d, a) && Divides(d, b)
    ensures Divides(d, GreatestCommonDivisor(a, b))
    decreases Abs(b)
  {
    if b != 0 {
      DividesCombination(d, a, b, CsQuot(a, b));
      GcdIsGreatest(b, CsRem(a, b), d);
    }
  }

  /** Bezout's identity for the recursion: the result is an integer
      combination of the arguments. */
  lemma {:induction false} GcdBezout(a: int, b: int) returns (s: int, t: int)
    ensures GreatestCommonDivisor(a, b) == a * s + b * t
    decreases Abs(b)
  {
    if b == 0 {
      s, t := 1, 0;
    } else {
      var q, r := CsQuot(a, b), CsRem(a, b);
      var s', t' := GcdBezout(b, r);
      var g := GreatestCommonDivisor(b, r);
      assert GreatestCommonDivisor(a, b) == g;
      assert g == b * s' + r * t';
      assert r == a - b * q;
      Distribute(a, b * q, t');
      Associate(b, q, t');
      Distribute'(b, s', q * t');
      s, t := t', s' - q * t';
    }
  }

  // ---------------------------------------------------------------------------
  // Least common multiple

  /** `|a * b| / Gcd(a, b)` with C#'s truncating division; Gcd(0, 0) is zero,
      which raises DivideByZeroException. */
  function LeastCommonMultiple(a: int, b: int): (r: Result<int, MathError>)
    ensures r.Failure? <==> a == 0 && b == 0
    ensures r.Failure? ==> r.error == DivideByZero
  {
    var g := GreatestCommonDivisor(a, b);
    if g == 0 then Failure(DivideByZero) else Success(CsQuot(Abs(a * b), g))
  }

  /** For positive arguments the result is a positive common multiple of both,
      it times the gcd is `a * b`, and it divides every common multiple. */
  lemma LcmOfPositives(a: int, b: int)
    requires a > 0 && b > 0
    ensures LeastCommonMultiple(a, b).Success?
    ensures var l := LeastCommonMultiple(a, b).value;
      && l > 0 && Divides(a, l) && Divides(b, l)
      && l * GreatestCommonDivisor(a, b) == a * b
      && forall m :: Divides(a, m) && Divides(b, m) ==> Divides(l, m)
  {
    var g := GreatestCommonDivisor(a, b);
    assert g > 0;
    var ka, kb := Cofactor(g, a), Cofactor(g, b);
    LcmCofactors(a, b, g, ka, kb);
    var l := LeastCommonMultiple(a, b).value;
    assert l == (a * b) / g;
    assert l == ka * b by { DivExact(a * b, g, ka * b); }
    DividesIntro(b, l, ka);
    DividesIntro(a, l, kb);
    forall m | Divides(a, m) && Divides(b, m) ensures Divides(l, m) {
      LcmDividesCommonMultiple(a, b, m);
    }
  }

  /** With `a == g ka` and `b == g kb`, the product `ka b` is positive,
      times `g` it is `a b`, and it equals `a kb`. */
  lemma LcmCofactors(a: int, b: int, g: int, ka: int, kb: int)
    requires a > 0 && b > 0 && g > 0 && a == g * ka && b == g * kb
    ensures a * b > 0 && a * b == g * (ka * b) && (ka * b) * g == a * b
    ensures ka * b > 0 && ka * b == a * kb
  {
    MulAtLeast(a, b);
    MulAtLeast(b, ka);
    ScaleCofactor(a, b, g, ka);
    assert ka * b == ka * (g * kb) == (g * ka) * kb;
  }

  lemma DivExact(n: int, d: int, k: int)
    requires d > 0 && n == d * k
    ensures n / d == k
  {
    var q, r := n / d, n % d;
    assert d * (k - q) == r;
    if k - q >= 1 {
      MulAtLeast(d, k - q);
    } else if k - q <= -1 {
      MulAtLeast(d, q - k);
    }
  }

  lemma Distribute(x: int, y: int, z: int)
    ensures (x - y) * z == x * z - y * z
  {
  }

  lemma Distribute'(x: int, y: int, z: int)
    ensures x * (y - z) == x * y - x * z
  {
  }

  lemma Associate(x: int, y: int, z: int)
    ensures (x * y) * z == x * (y * z)
  {
  }

  lemma Rearrange(x: int, y: int, z: int, w: int)
    ensures (x * y) * (z * w) == (z * x) * (y * w)
  {
  }

  lemma MulAtLeast(d: int, x: int)
    requires d > 0 && x >= 1
    ensures d * x >= d
  {
    assert d * x == d + d * (x - 1);
  }

  lemma LcmDividesCommonMultiple(a: int, b: int, m: int)
    requires a > 0 && b > 0 && Divides(a, m) && Divides(b, m)
    ensures LeastCommonMultiple(a, b).Success?
    ensures Divides(LeastCommonMultiple(a, b).value, m)
  {
    var g := GreatestCommonDivisor(a, b);
    var s, t := GcdBezout(a, b);
    var x, y := Cofactor(a, m), Cofactor(b, m);
    var k := Cofactor(g, a);
    var l := k * b;
    ScaleCofactor(a, b, g, k);
    assert l == LeastCommonMultiple(a, b).value by {
      DivExact(a * b, g, l);
    }
    var c := y * s + x * t;
    CommonMultipleIsMultiple(a, b, g, l, s, t, x, y, m);
    DividesIntro(l, m, c);
  }

  lemma ScaleCofactor(a: int, b: int, g: int, k: int)
    requires a == g * k
    ensures a * b == g * (k * b)
  {
  }

  /** With `g == a s + b t` and `l g == a b`, a common multiple `m` of `a`
      and `b` is a multiple of `l`: `m g == a b (y s + x t)`. */
  lemma CommonMultipleIsMultiple(a: int, b: int, g: int, l: int, s: int, t: int, x: int, y: int, m: int)
    requires g != 0 && g == a * s + b * t && a * b == g * l
    requires m == a * x && m == b * y
    ensures m == l * (y * s + x * t)
  {
    var c := y * s + x * t;
    assert m * g == m * (a * s) + m * (b * t);
    assert m * (a * s) == (a * b) * (y * s) by { Rearrange(b, y, a, s); }
    assert m * (b * t) == (a * b) * (x * t) by { Rearrange(a, x, b, t); }
    assert m * g == (a * b) * c;
    assert (a * b) * c == g * (l * c);
    assert g * (m - l * c) == 0;
  }

  /** `inputs.Aggregate(LeastCommonMultiple)`: a left fold seeded with the
      first input; an empty input raises InvalidOperationException. */
  function LeastCommonMultipleOf(inputs: seq<int>): (r: Result<int, MathError>)
    ensures inputs == [] ==> r == Failure(InvalidOperation)
    ensures |inputs| == 1 ==> r == Success(inputs[0])
  {
    if inputs == [] then Failure(InvalidOperation) else FoldLcm(inputs[0], inputs[1..])
  }

  function FoldLcm(acc: int, rest: seq<int>): Result<int, MathError>
    decreases |rest|
  {
    if rest == [] then Success(acc)
    else match LeastCommonMultiple(acc, rest[0])
      case Failure(e) => Failure(e)
      case Success(l) => FoldLcm(l, rest[1..])
  }

  /** For positive inputs the fold succeeds with a positive common multiple of
      every input that divides every other common multiple. */
  lemma LcmOfListOfPositives(inputs: seq<int>)
    requires |inputs| > 0
    requires forall i :: 0 <= i < |inputs| ==> inputs[i] > 0
    ensures LeastCommonMultipleOf(inputs).Success?
    ensures var l := LeastCommonMultipleOf(inputs).value;
      && l > 0
      && (forall i :: 0 <= i < |inputs| ==> Divides(inputs[i], l))
      && forall m :: (forall i :: 0 <= i < |inputs| ==> Divides(inputs[i], m)) ==> Divides(l, m)
  {
    var done := [inputs[0]];
    DividesIntro(inputs[0], inputs[0], 1);
    forall m | (forall i :: 0 <= i < |done| ==> Divides(done[i], m)) ensures Divides(inputs[0], m) {
      assert done[0] == inputs[0];
    }
    FoldLcmOfPositives(inputs[0], inputs[1..], done);
    assert [inputs[0]] + inputs[1..] == inputs;
  }

  lemma {:induction false} FoldLcmOfPositives(acc: int, rest: seq<int>, done: seq<int>)
    requires acc > 0
    requires forall i :: 0 <= i < |rest| ==> rest[i] > 0
    requires forall i :: 0 <= i < |done| ==> Divides(done[i], acc)
    requires forall m :: (forall i :: 0 <= i < |done| ==> Divides(done[i], m)) ==> Divides(acc, m)
    ensures FoldLcm(acc, rest).Success?
    ensures var l := FoldLcm(acc, rest).value;
      && l > 0
      && (forall i :: 0 <= i < |done + rest| ==> Divides((done + rest)[i], l))
      && forall m :: (forall i :: 0 <= i < |done + rest| ==> Divides((done + rest)[i], m)) ==> Divides(l, m)
    decreases |rest|
  {
    if rest != [] {
      LcmOfPositives(acc, rest[0]);
      var l := LeastCommonMultiple(acc, rest[0]).value;
      var done' := done + [rest[0]];
      forall i | 0 <= i < |done'| ensures Divides(done'[i], l) {
        if i < |done| { DividesTransitive(done[i], acc, l); }
      }
      forall m | (forall i :: 0 <= i < |done'| ==> Divides(done'[i], m)) ensures Divides(l, m) {
        assert forall i :: 0 <= i < |done| ==> Divides(done[i], m) by {
          forall i | 0 <= i < |done| ensures Divides(done[i], m) { assert done'[i] == done[i]; }
        }
        assert Divides(rest[0], m) by { assert done'[|done|] == rest[0]; }
      }
      FoldLcmOfPositives(l, rest[1..], done');
      assert done' + rest[1..] == done + rest;
    } else {
      assert done + rest == done;
    }
  }

  // ---------------------------------------------------------------------------
  // Manhattan distance

  /** `|a.x - b.x| + |a.y - b.y|`: non-negative and zero exactly for equal points. */
  function GetManhattanDistance(a: Point, b: Point): (d: nat)
    ensures d == 0 <==> a == b
  {
    Abs(a.0 - b.0) + Abs(a.1 - b.1)
  }

  lemma ManhattanSymmetric(a: Point, b: Point)
    ensures GetManhattanDistance(a, b) == GetManhattanDistance(b, a)
  {
  }

  lemma ManhattanTriangle(a: Point, b: Point, c: Point)
    ensures GetManhattanDistance(a, c) <= GetManhattanDistance(a, b) + GetManhattanDistance(b, c)
  {
  }

  // ---------------------------------------------------------------------------
  // Shoelace area

  /** Sum of `p[i].x * p[i + 1].y` over consecutive vertices. */
  function DownSum(p: seq<Point>): int
  {
    if |p| < 2 then 0 else p[0].0 * p[1].1 + DownSum(p[1..])
  }

  /** Sum of `p[i].y * p[i + 1].x` over consecutive vertices. */
  function UpSum(p: seq<Point>): int
  {
    if |p| < 2 then 0 else p[0].1 * p[1].0 + UpSum(p[1..])
  }

  /** The area of a closed polygon (first vertex repeated at the end):
      `|sum1 - sum2| / 2`. An empty list raises InvalidOperationException
      (from `First()`), an open one ArgumentException. */
  function CalculateAreaShoeLace(polygon: seq<Point>): (r: Result<nat, MathError>)
    ensures r.Success? <==> |polygon| > 0 && polygon[0] == polygon[|polygon| - 1]
    ensures polygon == [] ==> r == Failure(InvalidOperation)
    ensures polygon != [] && polygon[0] != polygon[|polygon| - 1] ==> r == Failure(ArgumentError)
  {
    if polygon == [] then Failure(InvalidOperation)
    else if polygon[0] != polygon[|polygon| - 1] then Failure(ArgumentError)
    else Success(Abs(DownSum(polygon) - UpSum(polygon)) / 2)
  }

  function Reverse<X>(s: seq<X>): (r: seq<X>)
    ensures |r| == |s|
    ensures forall i :: 0 <= i < |s| ==> r[i] == s[|s| - 1 - i]
  {
    if s == [] then [] else Reverse(s[1..]) + [s[0]]
  }

  lemma {:induction false} DownSumSnoc(p: seq<Point>, v: Point)
    requires |p| > 0
    ensures DownSum(p + [v]) == DownSum(p) + p[|p| - 1].0 * v.1
    decreases |p|
  {
    if |p| == 1 {
      assert (p + [v])[1..] == [v];
    } else {
      assert (p + [v])[1..] == p[1..] + [v];
      DownSumSnoc(p[1..], v);
    }
  }

  lemma {:induction false} UpSumSnoc(p: seq<Point>, v: Point)
    requires |p| > 0
    ensures UpSum(p + [v]) == UpSum(p) + p[|p| - 1].1 * v.0
    decreases |p|
  {
    if |p| == 1 {
      assert (p + [v])[1..] == [v];
    } else {
      assert (p + [v])[1..] == p[1..] + [v];
      UpSumSnoc(p[1..], v);
    }
  }

  /** Reading the vertices backwards swaps the two shoelace sums. */
  lemma {:induction false} ReverseSwapsSums(p: seq<Point>)
    ensures DownSum(Reverse(p)) == UpSum(p)
    ensures UpSum(Reverse(p)) == DownSum(p)
    decreases |p|
  {
    if |p| >= 2 {
      var rest := Reverse(p[1..]);
      ReverseSwapsSums(p[1..]);
      DownSumSnoc(rest, p[0]);
      UpSumSnoc(rest, p[0]);
      assert rest[|rest| - 1] == p[1];
    } else if |p| == 1 {
      assert Reverse(p) == p;
    }
  }

  /** The area does not depend on the direction in which the vertices are listed. */
  lemma ShoeLaceReversal(polygon: seq<Point>)
    ensures CalculateAreaShoeLace(Reverse(polygon)) == CalculateAreaShoeLace(polygon)
  {
    ReverseSwapsSums(polygon);
    if polygon != [] {
      assert Reverse(polygon)[0] == polygon[|polygon| - 1];
      assert Reverse(polygon)[|polygon| - 1] == polygon[0];
    }
  }

  /** The unit square listed counter-clockwise has area 1 (the 1/2 from the
      formula is an exact division here). */
  lemma ShoeLaceUnitSquare()
    ensures CalculateAreaShoeLace([(0, 0), (1, 0), (1, 1), (0, 1), (0, 0)]) == Success(1)
  {
  }

  // ---------------------------------------------------------------------------
  // Repeating-pattern detection

  /** `s` is `s[..i]` repeated a whole number of times: `i` divides `|s|`, and
      dropping the first `i` elements leaves the same sequence as dropping the
      last `i` (every element equals the one `i` places before it). */
  ghost predicate Periodic<T>(s: seq<T>, i: int)
  {
    0 < i <= |s| && |s| % i == 0 && s[i..] == s[..|s| - i]
  }

  /** Some length `1 <= i <= |s| / 2` makes `s` periodic (two repetitions at least). */
  ghost predicate HasPattern<T>(s: seq<T>)
  {
    exists i :: 1 <= i <= |s| / 2 && Periodic(s, i)
  }

  /** `Enumerable.Repeat(p, n).SelectMany(x => x)`. */
  function Repeat<T>(p: seq<T>, n: nat): (r: seq<T>)
    ensures |r| == |p| * n
  {
    if n == 0 then [] else p + Repeat(p, n - 1)
  }

  lemma {:induction false} RepeatSnoc<T>(p: seq<T>, n: nat)
    ensures Repeat(p, n + 1) == Repeat(p, n) + p
    decreases n
  {
    if n > 0 {
      RepeatSnoc(p, n - 1);
    }
  }

  /** A repetition shifted by one block is itself minus its last block. */
  lemma RepeatShifts<T>(p: seq<T>, n: nat)
    requires n >= 1
    ensures Repeat(p, n)[|p|..] == Repeat(p, n)[..|p| * n - |p|]
  {
    RepeatSnoc(p, n - 1);
    assert |Repeat(p, n - 1)| == |p| * n - |p|;
  }

  lemma DivisibleIff(len: nat, i: int)
    requires i > 0
    ensures len % i == 0 <==> len == i * (len / i)
    ensures len / i >= 0
  {
  }

  /** A sequence of length `i * n` that shifts onto itself by `i` is its
      first block repeated `n` times. */
  lemma ShiftPeriodicIsRepeat<T>(s: seq<T>, i: int, n: nat)
    requires 0 < i && n >= 1 && |s| == i * n
    requires s[i..] == s[..|s| - i]
    ensures s == Repeat(s[..i], n)
  {
    ShiftCore(s, s[..i], n);
  }

  /** The induction behind `ShiftPeriodicIsRepeat`: peel the block `p` off
      the front and use the shift on the rest. */
  lemma {:induction false} ShiftCore<T>(s: seq<T>, p: seq<T>, n: nat)
    requires |p| > 0 && n >= 1 && |s| == |Repeat(p, n)| && s[..|p|] == p
    requires s[|p|..] == s[..|s| - |p|]
    ensures s == Repeat(p, n)
    decreases n
  {
    var i := |p|;
    var t := s[i..];
    assert s == p + t;
    var rest := Repeat(p, n - 1);
    assert Repeat(p, n) == p + rest;
    if n > 1 {
      assert rest == p + Repeat(p, n - 2);
      assert |t| == |rest| && t[..i] == p && t[i..] == t[..|t| - i] by {
        var u := s[..|s| - i];
        assert t[..i] == u[..i] == s[..i];
        assert t[i..] == u[i..];
      }
      ShiftCore(t, p, n - 1);
    } else {
      assert t == [];
    }
  }



  /** The source's test, `s.SequenceEqual(Repeat(s.Take(i), |s| / i).Take(|s|))`,
      holds exactly when `s` is `i`-periodic (the repetition is never longer
      than `s`, so `Take(|s|)` keeps all of it). */
  lemma RepetitionTestIsPeriodic<T>(s: seq<T>, i: int)
    requires 1 <= i <= |s|
    ensures (s == Repeat(s[..i], |s| / i)) <==> Periodic(s, i)
  {
    var n := |s| / i;
    DivisibleIff(|s|, i);
    if s == Repeat(s[..i], n) {
      assert |s| == |s[..i]| * n;
      RepeatShifts(s[..i], n);
    }
    if Periodic(s, i) {
      ShiftPeriodicIsRepeat(s, i, n);
    }
  }

  /** The smallest `i` in `1..|s| / 2` for which `s` repeats with period `i`,
      or 0 if there is none. */
  method FindPatternLength<T(==)>(s: seq<T>) returns (len: nat)
    ensures len == 0 ==> !HasPattern(s)
    ensures len > 0 ==> len <= |s| / 2 && Periodic(s, len)
    ensures forall i :: 1 <= i < len ==> !Periodic(s, i)
  {
    var i := 1;
    while i <= |s| / 2
      invariant 1 <= i <= |s| / 2 + 1
      invariant forall j :: 1 <= j < i ==> !Periodic(s, j)
    {
      var subPattern := s[..i];
      var repetitions := |s| / i;
      var repeatedPattern := Repeat(subPattern, repetitions);
      // repeatedPattern is never longer than s, so Take(|s|) keeps all of it
      RepetitionTestIsPeriodic(s, i);
      if s == repeatedPattern {
        return i;
      }
      i := i + 1;
    }
    return 0;
  }

  /** `DetectPattern`'s record; `Pattern` is `null` (None) when no cycle is found. */
  datatype PatternDetectionResult<T> =
    PatternDetectionResult(isCycle: bool, pattern: Option<seq<T>>, idx: int)

  /** Finds the first start index whose suffix repeats, and the shortest
      repeating block there. */
  method DetectPattern<T(==)>(input: seq<T>) returns (r: PatternDetectionResult<T>)
    ensures r.isCycle ==>
      && 0 <= r.idx < |input|
      && r.pattern.Some?
      && var len := |r.pattern.value|;
      && 1 <= len <= (|input| - r.idx) / 2
      && r.pattern.value == input[r.idx..r.idx + len]
      && Periodic(input[r.idx..], len)
      && (forall j :: 1 <= j < len ==> !Periodic(input[r.idx..], j))
      && input[r.idx..] == Repeat(r.pattern.value, (|input| - r.idx) / len)
      && forall j :: 0 <= j < r.idx ==> !HasPattern(input[j..])
    ensures !r.isCycle ==>
      && r == PatternDetectionResult(false, None, -1)
      && forall j :: 0 <= j < |input| ==> !HasPattern(input[j..])
  {
    var i := 0;
    while i < |input|
      invariant 0 <= i <= |input|
      invariant forall j :: 0 <= j < i ==> !HasPattern(input[j..])
    {
      var potentialPattern := input[i..];
      var patternLength := FindPatternLength(potentialPattern);
      if patternLength > 0 {
        PatternRebuildsSequence(potentialPattern, input[i..i + patternLength]);
        return PatternDetectionResult(true, Some(input[i..i + patternLength]), i);
      }
      i := i + 1;
    }
    return PatternDetectionResult(false, None, -1);
  }

  /** A periodic sequence is its first block repeated: the pattern found,
      repeated, rebuilds the sequence it was found in. */
  lemma PatternRebuildsSequence<T>(s: seq<T>, pattern: seq<T>)
    requires Periodic(s, |pattern|) && pattern == s[..|pattern|]
    ensures s == Repeat(pattern, |s| / |pattern|)
  {
    var i := |pattern|;
    var n := |s| / i;
    DivisibleIff(|s|, i);
    assert n != 0;
    ShiftPeriodicIsRepeat(s, i, n);
  }
}
