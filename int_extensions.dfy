/** The modulo extension on 32-bit integers whose result takes the sign of the divisor
    (DequeNet/Extensions/IntExtensions.cs). */
module IntExtensions {

  /** C#'s `int`: a signed 32-bit integer. */
  newtype int32 = x: int | -0x8000_0000 <= x < 0x8000_0000

  const IntMin: int32 := -0x8000_0000

  /** `Mod` either returns a value or throws ArgumentOutOfRangeException for parameter "n". */
  datatype ModResult = Ok(value: int32) | ArgumentOutOfRange(paramName: string, message: string)

  function Abs(x: int): (r: nat)
    ensures r == x || r == -x
  {
    if x < 0 then -x else x
  }

  /** C#'s `%` operator: the remainder of the division truncated toward zero, so that the
      remainder is zero or has the sign of the dividend. Dafny's own `%` is Euclidean. */
  function TruncatedRemainder(a: int, n: int): (r: int)
    requires n != 0
    ensures Abs(r) < Abs(n) && Abs(r) <= Abs(a)
    ensures r == 0 || (r > 0 <==> a > 0)
  {
    var m := Abs(a) % Abs(n);
    assert m <= Abs(a) by { DivisionParts(Abs(a), Abs(n)); }
    if a >= 0 then m else -m
  }

  /** The quotient of C#'s `/`, truncated toward zero. */
  function TruncatedQuotient(a: int, n: int): (q: int)
    requires n != 0
    ensures Abs(q) == Abs(a) / Abs(n)
  {
    var m := Abs(a) / Abs(n);
    assert m >= 0 by { DivisionParts(Abs(a), Abs(n)); }
    if (a >= 0) == (n > 0) then m else -m
  }

  lemma DivisionParts(x: nat, y: nat)
    requires y > 0
    ensures x == y * (x / y) + x % y && 0 <= y * (x / y) && x % y <= x
  {
  }

  /** C#'s quotient and remainder satisfy the division identity `(a / n) * n + a % n == a`. */
  lemma TruncatedDivision(a: int, n: int)
    requires n != 0
    ensures a == n * TruncatedQuotient(a, n) + TruncatedRemainder(a, n)
  {
    var q := Abs(a) / Abs(n);
    DivisionParts(Abs(a), Abs(n));
    if n < 0 {
      assert n * -q == Abs(n) * q;
      assert n * q == -(Abs(n) * q);
    }
  }

  /** Whether `(a mod n)` is computable in 32 bits: C#'s `int.MinValue % -1` overflows. */
  predicate NoOverflow(a: int32, n: int32)
  {
    !(a == IntMin && n == -1)
  }

  /** `a.Mod(n)`: the remainder of `a / n` moved into the range of the divisor's sign. */
  function Mod(a: int32, n: int32): (r: ModResult)
    requires NoOverflow(a, n)
    ensures r.ArgumentOutOfRange? <==> n == 0
    ensures r.ArgumentOutOfRange? ==> r.paramName == "n"
    ensures n > 0 ==> r.Ok? && 0 <= r.value <= n - 1
    ensures n < 0 ==> r.Ok? && n + 1 <= r.value <= 0
  {
    if n == 0 then
      ArgumentOutOfRange("n", "(a mod 0) is undefined.")
    else
      var remainder := TruncatedRemainder(a as int, n as int) as int32;
      if (n > 0 && remainder < 0) || (n < 0 && remainder > 0) then
        Ok(remainder + n)
      else
        Ok(remainder)
  }

  /** Floor division, defined independently of `Mod` from Dafny's Euclidean division. */
  function FloorQuotient(a: int, n: int): int
    requires n != 0
  {
    if n > 0 || a % n == 0 then a / n else a / n - 1
  }

  /** The result differs from the dividend by a multiple of the divisor: it is `a - n * q`
      where `q` is the quotient of the division rounded toward negative infinity. */
  lemma ModIsFloorRemainder(a: int32, n: int32)
    requires n != 0 && NoOverflow(a, n)
    ensures Mod(a, n).value as int == a as int - n as int * FloorQuotient(a as int, n as int)
  {
    FloorRemainderInRange(a as int, n as int);
    var fq := FloorQuotient(a as int, n as int);
    ModUnique(a as int, n as int, a as int - n as int * fq, fq);
  }

  /** The floor remainder lies in the range the documentation promises for `Mod`. */
  lemma FloorRemainderInRange(a: int, n: int)
    requires n != 0
    ensures InDivisorRange(a - n * FloorQuotient(a, n), n)
  {
    var e := a / n;
    assert a == n * e + a % n;
    if n < 0 && a % n != 0 {
      assert a - n * (e - 1) == a % n + n;
    }
  }

  /** The range that IntExtensions.cs documents for `(a mod n)`. */
  predicate InDivisorRange(r: int, n: int)
  {
    (n > 0 ==> 0 <= r < n) && (n < 0 ==> n < r <= 0)
  }

  /** Uniqueness: the documented range together with congruence modulo `n` pins the result
      down, so any `a - n * q` in that range is the value `Mod` returns. */
  lemma ModUnique(a: int, n: int, r: int, q: int)
    requires n != 0 && -0x8000_0000 <= a < 0x8000_0000 && -0x8000_0000 <= n < 0x8000_0000
    requires !(a == -0x8000_0000 && n == -1)
    requires r == a - n * q && InDivisorRange(r, n)
    ensures r == Mod(a as int32, n as int32).value as int
  {
    var m := Mod(a as int32, n as int32).value as int;
    var t := TruncatedRemainder(a, n);
    var tq := TruncatedQuotient(a, n);
    TruncatedDivision(a, n);
    ModCorrectsSignOnce(a as int32, n as int32);
    MulDifference(n, q, tq);
    var k := q - tq;
    if m != t {
      MulSuccessor(n, k);
      k := k + 1;
    }
    SameRangeMultiple(m, r, n, k);
  }

  lemma MulDifference(n: int, x: int, y: int)
    ensures n * x - n * y == n * (x - y)
  {
  }

  lemma MulSuccessor(n: int, k: int)
    ensures n * k + n == n * (k + 1)
  {
  }

  /** Two values in the same half-open range of width |n| that differ by a multiple of `n`
      are equal. */
  lemma SameRangeMultiple(r: int, m: int, n: int, k: int)
    requires n != 0 && InDivisorRange(r, n) && InDivisorRange(m, n)
    requires r - m == n * k
    ensures r == m
  {
  }

  /** The sign correction adds the divisor at most once: the result differs from C#'s `%`
      remainder by 0 or by `n`, and by 0 exactly when that remainder already lies in the
      documented range for the sign of `n`. */
  lemma ModCorrectsSignOnce(a: int32, n: int32)
    requires n != 0 && NoOverflow(a, n)
    ensures var t := TruncatedRemainder(a as int, n as int);
      var delta := Mod(a, n).value as int - t;
      && (delta == 0 || delta == n as int)
      && (delta == 0 <==> InDivisorRange(t, n as int))
  {
    var t := TruncatedRemainder(a as int, n as int);
    if InDivisorRange(t, n as int) {
      assert t == 0 || (t > 0 <==> n > 0);
    }
  }

  /** Divisor and dividend equal up to sign give 0, and the values of IntExtensionsTests.cs. */
  lemma ModExamples()
    ensures Mod(1, 1) == Ok(0) && Mod(0, 1) == Ok(0)
    ensures Mod(-5, 5) == Ok(0) && Mod(-5, -5) == Ok(0) && Mod(5, -5) == Ok(0) && Mod(5, 5) == Ok(0)
    ensures Mod(2, 10) == Ok(2) && Mod(12, 10) == Ok(2) && Mod(22, 10) == Ok(2)
    ensures Mod(-2, 10) == Ok(8) && Mod(-12, 10) == Ok(8) && Mod(-22, 10) == Ok(8)
    ensures Mod(2, -10) == Ok(-8) && Mod(12, -10) == Ok(-8) && Mod(22, -10) == Ok(-8)
    ensures Mod(-2, -10) == Ok(-2) && Mod(-12, -10) == Ok(-2) && Mod(-22, -10) == Ok(-2)
    ensures Mod(1, 0).ArgumentOutOfRange?
  {
  }
}
