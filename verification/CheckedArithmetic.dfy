/** `checked_multiply`: multiplication that reports overflow, for every integer type. Main result: `MultiplyIsExact`. */
module CheckedArithmetic {

  function Pow2(n: nat): (p: int)
    ensures p >= 1
  {
    if n == 0 then 1 else 2 * Pow2(n - 1)
  }

  /** A C++ integer type: its width and whether it is signed. */
  datatype IntType = IntType(bits: nat, signed: bool) {
    function Min(): int {
      if signed && bits > 0 then -Pow2(bits - 1) else 0
    }

    function Max(): int {
      if signed && bits > 0 then Pow2(bits - 1) - 1 else Pow2(bits) - 1
    }

    predicate Holds(n: int) {
      Min() <= n <= Max()
    }
  }

  const INT := IntType(32, true)

  function Abs(n: int): (r: int)
    ensures r >= 0
  {
    if n < 0 then -n else n
  }

  /** C++ division truncates toward zero. */
  function TruncatingDiv(a: int, b: int): int
    requires b != 0
  {
    if (a < 0) == (b < 0) then Abs(a) / Abs(b) else -(Abs(a) / Abs(b))
  }

  predicate OverflowCheck(t: IntType, a: int, b: int)
    requires a != 0
  {
    if !t.signed then TruncatingDiv(t.Max(), a) < b
    else if (a > 0) == (b > 0) then TruncatingDiv(t.Max(), Abs(a)) < Abs(b)
    else TruncatingDiv(t.Min(), Abs(a)) > -Abs(b)
  }

  /** Whether the product was stored, and the operand afterwards. */
  function CheckedMultiply(t: IntType, a: int, b: int): (bool, int) {
    if a == 0 || b == 0 || a == 1 || b == 1 then (true, a * b)
    else if a == t.Min() || b == t.Min() then (false, a)
    else if OverflowCheck(t, a, b) then (false, a)
    else (true, a * b)
  }

  lemma QuotientBelow(m: int, x: int, y: int)
    requires m >= 0 && x > 0 && y >= 0
    ensures m / x < y <==> m < x * y
  {
    var q, r := m / x, m % x;
    assert m == x * q + r;
    if q < y {
      assert x * y >= x * (q + 1) == x * q + x;
    } else {
      assert x * y <= x * q;
    }
  }

  lemma ProductOfSigns(a: int, b: int)
    ensures a * b == if (a < 0) == (b < 0) then Abs(a) * Abs(b) else -(Abs(a) * Abs(b))
  {
  }

  /** The lowest value times anything but 0 and 1 never fits. */
  lemma LowestOverflows(t: IntType, b: int)
    requires t.Holds(b) && b != 0 && b != 1 && t.Min() < 0
    ensures !t.Holds(t.Min() * b)
  {
    TimesLowest(-t.Min(), b);
  }

  lemma TimesLowest(m: int, b: int)
    requires m > 0 && b != 0 && b != 1
    ensures -m * b >= m || -m * b < -m
  {
    var c := if b < 0 then -b - 1 else b - 2;
    NonNegative(m, c);
    assert b < 0 ==> -m * b == m + m * c;
    assert b > 0 ==> -m * b == -2 * m - m * c;
  }

  lemma NonNegative(m: int, c: int)
    requires m >= 0 && c >= 0
    ensures m * c >= 0
  {
  }

  /** For every signed and unsigned type and all operands of that type: the product is stored if and only if it can be
      represented, and otherwise the operand stays as it was. */
  lemma MultiplyIsExact(t: IntType, a: int, b: int)
    requires t.Holds(a) && t.Holds(b)
    ensures CheckedMultiply(t, a, b) == if t.Holds(a * b) then (true, a * b) else (false, a)
  {
    if a == 0 || b == 0 || a == 1 || b == 1 {
      assert a == 0 || b == 0 ==> a * b == 0;
      assert a == 1 ==> a * b == b;
      assert b == 1 ==> a * b == a;
    } else if a == t.Min() || b == t.Min() {
      assert t.Min() < 0;
      LowestOverflows(t, if a == t.Min() then b else a);
      assert a * b == b * a;
    } else {
      ProductOfSigns(a, b);
      QuotientBelow(t.Max(), Abs(a), Abs(b));
      QuotientBelow(Abs(t.Min()), Abs(a), Abs(b));
      assert Abs(a) * Abs(b) > 0;
    }
  }
}
