/** Section 5.10 of IEEE 754-2019 for binary64, defined from the fields of a bit pattern and the
    number it denotes, and the theorem that the double keys realise it byte for byte. */
module TotalOrder {
  import opened Bytes
  import opened KeyCodec

  const TWO51 := 0x8_0000_0000_0000
  const TWO52 := 0x10_0000_0000_0000

  predicate Negative(x: word) {
    x >= TWO63
  }

  /** The 63 bits below the sign: biased exponent and fraction. */
  function Magnitude(x: word): (m: int)
    ensures 0 <= m < TWO63
  {
    if Negative(x) then x - TWO63 else x
  }

  function Exponent(x: word): (e: int)
    ensures 0 <= e < 2048
  {
    Magnitude(x) / TWO52
  }

  function Fraction(x: word): (f: int)
    ensures 0 <= f < TWO52
  {
    Magnitude(x) % TWO52
  }

  predicate IsNaN(x: word) {
    Exponent(x) == 2047 && Fraction(x) != 0
  }

  predicate IsQuiet(x: word) {
    Fraction(x) >= TWO51
  }

  /** The absolute value in units of 2^-1074, the smallest subnormal: subnormals have no hidden
      bit, and infinity stands for the first number past the largest finite one. */
  function Size(e: nat, f: nat): nat {
    if e == 0 then f else (TWO52 + f) * Pow2(e - 1)
  }

  /** The number a pattern denotes, in units of 2^-1074. */
  function Numeric(x: word): int
    requires !IsNaN(x)
  {
    var size: int := Size(Exponent(x), Fraction(x));
    if Negative(x) then -size else size
  }

  /** totalOrder(x, y), case by case as the standard lists them. */
  predicate TotalOrder(x: word, y: word) {
    if !IsNaN(x) && !IsNaN(y) then
      Numeric(x) < Numeric(y) || (Numeric(x) == Numeric(y) && (Negative(x) || !Negative(y)))
    else if !IsNaN(y) then Negative(x)
    else if !IsNaN(x) then !Negative(y)
    else if Negative(x) != Negative(y) then Negative(x)
    else
      var (lo, hi) := if Negative(x) then (y, x) else (x, y);
      if IsQuiet(lo) != IsQuiet(hi) then IsQuiet(hi) else Fraction(lo) <= Fraction(hi)
  }

  predicate TotalLess(x: word, y: word) {
    TotalOrder(x, y) && x != y
  }

  lemma {:induction false} Pow2Monotone(m: nat, n: nat)
    requires m <= n
    ensures Pow2(m) <= Pow2(n)
    decreases n
  {
    if m < n {
      Pow2Monotone(m, n - 1);
    }
  }

  lemma ScaleStrict(a: nat, b: nat, p: nat)
    requires a < b && p > 0
    ensures a * p < b * p
  {
    assert b * p == a * p + (b - a) * p;
    MultiplesApart(p, a, b);
  }

  lemma ScaleMonotone(a: nat, p: nat, q: nat)
    requires p <= q
    ensures a * p <= a * q
  {
    assert a * q == a * p + a * (q - p);
  }

  /** Within one exponent the size grows with the fraction, and every number of a binade lies
      below the first number of the next. */
  lemma SizeStrict(e: nat, f: nat, e': nat, f': nat)
    requires f < TWO52 && f' < TWO52
    requires e < e' || (e == e' && f < f')
    ensures Size(e, f) < Size(e', f')
  {
    if e == e' {
      if e > 0 {
        ScaleStrict(TWO52 + f, TWO52 + f', Pow2(e - 1));
      }
    } else {
      ScaleMonotone(TWO52, Pow2(e), Pow2(e' - 1)) by {
        Pow2Monotone(e, e' - 1);
      }
      ScaleStrict(TWO52 + f, 2 * TWO52, if e == 0 then 1 else Pow2(e - 1));
      assert e > 0 ==> 2 * TWO52 * Pow2(e - 1) == TWO52 * Pow2(e);
      assert TWO52 * Pow2(e' - 1) + f' * Pow2(e' - 1) == (TWO52 + f') * Pow2(e' - 1);
      assert f' * Pow2(e' - 1) >= 0;
    }
  }

  /** The magnitude bits are ordered as the sizes. */
  lemma SizeOrder(x: word, y: word)
    ensures var sx, sy := Size(Exponent(x), Fraction(x)), Size(Exponent(y), Fraction(y));
            (Magnitude(x) < Magnitude(y) <==> sx < sy) && (Magnitude(x) == Magnitude(y) <==> sx == sy)
  {
    if Magnitude(x) < Magnitude(y) {
      SizeStrict(Exponent(x), Fraction(x), Exponent(y), Fraction(y));
    } else if Magnitude(y) < Magnitude(x) {
      SizeStrict(Exponent(y), Fraction(y), Exponent(x), Fraction(x));
    }
  }

  /** Only the two zeros have size 0. */
  lemma SizeZero(x: word)
    ensures Size(Exponent(x), Fraction(x)) == 0 <==> Magnitude(x) == 0
  {
    SizeOrder(0, x);
  }

  /** totalOrder compares sign first, then magnitude, reversed for negative patterns. */
  lemma TotalOrderIsSignMagnitude(x: word, y: word)
    ensures TotalOrder(x, y) <==> DoubleKeyWord(x) <= DoubleKeyWord(y)
  {
    if !IsNaN(x) && !IsNaN(y) {
      SizeOrder(x, y);
      SizeZero(x);
      SizeZero(y);
    }
  }

  /** The encoded double keys are in unsigned byte order exactly as totalOrder ranks the doubles,
      for every pair of the 2^64 bit patterns. */
  lemma DoubleKeyRealisesTotalOrder(x: word, y: word)
    ensures Leq(DoubleKey(x), DoubleKey(y)) <==> TotalOrder(x, y)
    ensures Less(DoubleKey(x), DoubleKey(y)) <==> TotalLess(x, y)
    ensures DoubleKey(x) == DoubleKey(y) <==> x == y
  {
    TotalOrderIsSignMagnitude(x, y);
    WordKeyOrder(DoubleKeyWord(x), DoubleKeyWord(y));
    LessIrreflexive(DoubleKey(x));
  }

  /** In particular the keys are strictly monotone for the numeric `<`, and numbers that compare
      equal have different keys only as the two zeros. */
  lemma DoubleKeyMonotone(x: word, y: word)
    requires !IsNaN(x) && !IsNaN(y)
    ensures Numeric(x) < Numeric(y) ==> Less(DoubleKey(x), DoubleKey(y))
    ensures Less(DoubleKey(x), DoubleKey(y)) ==>
              Numeric(x) < Numeric(y) || (x == TWO63 && y == 0)
  {
    DoubleKeyRealisesTotalOrder(x, y);
    SizeOrder(x, y);
    SizeZero(x);
    SizeZero(y);
  }
}
