/** Decimal numerals as words. */
module Numerals {
  import opened Languages

  const ZERO: Char := 48
  const NINE: Char := 57

  // ----- what numerals mean -----

  /** A string of the characters '0' to '9'. */
  ghost predicate Numeral(w: Word) {
    forall i {:trigger w[i]} :: 0 <= i < |w| ==> '0' as int <= w[i] <= '9' as int
  }

  /** The number that a numeral spells: each further digit counts the number before it ten times. */
  ghost function Number(w: Word): int {
    if w == [] then 0 else 10 * Number(w[..|w| - 1]) + (w[|w| - 1] - '0' as int)
  }

  // ----- numerals as they are computed with -----

  predicate IsDigit(c: Char) {
    ZERO <= c <= NINE
  }

  predicate Digits(w: Word) {
    forall i {:trigger w[i]} :: 0 <= i < |w| ==> IsDigit(w[i])
  }

  function Power10(k: nat): nat {
    if k == 0 then 1 else 10 * Power10(k - 1)
  }

  /** d times p. */
  function Times(d: nat, p: nat): nat {
    if d == 0 then 0 else p + Times(d - 1, p)
  }

  function Value(w: Word): nat
    requires Digits(w)
  {
    if w == [] then 0 else Times(w[0] - ZERO, Power10(|w| - 1)) + Value(w[1..])
  }

  /** Of numerals of the same length, the first digit that differs decides. */
  predicate Le(u: Word, v: Word)
    requires |u| == |v|
  {
    u == [] || u[0] < v[0] || (u[0] == v[0] && Le(u[1..], v[1..]))
  }

  function Zeros(k: nat): (z: Word)
    ensures |z| == k && Digits(z) && forall i {:trigger z[i]} :: 0 <= i < k ==> z[i] == ZERO
  {
    if k == 0 then [] else [ZERO] + Zeros(k - 1)
  }

  /** Integer.toString. */
  function Decimal(n: nat): (w: Word)
    ensures |w| > 0 && Digits(w)
  {
    if n < 10 then [ZERO + n] else Decimal(n / 10) + [ZERO + n % 10]
  }

  lemma {:induction false} TimesGrows(d: nat, e: nat, p: nat)
    requires d < e
    ensures Times(d, p) + p <= Times(e, p)
    decreases e
  {
    if d < e - 1 {
      TimesGrows(d, e - 1, p);
    }
  }

  lemma {:induction false} TimesTen(d: nat, p: nat)
    ensures Times(d, 10 * p) == 10 * Times(d, p)
  {
    if d > 0 {
      TimesTen(d - 1, p);
    }
  }

  lemma {:induction false} TimesOne(d: nat)
    ensures Times(d, 1) == d && Times(10, d) == 10 * d
  {
    if d > 0 {
      TimesOne(d - 1);
    }
    TenTimes(d);
  }

  lemma {:induction false} TimesIsProduct(d: nat, p: nat)
    ensures Times(d, p) == d * p
  {
    if d > 0 {
      TimesIsProduct(d - 1, p);
    }
  }

  lemma TenTimes(p: nat)
    ensures Times(10, p) == 10 * p
  {
    TimesIsProduct(10, p);
  }

  lemma AtLeastOnce(d: nat, p: nat)
    ensures d > 0 ==> Times(d, p) >= p
  {
  }

  lemma {:induction false} ValueBound(w: Word)
    requires Digits(w)
    ensures Value(w) < Power10(|w|)
    decreases |w|
  {
    if w != [] {
      ValueBound(w[1..]);
      var p := Power10(|w| - 1);
      TimesGrows(w[0] - ZERO, 10, p);
      TenTimes(p);
    }
  }

  lemma {:induction false} LeIffValue(u: Word, v: Word)
    requires |u| == |v| && Digits(u) && Digits(v)
    ensures Le(u, v) <==> Value(u) <= Value(v)
    decreases |u|
  {
    if u != [] {
      LeIffValue(u[1..], v[1..]);
      ValueBound(u[1..]);
      ValueBound(v[1..]);
      var p := Power10(|u| - 1);
      if u[0] < v[0] {
        TimesGrows(u[0] - ZERO, v[0] - ZERO, p);
      } else if v[0] < u[0] {
        TimesGrows(v[0] - ZERO, u[0] - ZERO, p);
      }
    }
  }

  lemma {:induction false} ValueSnoc(w: Word, d: Char)
    requires Digits(w) && IsDigit(d)
    ensures Digits(w + [d]) && Value(w + [d]) == 10 * Value(w) + (d - ZERO)
    decreases |w|
  {
    var v := w + [d];
    if w == [] {
      assert v[1..] == [];
      TimesOne(d - ZERO);
    } else {
      assert v[1..] == w[1..] + [d];
      ValueSnoc(w[1..], d);
      TimesTen(w[0] - ZERO, Power10(|w| - 1));
    }
  }

  lemma {:induction false} DecimalValue(n: nat)
    ensures Value(Decimal(n)) == n
  {
    if n < 10 {
      assert Decimal(n)[1..] == [];
      TimesOne(n);
    } else {
      DecimalValue(n / 10);
      ValueSnoc(Decimal(n / 10), ZERO + n % 10);
    }
  }

  /** The digits are the characters '0' to '9', and the values are the numbers spelled. */
  lemma DigitIsLiteral(c: Char)
    ensures IsDigit(c) <==> '0' as int <= c <= '9' as int
    ensures IsDigit(c) ==> Value([c]) == c - '0' as int
  {
    if IsDigit(c) {
      assert [c][1..] == [];
      TimesOne(c - ZERO);
    }
  }

  lemma {:induction false} ValueIsNumber(w: Word)
    ensures Digits(w) <==> Numeral(w)
    ensures Digits(w) ==> Value(w) == Number(w)
    decreases |w|
  {
    forall i | 0 <= i < |w| ensures IsDigit(w[i]) <==> '0' as int <= w[i] <= '9' as int {
      DigitIsLiteral(w[i]);
    }
    if w != [] && Digits(w) {
      var v, d := w[..|w| - 1], w[|w| - 1];
      assert w == v + [d];
      ValueIsNumber(v);
      ValueSnoc(v, d);
      DigitIsLiteral(d);
      assert Digits([d]);
      assert [d][1..] == [];
      TimesOne(d - ZERO);
    }
  }

  /** Integer.toString spells its argument, without a zero in front. */
  lemma DecimalSpells(n: nat)
    ensures Numeral(Decimal(n)) && Number(Decimal(n)) == n
    ensures Decimal(n)[0] == '0' as int ==> Decimal(n) == ['0' as int]
  {
    ValueIsNumber(Decimal(n));
    DecimalValue(n);
    DecimalStarts(n);
    DigitIsLiteral(ZERO);
  }

  lemma {:induction false} DecimalStarts(n: nat)
    ensures Decimal(n)[0] == ZERO ==> n == 0
  {
    if n >= 10 {
      DecimalStarts(n / 10);
      assert Decimal(n)[0] == Decimal(n / 10)[0];
    }
  }

  /** A number with more than k digits is at least the k-th power of ten. */
  lemma {:induction false} DecimalIsLong(n: nat, k: nat)
    requires k > 0 && |Decimal(n)| > k
    ensures n >= Power10(k)
    decreases k
  {
    if k > 1 {
      DecimalIsLong(n / 10, k - 1);
    }
  }

  lemma {:induction false} DecimalGrows(m: nat, n: nat)
    requires m <= n
    ensures |Decimal(m)| <= |Decimal(n)|
  {
    if m >= 10 {
      DecimalGrows(m / 10, n / 10);
    }
  }

  /** Leading zeros do not count. */
  lemma {:induction false} ZerosInFront(k: nat, w: Word)
    requires Digits(w)
    ensures Digits(Zeros(k) + w) && Value(Zeros(k) + w) == Value(w)
    decreases k
  {
    if k == 0 {
      assert Zeros(0) + w == w;
    } else {
      ZerosInFront(k - 1, w);
      assert (Zeros(k) + w)[1..] == Zeros(k - 1) + w;
    }
  }

  lemma FirstIsZero(w: Word)
    requires Digits(w) && w != [] && Value(w) < Power10(|w| - 1)
    ensures w[0] == ZERO && Value(w) == Value(w[1..])
  {
    AtLeastOnce(w[0] - ZERO, Power10(|w| - 1));
  }

  /** What is smaller than the power of ten begins with zeros. */
  lemma {:induction false} SmallBeginsWithZeros(w: Word, k: nat)
    requires Digits(w) && k <= |w| && Value(w) < Power10(|w| - k)
    ensures w[..k] == Zeros(k)
    decreases k
  {
    if k > 0 {
      PowersGrow(|w| - k, |w| - 1);
      FirstIsZero(w);
      SmallBeginsWithZeros(w[1..], k - 1);
      assert w[..k] == [w[0]] + w[1..][..k - 1];
    }
  }

  lemma {:induction false} PowersGrow(j: nat, k: nat)
    requires j <= k
    ensures Power10(j) <= Power10(k)
    decreases k
  {
    if j < k {
      PowersGrow(j, k - 1);
    }
  }
}
