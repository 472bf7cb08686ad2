/** The gcd loop, reduction to lowest terms and the canonical print of a fraction (src/receipt.ts). */
module LowestTerms {
  import opened Rationals
  import opened Text

  function Abs(x: int): nat {
    if x < 0 then -x else x
  }

  /** Euclid's recursion, which the loop in Gcd computes. */
  function Euclid(a: nat, b: nat): nat
    decreases b
  {
    if b == 0 then a else Euclid(b, a % b)
  }

  lemma {:induction false} EuclidPositive(a: nat, b: nat)
    requires a > 0
    ensures Euclid(a, b) > 0
    decreases b
  {
    if b != 0 {
      EuclidPositive(b, a % b);
    }
  }

  /** The value of gcd(a, b), including its answer 1 when an argument is zero. */
  function GcdOf(a: int, b: int): (g: nat)
    ensures g > 0
  {
    if a == 0 || b == 0 then 1 else EuclidPositive(Abs(a), Abs(b)); Euclid(Abs(a), Abs(b))
  }

  // ----- Divisibility -----

  ghost predicate Divides(d: nat, n: nat) {
    exists q: nat :: n == d * q
  }

  /** A common divisor that every common divisor divides; on positive numbers it is the largest one. */
  ghost predicate IsGreatestCommonDivisor(g: nat, a: nat, b: nat) {
    && g > 0 && Divides(g, a) && Divides(g, b)
    && forall d: nat | Divides(d, a) && Divides(d, b) :: Divides(d, g) && d <= g
  }

  lemma DivisorBound(d: nat, n: nat)
    requires n > 0 && Divides(d, n)
    ensures d <= n
  {
  }

  lemma Distribute(d: int, x: int, y: int)
    ensures d * (x + y) == d * x + d * y
    ensures d * (x - y) == d * x - d * y
  {
  }

  lemma Associate(d: int, x: int, y: int)
    ensures (d * x) * y == d * (x * y)
  {
  }

  lemma DividesSum(d: nat, x: nat, y: nat, k: nat)
    requires Divides(d, x) && Divides(d, y)
    ensures y * k >= 0 && Divides(d, y * k + x)
  {
    var p: nat :| x == d * p;
    var q: nat :| y == d * q;
    Associate(d, q, k);
    Distribute(d, q * k, p);
    var w: nat := q * k + p;
    assert y * k + x == d * w;
  }

  lemma MulMono(d: nat, x: nat, y: nat)
    requires x <= y
    ensures d * x <= d * y
  {
  }

  lemma DividesDifference(d: nat, x: nat, y: nat, k: nat)
    requires Divides(d, x) && Divides(d, y) && y * k <= x
    ensures Divides(d, x - y * k)
  {
    var p: nat :| x == d * p;
    var q: nat :| y == d * q;
    Associate(d, q, k);
    if q * k <= p {
      Distribute(d, p, q * k);
      var w: nat := p - q * k;
      assert x - y * k == d * w;
    } else {
      MulMono(d, p, q * k);
      assert x - y * k == 0 == d * 0;
    }
  }

  lemma GcdStep(g: nat, a: nat, b: nat)
    requires b > 0 && IsGreatestCommonDivisor(g, b, a % b)
    ensures IsGreatestCommonDivisor(g, a, b)
  {
    var k, m := a / b, a % b;
    assert a == b * k + m;
    DividesSum(g, m, b, k);
    forall d: nat | Divides(d, a) && Divides(d, b) ensures Divides(d, g) && d <= g {
      DividesDifference(d, a, b, k);
      assert Divides(d, m);
    }
  }

  lemma {:induction false} EuclidIsGcd(a: nat, b: nat)
    requires a > 0
    ensures IsGreatestCommonDivisor(Euclid(a, b), a, b)
    decreases b
  {
    if b == 0 {
      assert a == a * 1 && b == a * 0;
      forall d: nat | Divides(d, a) ensures d <= a { DivisorBound(d, a); }
    } else {
      EuclidIsGcd(b, a % b);
      GcdStep(Euclid(a, b), a, b);
    }
  }

  // ----- The loop -----

  method Gcd(a0: int, b0: int) returns (g: nat)
    ensures g == GcdOf(a0, b0)
    ensures a0 == 0 || b0 == 0 ==> g == 1
    ensures a0 != 0 && b0 != 0 ==> IsGreatestCommonDivisor(g, Abs(a0), Abs(b0))
  {
    if a0 == 0 || b0 == 0 {
      return 1;
    }
    var a, b := Abs(a0), Abs(b0);
    while b != 0
      invariant a > 0
      invariant Euclid(a, b) == Euclid(Abs(a0), Abs(b0))
    {
      a, b := b, a % b;
    }
    EuclidIsGcd(Abs(a0), Abs(b0));
    return a;
  }

  // ----- Lowest terms -----

  lemma QuotientUnique(d: pos, q: nat, m: nat, q': nat, m': nat)
    requires d * q + m == d * q' + m' && m < d && m' < d
    ensures q == q' && m == m'
  {
    if q < q' { MulMono(d, q + 1, q'); Distribute(d, q, 1); }
    if q > q' { MulMono(d, q' + 1, q); Distribute(d, q', 1); }
  }

  lemma DivModUnique(n: nat, d: pos, q: nat, m: nat)
    requires n == d * q + m && m < d
    ensures n % d == m && n / d == q
  {
    assert n == d * (n / d) + n % d;
    QuotientUnique(d, q, m, n / d, n % d);
  }

  lemma ModScales(k: pos, a: nat, b: pos)
    ensures k * b > 0 && k * a >= 0 && (k * a) % (k * b) == k * (a % b)
  {
    MulPos(k, b);
    var q, m := a / b, a % b;
    assert a == b * q + m;
    Distribute(k, b * q, m);
    Associate(k, b, q);
    MulMono(k, m + 1, b);
    Distribute(k, m, 1);
    DivModUnique(k * a, k * b, q, k * m);
  }

  lemma {:induction false} EuclidScales(k: pos, a: nat, b: nat)
    ensures k * a >= 0 && k * b >= 0 && Euclid(k * a, k * b) == k * Euclid(a, b)
    decreases b
  {
    if b != 0 {
      ModScales(k, a, b);
      EuclidScales(k, b, a % b);
    }
  }

  /** The two members of a positive fraction divided by their gcd. */
  lemma Reduce(a: pos, b: pos) returns (g: pos, p: pos, q: pos)
    ensures g == Euclid(a, b) && a == g * p && b == g * q && p == a / g && q == b / g
  {
    EuclidIsGcd(a, b);
    g := Euclid(a, b);
    var p': nat :| a == g * p';
    var q': nat :| b == g * q';
    assert g * 0 == 0;
    p, q := p', q';
    DivModUnique(a, g, p, 0);
    DivModUnique(b, g, q, 0);
  }

  lemma Regroup(g: int, p: int, h: int, q: int)
    ensures (g * p) * (h * q) == (g * h) * (p * q)
  {
  }

  lemma EqualLowestTerms(g: pos, h: pos, p: pos, q: pos, r: pos, s: pos)
    requires (h * s) * g == (g * q) * h
    requires (g * p) * (h * s) == (h * r) * (g * q)
    ensures p == r && q == s
  {
  }

  /** Two positive fractions are equal exactly when their lowest terms are. */
  lemma LowestTermsUnique(a: pos, b: pos, c: pos, d: pos)
    ensures Euclid(a, b) > 0 && Euclid(c, d) > 0
    ensures a * d == c * b
       <==> a / Euclid(a, b) == c / Euclid(c, d) && b / Euclid(a, b) == d / Euclid(c, d)
  {
    var g, p, q := Reduce(a, b);
    var h, r, s := Reduce(c, d);
    if a * d == c * b {
      EuclidScales(d, a, b);
      EuclidScales(b, c, d);
      assert d * a == b * c && d * b == b * d;
      assert d * g == b * h;
      EqualLowestTerms(g, h, p, q, r, s);
    } else if p == r && q == s {
      Regroup(g, p, h, q);
      Regroup(h, p, g, q);
    }
  }

  // ----- Printing a fraction -----

  /** The sign is put back in front of the numerator before it is divided. */
  function ReducedNumer(r: Rational64): int {
    var sign := if r.numer < 0 then -1 else 1;
    sign * Abs(r.numer) / GcdOf(Abs(r.numer), r.denom)
  }

  function ReducedDenom(r: Rational64): int {
    r.denom / GcdOf(Abs(r.numer), r.denom)
  }

  function CanonicalRational(r: Rational64): string {
    Decimal(ReducedNumer(r)) + "/" + Decimal(ReducedDenom(r))
  }

  /** What printing identifies: equal nonzero fractions, or zeros over the same denominator. */
  predicate SamePrinted(a: Rational64, b: Rational64) {
    if a.numer == 0 || b.numer == 0 then a == b else Equals(a, b)
  }

  lemma ExactNegativeDivision(g: pos, p: int)
    requires p > 0
    ensures (-(g * p)) / g == -p
  {
    var n := -(g * p);
    var q, m := n / g, n % g;
    assert n == g * q + m;
    if q >= 0 { MulPos(g, p); MulMono(g, 0, q); }
    Distribute(g, -q, p);
    assert g * -q == -(g * q);
    QuotientUnique(g, p, m, -q, 0);
  }

  lemma ReducedParts(r: Rational64)
    requires r.numer != 0
    ensures var g := Euclid(Abs(r.numer), r.denom);
            && g > 0 && Abs(r.numer) / g > 0
            && ReducedNumer(r) == (if r.numer < 0 then -(Abs(r.numer) / g) else Abs(r.numer) / g)
            && ReducedDenom(r) == r.denom / g
  {
    var g, p, q := Reduce(Abs(r.numer), r.denom);
    if r.numer < 0 {
      ExactNegativeDivision(g, p);
    }
  }

  lemma SignedCross(n: int, q: pos, m: int, p: pos)
    requires n != 0 && m != 0
    ensures n * q == m * p <==> (n < 0 <==> m < 0) && Abs(n) * q == Abs(m) * p
  {
  }

  lemma SameReduced(a: Rational64, b: Rational64)
    ensures ReducedNumer(a) == ReducedNumer(b) && ReducedDenom(a) == ReducedDenom(b) <==> SamePrinted(a, b)
  {
    if a.numer != 0 { ReducedParts(a); }
    if b.numer != 0 { ReducedParts(b); }
    if a.numer != 0 && b.numer != 0 {
      LowestTermsUnique(Abs(a.numer), a.denom, Abs(b.numer), b.denom);
      SignedCross(a.numer, b.denom, b.numer, a.denom);
    }
  }

  lemma Exchange(g: int, p: int, q: int)
    ensures p * (g * q) == (g * p) * q && -p * (g * q) == -(g * p) * q
  {
  }

  lemma ZeroReduced(r: Rational64)
    requires r.numer == 0
    ensures ReducedNumer(r) == 0 && ReducedDenom(r) == r.denom
  {
  }

  lemma ReducedEquals(r: Rational64)
    ensures ReducedDenom(r) > 0 && ReducedNumer(r) * r.denom == r.numer * ReducedDenom(r)
  {
    hide ReducedNumer, ReducedDenom;
    if r.numer == 0 {
      ZeroReduced(r);
    } else {
      ReducedParts(r);
      var g, p, q := Reduce(Abs(r.numer), r.denom);
      Exchange(g, p, q);
    }
  }

  /** What is printed is a fraction with a positive denominator that equals the given one. */
  lemma PrintsItsValue(r: Rational64) returns (n: int, d: pos)
    ensures CanonicalRational(r) == Decimal(n) + "/" + Decimal(d) && Equals(Rational64(n, d), r)
  {
    hide ReducedNumer, ReducedDenom;
    ReducedEquals(r);
    n, d := ReducedNumer(r), ReducedDenom(r);
  }

  lemma PairPrintsUniquely(n: int, d: int, n': int, d': int)
    ensures Decimal(n) + "/" + Decimal(d) == Decimal(n') + "/" + Decimal(d') <==> n == n' && d == d'
  {
    var p, q, p', q' := Decimal(n), Decimal(d), Decimal(n'), Decimal(d');
    DecimalAvoids(n, '/');
    DecimalAvoids(d, '/');
    DecimalAvoids(n', '/');
    DecimalAvoids(d', '/');
    if p + "/" + q == p' + "/" + q' {
      SplitPrefix(p, q, '/');
      SplitPrefix(p', q', '/');
      SplitWhole(q, '/');
      SplitWhole(q', '/');
      assert [p, q] == [p] + [q] == [p'] + [q'] == [p', q'];
    }
    DecimalInjective(n, n');
    DecimalInjective(d, d');
  }

  /** Printing is canonical on nonzero fractions, and keeps the denominator of a zero. */
  lemma CanonicalRationalIff(a: Rational64, b: Rational64)
    ensures CanonicalRational(a) == CanonicalRational(b) <==> SamePrinted(a, b)
  {
    PairPrintsUniquely(ReducedNumer(a), ReducedDenom(a), ReducedNumer(b), ReducedDenom(b));
    SameReduced(a, b);
  }

  /** The zero edge: equal fractions that print differently. */
  lemma ZerosPrintDifferently(d: pos, e: pos)
    requires d != e
    ensures Equals(Rational64(0, d), Rational64(0, e))
    ensures CanonicalRational(Rational64(0, d)) != CanonicalRational(Rational64(0, e))
  {
    CanonicalRationalIff(Rational64(0, d), Rational64(0, e));
  }

  lemma CanonicalRationalAvoids(r: Rational64, c: char)
    requires c !in DIGITS && c != '-' && c != '/'
    ensures c !in CanonicalRational(r)
  {
    DecimalAvoids(ReducedNumer(r), c);
    DecimalAvoids(ReducedDenom(r), c);
  }

  // ----- Which alphabets print a fraction -----

  predicate CoprimeDigits(i: nat, j: nat) {
    i == 0 || Euclid(i, j) == 1
  }

  /** The slash and two digits that form a fraction in lowest terms, or zero over a digit. */
  predicate DigitsForFraction(alphabet: set<char>) {
    && '/' in alphabet
    && exists i, j :: && 0 <= i < 10 && 1 <= j < 10 && CoprimeDigits(i, j)
                      && DIGITS[i] in alphabet && DIGITS[j] in alphabet
  }

  lemma DividesMod(p: pos, n: nat)
    ensures Divides(p, n) <==> n % p == 0
  {
    if n % p == 0 {
      assert n == p * (n / p);
    }
    if q: nat :| n == p * q {
      DivModUnique(n, p, q, 0);
    }
  }

  lemma DividesTransitive(p: nat, g: nat, n: nat)
    requires Divides(p, g) && Divides(g, n)
    ensures Divides(p, n)
  {
    var x: nat :| g == p * x;
    var y: nat :| n == g * y;
    Associate(p, x, y);
    var z: nat := x * y;
    assert n == p * z;
  }

  predicate SmallPrime(p: int) {
    p == 2 || p == 3 || p == 5 || p == 7
  }

  /** Two digits without a small common prime divisor have none at all. */
  lemma DigitsShareAPrime(i: int, j: int) returns (p: pos)
    requires 1 <= i < 10 && 1 <= j < 10 && Euclid(i, j) != 1
    ensures SmallPrime(p) && i % p == 0 && j % p == 0
  {
    EuclidIsGcd(i, j);
    var g := Euclid(i, j);
    DivisorBound(g, i);
    p := if g % 2 == 0 then 2 else if g % 3 == 0 then 3 else g;
    DividesMod(p, g);
    DividesTransitive(p, g, i);
    DividesTransitive(p, g, j);
    DividesMod(p, i);
    DividesMod(p, j);
  }

  /** If no two of the digits are coprime and zero is not among them, one prime divides them all. */
  lemma DigitsShareOnePrime(digits: set<int>) returns (p: pos)
    requires forall i | i in digits :: 1 <= i < 10
    requires forall i, j | i in digits && j in digits :: Euclid(i, j) != 1
    ensures SmallPrime(p) && forall i | i in digits :: i % p == 0
  {
    hide Euclid;
    p := if 5 in digits then 5 else if 7 in digits then 7 else if 3 in digits || 9 in digits then 3 else 2;
    var odd := if 5 in digits then 5 else if 7 in digits then 7 else if 3 in digits then 3 else 9;
    forall i | i in digits ensures i % p == 0 {
      if odd in digits {
        var q := DigitsShareAPrime(odd, i);
      } else {
        var q := DigitsShareAPrime(i, i);
        assert i != 1 && i != 3 && i != 5 && i != 7 && i != 9;
      }
    }
  }

  lemma LastDigitDivides(n: nat, p: pos)
    requires (n / 10) % p == 0 && (n % 10) % p == 0
    ensures n % p == 0
  {
    DividesMod(p, n / 10);
    DividesMod(p, n % 10);
    DividesSum(p, n % 10, n / 10, 10);
    DividesMod(p, n);
  }

  lemma {:induction false} DigitsDivide(n: nat, p: pos, digits: set<int>)
    requires forall i | i in digits :: i % p == 0
    requires forall i | 0 <= i < 10 && DIGITS[i] in NatDigits(n) :: i in digits
    ensures n % p == 0
  {
    if n < 10 {
      assert DIGITS[n] in NatDigits(n);
    } else {
      NatDigitsLast(n);
      var s := NatDigits(n);
      assert DIGITS[n % 10] in s;
      assert forall c | c in NatDigits(n / 10) :: c in s by { assert NatDigits(n / 10) == s[..|s| - 1]; }
      DigitsDivide(n / 10, p, digits);
      LastDigitDivides(n, p);
    }
  }

  lemma {:induction false} SomeDigitNonzero(n: pos) returns (j: int)
    ensures 1 <= j < 10 && DIGITS[j] in NatDigits(n)
  {
    NatDigitsLast(n);
    if n % 10 != 0 {
      j := n % 10;
    } else {
      j := SomeDigitNonzero(n / 10);
    }
  }

  lemma Cancel(g: pos, e: nat)
    requires g == g * e
    ensures e == 1
  {
  }

  /** In lowest terms only 1 divides both members. */
  lemma LowestTermsCoprime(r: Rational64, p: pos)
    requires r.numer != 0 && Divides(p, Abs(ReducedNumer(r))) && Divides(p, ReducedDenom(r))
    ensures p == 1
  {
    ReducedParts(r);
    var g, x, y := Reduce(Abs(r.numer), r.denom);
    EuclidScales(g, x, y);
    Cancel(g, Euclid(x, y));
    EuclidIsGcd(x, y);
    assert Divides(p, x) && Divides(p, y);
    assert p <= Euclid(x, y);
  }

  lemma ReducedPositive(r: Rational64)
    ensures ReducedDenom(r) > 0
  {
    if r.numer != 0 {
      ReducedParts(r);
      var g, p, q := Reduce(Abs(r.numer), r.denom);
    }
  }

  lemma PrintedDigits(r: Rational64, alphabet: set<char>)
    requires StringOver(CanonicalRational(r), alphabet)
    ensures '/' in alphabet && ReducedDenom(r) > 0
    ensures StringOver(NatDigits(Abs(ReducedNumer(r))), alphabet) && StringOver(NatDigits(ReducedDenom(r)), alphabet)
  {
    hide ReducedNumer, ReducedDenom, NatDigits;
    if r.numer != 0 { ReducedParts(r); }
    assert ReducedDenom(r) > 0 by { ReducedPositive(r); }
    var s, n, d := CanonicalRational(r), Decimal(ReducedNumer(r)), Decimal(ReducedDenom(r));
    assert s == n + "/" + d && s[|n|] == '/';
    forall i | 0 <= i < |n| ensures n[i] in alphabet { assert s[i] == n[i]; }
    forall i | 0 <= i < |d| ensures d[i] in alphabet { assert s[|n| + 1 + i] == d[i]; }
    if ReducedNumer(r) < 0 {
      var m := NatDigits(-ReducedNumer(r));
      forall i | 0 <= i < |m| ensures m[i] in alphabet { assert n[i + 1] == m[i]; }
    }
  }

  function DigitsIn(alphabet: set<char>): set<int> {
    set i | 0 <= i < 10 && DIGITS[i] in alphabet
  }

  lemma ZeroDigit(r: Rational64)
    requires r.numer == 0
    ensures ReducedNumer(r) == 0 && DIGITS[0] in NatDigits(0)
  {
  }

  lemma FractionNeedsDigits(r: Rational64, alphabet: set<char>)
    requires StringOver(CanonicalRational(r), alphabet)
    ensures DigitsForFraction(alphabet)
  {
    hide CanonicalRational, ReducedNumer, ReducedDenom, NatDigits, Euclid;
    PrintedDigits(r, alphabet);
    var n, d := Abs(ReducedNumer(r)), ReducedDenom(r);
    var j := SomeDigitNonzero(d);
    if DIGITS[0] in alphabet {
      assert CoprimeDigits(0, j);
    } else if forall i, j | i in DigitsIn(alphabet) && j in DigitsIn(alphabet) :: Euclid(i, j) != 1 {
      var digits := DigitsIn(alphabet);
      var p := DigitsShareOnePrime(digits);
      DigitsDivide(n, p, digits);
      DigitsDivide(d, p, digits);
      DividesMod(p, n);
      DividesMod(p, d);
      if r.numer == 0 { ZeroDigit(r); }
      LowestTermsCoprime(r, p);
    } else {
      var i, k :| i in DigitsIn(alphabet) && k in DigitsIn(alphabet) && Euclid(i, k) == 1;
      assert CoprimeDigits(i, k);
    }
  }

  lemma CoprimeDigitsPrint(i: nat, j: pos)
    requires i < 10 && j < 10 && CoprimeDigits(i, j)
    ensures CanonicalRational(Rational64(i, j)) == [DIGITS[i]] + "/" + [DIGITS[j]]
  {
    hide Euclid;
    assert ReducedNumer(Rational64(i, j)) == i && ReducedDenom(Rational64(i, j)) == j;
  }

  /** Some fraction prints over the alphabet exactly when it has the slash and two such digits. */
  lemma FractionOverIff(alphabet: set<char>)
    ensures (exists r: Rational64 :: StringOver(CanonicalRational(r), alphabet)) <==> DigitsForFraction(alphabet)
  {
    hide CanonicalRational, CoprimeDigits;
    if r: Rational64 :| StringOver(CanonicalRational(r), alphabet) {
      FractionNeedsDigits(r, alphabet);
    }
    if DigitsForFraction(alphabet) {
      var i, j :| && 0 <= i < 10 && 1 <= j < 10 && CoprimeDigits(i, j)
                  && DIGITS[i] in alphabet && DIGITS[j] in alphabet;
      CoprimeDigitsPrint(i, j);
      assert StringOver(CanonicalRational(Rational64(i, j)), alphabet);
    }
  }
}
