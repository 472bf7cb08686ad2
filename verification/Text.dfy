/** The JavaScript string operations the modelled code relies on: join, split and decimal printing. */
module Text {
  // ----- Array.join and String.split on a one-character separator -----

  function Join(parts: seq<string>, sep: char): string {
    if |parts| == 0 then ""
    else if |parts| == 1 then parts[0]
    else parts[0] + [sep] + Join(parts[1..], sep)
  }

  function Split(s: string, sep: char): (parts: seq<string>)
    ensures |parts| >= 1
  {
    if s == "" then [""]
    else
      var rest := Split(s[1..], sep);
      if s[0] == sep then [""] + rest else [[s[0]] + rest[0]] + rest[1..]
  }

  predicate Free(parts: seq<string>, sep: char) {
    forall i | 0 <= i < |parts| :: sep !in parts[i]
  }

  lemma {:induction false} SplitPrefix(part: string, s: string, sep: char)
    requires sep !in part
    ensures Split(part + [sep] + s, sep) == [part] + Split(s, sep)
  {
    if part == "" {
      assert part + [sep] + s == [sep] + s;
    } else {
      assert (part + [sep] + s)[1..] == part[1..] + [sep] + s;
      SplitPrefix(part[1..], s, sep);
      assert part == [part[0]] + part[1..];
    }
  }

  lemma {:induction false} SplitWhole(part: string, sep: char)
    requires sep !in part
    ensures Split(part, sep) == [part]
  {
    if part != "" {
      SplitWhole(part[1..], sep);
      assert part == [part[0]] + part[1..];
    }
  }

  /** Splitting undoes joining when no part contains the separator. */
  lemma {:induction false} SplitJoin(parts: seq<string>, sep: char)
    requires parts != [] && Free(parts, sep)
    ensures Split(Join(parts, sep), sep) == parts
  {
    if |parts| == 1 {
      SplitWhole(parts[0], sep);
    } else {
      SplitJoin(parts[1..], sep);
      SplitPrefix(parts[0], Join(parts[1..], sep), sep);
    }
  }

  /** Joining undoes splitting, always; and no part of a split contains the separator. */
  lemma {:induction false} JoinSplit(s: string, sep: char)
    ensures Join(Split(s, sep), sep) == s
    ensures Free(Split(s, sep), sep)
  {
    if s != "" {
      JoinSplit(s[1..], sep);
      var rest := Split(s[1..], sep);
      var parts := Split(s, sep);
      if s[0] == sep {
        assert parts[1..] == rest;
      } else if |rest| > 1 {
        assert parts[1..] == rest[1..];
      }
    }
  }

  lemma {:induction false} JoinAppend(xs: seq<string>, ys: seq<string>, sep: char)
    requires xs != [] && ys != []
    ensures Join(xs + ys, sep) == Join(xs, sep) + [sep] + Join(ys, sep)
  {
    if |xs| == 1 {
      assert (xs + ys)[1..] == ys;
    } else {
      assert (xs + ys)[1..] == xs[1..] + ys;
      JoinAppend(xs[1..], ys, sep);
    }
  }

  predicate StringOver(s: string, alphabet: set<char>) {
    forall i | 0 <= i < |s| :: s[i] in alphabet
  }

  // ----- Decimal printing of integers -----

  const DIGITS := "0123456789"

  function NatDigits(n: nat): string {
    if n < 10 then [DIGITS[n]] else NatDigits(n / 10) + [DIGITS[n % 10]]
  }

  function Decimal(n: int): string {
    if n < 0 then "-" + NatDigits(-n) else NatDigits(n)
  }

  predicate IsDigits(s: string) {
    forall i | 0 <= i < |s| :: s[i] in DIGITS
  }

  lemma {:induction false} NatDigitsAreDigits(n: nat)
    ensures |NatDigits(n)| > 0 && IsDigits(NatDigits(n))
  {
    if n >= 10 {
      NatDigitsAreDigits(n / 10);
    }
  }

  /** The last digit, and the digits before it. */
  lemma NatDigitsLast(n: nat)
    ensures var s := NatDigits(n);
            && |s| > 0 && s[|s| - 1] == DIGITS[n % 10]
            && s[..|s| - 1] == (if n < 10 then "" else NatDigits(n / 10))
  {
  }

  lemma DigitsDiffer(a: nat, b: nat)
    requires a < 10 && b < 10 && DIGITS[a] == DIGITS[b]
    ensures a == b
  {
  }

  lemma {:induction false} NatDigitsInjective(m: nat, n: nat)
    requires NatDigits(m) == NatDigits(n)
    ensures m == n
  {
    NatDigitsLast(m);
    NatDigitsLast(n);
    DigitsDiffer(m % 10, n % 10);
    if m >= 10 && n >= 10 {
      NatDigitsInjective(m / 10, n / 10);
    } else if m >= 10 {
      NatDigitsLast(m / 10);
    } else if n >= 10 {
      NatDigitsLast(n / 10);
    }
  }

  /** A printed integer determines the integer and uses only digits and the minus sign. */
  lemma DecimalInjective(m: int, n: int)
    ensures Decimal(m) == Decimal(n) <==> m == n
  {
    if Decimal(m) == Decimal(n) {
      var p, q := if m < 0 then -m else m, if n < 0 then -n else n;
      NatDigitsAreDigits(p);
      NatDigitsAreDigits(q);
      assert m < 0 <==> Decimal(m)[0] == '-';
      assert n < 0 <==> Decimal(n)[0] == '-';
      if m < 0 {
        assert Decimal(m)[1..] == NatDigits(p) && Decimal(n)[1..] == NatDigits(q);
      }
      NatDigitsInjective(p, q);
    }
  }

  /** The number that a text of digits stands for. */
  function Reading(s: string): int {
    if s == "" then 0 else 10 * Reading(s[..|s| - 1]) + (s[|s| - 1] as int - '0' as int)
  }

  lemma DigitReading(d: nat)
    requires d < 10
    ensures DIGITS[d] as int - '0' as int == d
  {
  }

  lemma {:induction false} DigitsReadBack(n: nat)
    ensures Reading(NatDigits(n)) == n && (n > 0 ==> NatDigits(n)[0] != '0')
  {
    NatDigitsLast(n);
    DigitReading(n % 10);
    var s := NatDigits(n);
    if n >= 10 {
      DigitsReadBack(n / 10);
      NatDigitsLast(n / 10);
      assert s[0] == s[..|s| - 1][0];
    } else {
      assert s[..|s| - 1] == "" && Reading("") == 0;
    }
  }

  /** A printed integer reads back, and has no leading zero. */
  lemma DecimalReadsBack(n: int)
    ensures n >= 0 ==> Reading(Decimal(n)) == n && (n > 0 ==> Decimal(n)[0] != '0')
    ensures n < 0 ==> Decimal(n) != "" && Decimal(n)[0] == '-' && Reading(Decimal(n)[1..]) == -n && Decimal(n)[1] != '0'
  {
    DigitsReadBack(if n < 0 then -n else n);
    NatDigitsAreDigits(if n < 0 then -n else n);
  }

  lemma DecimalAvoids(n: int, c: char)
    requires c != '-' && c !in DIGITS
    ensures c !in Decimal(n)
  {
    NatDigitsAreDigits(if n < 0 then -n else n);
  }

  // ----- White space, as trim and the regular expression \s know it -----

  predicate IsSpace(c: char) {
    || c in {'\t', '\n', '\r', ' ', '\U{0b}', '\U{0c}', '\U{a0}', '\U{1680}', '\U{2028}', '\U{2029}', '\U{202f}',
             '\U{205f}', '\U{3000}', '\U{feff}'}
    || '\U{2000}' <= c <= '\U{200a}'
  }

  /** The same as code points: WhiteSpace and LineTerminator of the ECMAScript standard (sections 12.2 and 12.3). */
  lemma SpaceCodes(c: char)
    ensures IsSpace(c)
       <==> 9 <= c as int <= 13 || c as int in {32, 160, 5760, 8232, 8233, 8239, 8287, 12288, 65279}
            || 8192 <= c as int <= 8202
  {
  }

  predicate Blank(s: string) {
    forall i | 0 <= i < |s| :: IsSpace(s[i])
  }
}
