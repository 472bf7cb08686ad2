/** Canonical receipts: the `|`-joined serialization, its hash, the builder and the verifier (src/receipt.ts).
    SHA-256 is the parameter `sha`; it is assumed injective only where a lemma says so. */
module Receipts {
  import opened Rationals
  import opened Text
  import opened LowestTerms
  import opened Wrappers

  // ----- Receipts -----

  datatype Wedge = Wedge(
    version: string, domainId: string, policyHash: string, fromState: string, actionHash: string,
    toState: string, spend: Rational64, defect: Rational64, prescribedEnvelope: Rational64,
    authority: Rational64, certificateHash: string)

  datatype CohBitReceipt = CohBitReceipt(
    bitId: string, valuationPre: Rational64, valuationPost: Rational64, wedge: Wedge)

  function CanonicalWedge(w: Wedge): string {
    Join(["v:" + w.version,
          "d:" + w.domainId,
          "p:" + w.policyHash,
          "f:" + w.fromState,
          "a:" + w.actionHash,
          "t:" + w.toState,
          "s:" + CanonicalRational(w.spend),
          "e:" + CanonicalRational(w.defect),
          "z:" + CanonicalRational(w.prescribedEnvelope),
          "u:" + CanonicalRational(w.authority),
          "c:" + w.certificateHash], '|')
  }

  function CanonicalReceipt(r: CohBitReceipt): string {
    Join(["pre:" + CanonicalRational(r.valuationPre),
          "post:" + CanonicalRational(r.valuationPost),
          "w:[" + CanonicalWedge(r.wedge) + "]"], '|')
  }

  // ----- Unique decoding -----

  /** Equality of everything a receipt says, up to the printed form of its fractions; bitId is not printed. */
  predicate SameContent(r: CohBitReceipt, r': CohBitReceipt) {
    var w, w' := r.wedge, r'.wedge;
    && w.version == w'.version && w.domainId == w'.domainId && w.policyHash == w'.policyHash
    && w.fromState == w'.fromState && w.actionHash == w'.actionHash && w.toState == w'.toState
    && w.certificateHash == w'.certificateHash
    && SamePrinted(r.valuationPre, r'.valuationPre) && SamePrinted(r.valuationPost, r'.valuationPost)
    && SamePrinted(w.spend, w'.spend) && SamePrinted(w.defect, w'.defect)
    && SamePrinted(w.prescribedEnvelope, w'.prescribedEnvelope) && SamePrinted(w.authority, w'.authority)
  }

  /** All string fields that are printed use only the given characters. */
  predicate Over(w: Wedge, alphabet: set<char>) {
    && StringOver(w.version, alphabet) && StringOver(w.domainId, alphabet)
    && StringOver(w.policyHash, alphabet) && StringOver(w.fromState, alphabet)
    && StringOver(w.actionHash, alphabet) && StringOver(w.toState, alphabet)
    && StringOver(w.certificateHash, alphabet)
  }

  const TAGS := ["pre:", "post:", "w:[v:", "d:", "p:", "f:", "a:", "t:", "s:", "e:", "z:", "u:", "c:"]

  /** What follows each tag in the print, in order. */
  function Bodies(r: CohBitReceipt): (b: seq<string>)
    ensures |b| == 13
  {
    var w := r.wedge;
    [CanonicalRational(r.valuationPre), CanonicalRational(r.valuationPost), w.version, w.domainId, w.policyHash,
     w.fromState, w.actionHash, w.toState, CanonicalRational(w.spend), CanonicalRational(w.defect),
     CanonicalRational(w.prescribedEnvelope), CanonicalRational(w.authority), w.certificateHash + "]"]
  }

  function Tagged(tags: seq<string>, bodies: seq<string>): seq<string>
    requires |tags| == |bodies|
  {
    seq(|tags|, i requires 0 <= i < |tags| => tags[i] + bodies[i])
  }

  lemma {:induction false} JoinWrapLast(parts: seq<string>, suffix: string, sep: char)
    requires parts != []
    ensures Join(parts[..|parts| - 1] + [parts[|parts| - 1] + suffix], sep) == Join(parts, sep) + suffix
  {
    var wrapped := parts[..|parts| - 1] + [parts[|parts| - 1] + suffix];
    if |parts| > 1 {
      JoinWrapLast(parts[1..], suffix, sep);
      assert wrapped[1..] == parts[1..][..|parts| - 2] + [parts[|parts| - 1] + suffix];
    }
  }

  lemma JoinWrapFirst(parts: seq<string>, prefix: string, sep: char)
    requires parts != []
    ensures Join([prefix + parts[0]] + parts[1..], sep) == prefix + Join(parts, sep)
  {
  }

  /** A join nested in the last place of another join prints one flat list. */
  lemma NestedJoinIsFlat(head: seq<string>, inner: seq<string>, prefix: string, suffix: string, sep: char)
    requires head != [] && |inner| > 1
    ensures Join(head + [prefix + Join(inner, sep) + suffix], sep)
         == Join(head + [prefix + inner[0]] + inner[1..|inner| - 1] + [inner[|inner| - 1] + suffix], sep)
  {
    var n := |inner| - 1;
    var closed := inner[..n] + [inner[n] + suffix];
    var wrapped := [prefix + closed[0]] + closed[1..];
    JoinWrapLast(inner, suffix, sep);
    JoinWrapFirst(closed, prefix, sep);
    JoinAppend(head, wrapped, sep);
    JoinAppend(head, [prefix + Join(inner, sep) + suffix], sep);
    assert prefix + (Join(inner, sep) + suffix) == prefix + Join(inner, sep) + suffix;
    assert wrapped == [prefix + inner[0]] + inner[1..n] + [inner[n] + suffix];
    assert head + wrapped == head + [prefix + inner[0]] + inner[1..n] + [inner[n] + suffix];
  }

  lemma TaggedList(b: seq<string>)
    requires |b| == 13
    ensures Tagged(TAGS, b)
         == ["pre:" + b[0], "post:" + b[1], "w:[v:" + b[2], "d:" + b[3], "p:" + b[4], "f:" + b[5], "a:" + b[6],
             "t:" + b[7], "s:" + b[8], "e:" + b[9], "z:" + b[10], "u:" + b[11], "c:" + b[12]]
  {
  }

  lemma LayoutIsFlat(b: seq<string>, last: string)
    requires |b| == 13 && b[12] == last + "]"
    ensures Join(["pre:" + b[0], "post:" + b[1],
                  "w:[" + Join(["v:" + b[2], "d:" + b[3], "p:" + b[4], "f:" + b[5], "a:" + b[6], "t:" + b[7],
                                "s:" + b[8], "e:" + b[9], "z:" + b[10], "u:" + b[11], "c:" + last], '|') + "]"], '|')
         == Join(Tagged(TAGS, b), '|')
  {
    hide Tagged, Join;
    var head := ["pre:" + b[0], "post:" + b[1]];
    var inner := ["v:" + b[2], "d:" + b[3], "p:" + b[4], "f:" + b[5], "a:" + b[6], "t:" + b[7],
                  "s:" + b[8], "e:" + b[9], "z:" + b[10], "u:" + b[11], "c:" + last];
    var nested := "w:[" + Join(inner, '|') + "]";
    NestedJoinIsFlat(head, inner, "w:[", "]", '|');
    assert head + [nested] == [head[0], head[1], nested];
    assert "w:[" + ("v:" + b[2]) == "w:[v:" + b[2];
    assert ("c:" + last) + "]" == "c:" + b[12];
    assert inner[1..10] == ["d:" + b[3], "p:" + b[4], "f:" + b[5], "a:" + b[6], "t:" + b[7], "s:" + b[8], "e:" + b[9],
                            "z:" + b[10], "u:" + b[11]];
    TaggedList(b);
    assert head + ["w:[" + inner[0]] + inner[1..10] + [inner[10] + "]"] == Tagged(TAGS, b);
  }

  lemma ReceiptIsFlat(r: CohBitReceipt)
    ensures CanonicalReceipt(r) == Join(Tagged(TAGS, Bodies(r)), '|')
  {
    hide CanonicalRational;
    LayoutIsFlat(Bodies(r), r.wedge.certificateHash);
  }

  lemma CancelPrefix(p: string, x: string, y: string)
    requires p + x == p + y
    ensures x == y
  {
    assert (p + x)[|p|..] == x && (p + y)[|p|..] == y;
  }

  lemma CancelSuffix(x: string, y: string, s: string)
    requires x + s == y + s
    ensures x == y
  {
    assert (x + s)[..|x|] == x && (y + s)[..|y|] == y;
  }

  lemma SameBodiesIffSameContent(r: CohBitReceipt, r': CohBitReceipt)
    ensures Bodies(r) == Bodies(r') <==> SameContent(r, r')
  {
    hide CanonicalRational, SamePrinted;
    var b, b', w, w' := Bodies(r), Bodies(r'), r.wedge, r'.wedge;
    CanonicalRationalIff(r.valuationPre, r'.valuationPre);
    CanonicalRationalIff(r.valuationPost, r'.valuationPost);
    CanonicalRationalIff(w.spend, w'.spend);
    CanonicalRationalIff(w.defect, w'.defect);
    CanonicalRationalIff(w.prescribedEnvelope, w'.prescribedEnvelope);
    CanonicalRationalIff(w.authority, w'.authority);
    if b == b' {
      CancelSuffix(w.certificateHash, w'.certificateHash, "]");
      assert forall i | 0 <= i < 13 :: b[i] == b'[i];
      assert b[2] == w.version && b[3] == w.domainId && b[4] == w.policyHash && b[5] == w.fromState;
    }
  }

  // ----- Which field alphabets are safe -----

  /** Over these alphabets two different receipts can print alike: the fields can hold a separator with a tag, for one
      of the string fields in the middle, or else all that is printed between the last two string fields. */
  predicate Ambiguous(alphabet: set<char>) {
    && '|' in alphabet && ':' in alphabet
    && (|| 'd' in alphabet || 'p' in alphabet || 'f' in alphabet || 'a' in alphabet || 't' in alphabet
        || ({'s', 'e', 'z', 'u', 'c'} <= alphabet && DigitsForFraction(alphabet)))
  }

  function Print(tags: seq<string>, bodies: seq<string>): string
    requires |tags| == |bodies|
  {
    Join(Tagged(tags, bodies), '|')
  }

  lemma PrefixTransitive(x: string, y: string, z: string)
    requires x <= y <= z
    ensures x <= z
  {
  }

  lemma PrintStep(tags: seq<string>, b: seq<string>)
    requires |tags| == |b| >= 2
    ensures Print(tags, b) == tags[0] + b[0] + "|" + Print(tags[1..], b[1..])
    ensures tags[1] <= Print(tags[1..], b[1..])
  {
    assert Tagged(tags, b)[1..] == Tagged(tags[1..], b[1..]);
    var rest := Tagged(tags[1..], b[1..]);
    assert rest[0] == tags[1] + b[1] && rest[0] <= Join(rest, '|');
    assert tags[1] <= rest[0];
    assert tags[1] <= Join(rest, '|') by { PrefixTransitive(tags[1], rest[0], Join(rest, '|')); }
  }

  lemma PrintOne(tag: string, body: string)
    ensures Print([tag], [body]) == tag + body
  {
  }

  /** A character that is in neither text marks where they end. */
  lemma MarkEnds(x: string, x': string, c: char, y: string, y': string)
    requires x + [c] + y == x' + [c] + y' && c !in x && c !in x'
    ensures x == x' && y == y'
  {
    SplitPrefix(x, y, c);
    SplitPrefix(x', y', c);
    var s := x + [c] + y;
    assert Split(s, c)[0] == x && Split(s, c)[0] == x';
    CancelPrefix(x + [c], y, y');
  }

  /** The separator and the tag after a body hold a character that the body does not, and mark its end with it. */
  predicate Marked(tag: string, body: string, mark: nat) {
    var end := "|" + tag;
    mark < |end| && end[mark] !in end[..mark] && end[mark] !in body
  }

  lemma EndMarked(x: string, x': string, end: string, mark: nat, y: string, y': string)
    requires x + end + y == x' + end + y'
    requires mark < |end| && end[mark] !in end[..mark] && end[mark] !in x && end[mark] !in x'
    ensures x == x' && y == y'
  {
    var front, c, back := end[..mark], end[mark], end[mark + 1..];
    assert end == front + [c] + back;
    assert x + end + y == (x + front) + [c] + (back + y);
    assert x' + end + y' == (x' + front) + [c] + (back + y');
    MarkEnds(x + front, x' + front, c, back + y, back + y');
    CancelSuffix(x, x', front);
    CancelPrefix(back, y, y');
  }

  lemma PeelFirst(tags: seq<string>, b: seq<string>, b': seq<string>, mark: nat)
    requires |tags| == |b| == |b'| >= 2 && Print(tags, b) == Print(tags, b')
    requires Marked(tags[1], b[0], mark) && Marked(tags[1], b'[0], mark)
    ensures b[0] == b'[0] && Print(tags[1..], b[1..]) == Print(tags[1..], b'[1..])
  {
    hide Print;
    PrintStep(tags, b);
    PrintStep(tags, b');
    var end, rest, rest' := "|" + tags[1], Print(tags[1..], b[1..]), Print(tags[1..], b'[1..]);
    var after, after' := rest[|tags[1]|..], rest'[|tags[1]|..];
    assert rest == tags[1] + after && rest' == tags[1] + after';
    assert tags[0] + b[0] + "|" + rest == tags[0] + (b[0] + end + after);
    assert tags[0] + b'[0] + "|" + rest' == tags[0] + (b'[0] + end + after');
    CancelPrefix(tags[0], b[0] + end + after, b'[0] + end + after');
    EndMarked(b[0], b'[0], end, mark, after, after');
  }

  /** Marked bodies can be read off one after the other. */
  lemma {:induction false} PeelAll(tags: seq<string>, b: seq<string>, b': seq<string>, marks: seq<nat>)
    requires |marks| < |tags| == |b| == |b'| && Print(tags, b) == Print(tags, b')
    requires forall i | 0 <= i < |marks| :: Marked(tags[i + 1], b[i], marks[i]) && Marked(tags[i + 1], b'[i], marks[i])
    ensures var n := |marks|; b[..n] == b'[..n] && Print(tags[n..], b[n..]) == Print(tags[n..], b'[n..])
  {
    hide Print, Marked;
    var n := |marks|;
    if n == 0 {
      assert tags[0..] == tags && b[0..] == b && b'[0..] == b';
    } else {
      assert Marked(tags[0 + 1], b[0], marks[0]) && Marked(tags[0 + 1], b'[0], marks[0]);
      PeelFirst(tags, b, b', marks[0]);
      var rest := marks[1..];
      forall i | 0 <= i < n - 1
        ensures Marked(tags[1..][i + 1], b[1..][i], rest[i]) && Marked(tags[1..][i + 1], b'[1..][i], rest[i])
      {
        var j := i + 1;
        assert Marked(tags[j + 1], b[j], marks[j]) && Marked(tags[j + 1], b'[j], marks[j]);
      }
      PeelAll(tags[1..], b[1..], b'[1..], rest);
      assert tags[1..][n - 1..] == tags[n..] && b[1..][n - 1..] == b[n..] && b'[1..][n - 1..] == b'[n..];
      assert b[..n] == [b[0]] + b[1..][..n - 1] && b'[..n] == [b'[0]] + b'[1..][..n - 1];
    }
  }

  /** The bodies that are fields of the wedge, and the rest, which are fractions. */
  predicate IsField(i: nat) {
    2 <= i <= 7 || i == 12
  }

  predicate FractionText(s: string) {
    forall c | c in s :: c == '-' || c == '/' || c in DIGITS
  }

  /** Fields over the alphabet, fractions free of tag letters and separators; the last body is free. */
  predicate BodiesOver(b: seq<string>, alphabet: set<char>)
    requires |b| == 13
  {
    forall i: nat | i < 12 :: if IsField(i) then StringOver(b[i], alphabet) else FractionText(b[i])
  }

  lemma FractionCharacters(r: Rational64)
    ensures FractionText(CanonicalRational(r))
  {
    forall c | c in CanonicalRational(r) && c != '-' && c != '/' ensures c in DIGITS {
      if c !in DIGITS { CanonicalRationalAvoids(r, c); }
    }
  }

  lemma ReceiptBodiesOver(r: CohBitReceipt, alphabet: set<char>)
    requires Over(r.wedge, alphabet)
    ensures BodiesOver(Bodies(r), alphabet)
  {
    hide CanonicalRational;
    var w := r.wedge;
    FractionCharacters(r.valuationPre);
    FractionCharacters(r.valuationPost);
    FractionCharacters(w.spend);
    FractionCharacters(w.defect);
    FractionCharacters(w.prescribedEnvelope);
    FractionCharacters(w.authority);
  }

  /** Without the separator, or without the colon, that character marks the end of every body but the last. */
  lemma MarkedThroughout(b: seq<string>, alphabet: set<char>, i: nat)
    requires |b| == 13 && BodiesOver(b, alphabet) && i < 12
    ensures '|' !in alphabet ==> Marked(TAGS[i + 1], b[i], 0)
    ensures ':' !in alphabet ==> Marked(TAGS[i + 1], b[i], if i == 0 then 5 else 2)
  {
    assert ("|" + TAGS[i + 1])[0] == '|';
    assert ("|" + TAGS[i + 1])[if i == 0 then 5 else 2] == ':';
    assert ':' !in ("|" + TAGS[i + 1])[..if i == 0 then 5 else 2];
  }

  /** Without the letters of the tags in the middle, these mark the ends of the first fields. */
  lemma MarkedByLetter(b: seq<string>, alphabet: set<char>, i: nat)
    requires |b| == 13 && BodiesOver(b, alphabet) && i < 7
    requires 'd' !in alphabet && 'p' !in alphabet && 'f' !in alphabet && 'a' !in alphabet && 't' !in alphabet
    ensures Marked(TAGS[i + 1], b[i], if i < 2 then 0 else 1)
  {
    assert ("|" + TAGS[i + 1])[0] == '|' && ("|" + TAGS[i + 1])[1] == TAGS[i + 1][0];
  }

  /** What is printed between the last two fields of the wedge. */
  function Middle(q1: string, q2: string, q3: string, q4: string): string {
    "|s:" + q1 + "|e:" + q2 + "|z:" + q3 + "|u:" + q4 + "|c:"
  }

  lemma EndRegroups(x: string, q1: string, q2: string, q3: string, q4: string, y: string)
    ensures "t:" + x + "|" + ("s:" + q1 + "|" + ("e:" + q2 + "|" + ("z:" + q3 + "|" + ("u:" + q4 + "|" + ("c:" + y)))))
         == "t:" + x + Middle(q1, q2, q3, q4) + y
  {
  }

  lemma PrintEnd(b: seq<string>)
    requires |b| == 13
    ensures Print(TAGS[7..], b[7..]) == "t:" + b[7] + Middle(b[8], b[9], b[10], b[11]) + b[12]
  {
    hide Print;
    PrintStep(TAGS[7..], b[7..]);
    PrintStep(TAGS[8..], b[8..]);
    PrintStep(TAGS[9..], b[9..]);
    PrintStep(TAGS[10..], b[10..]);
    PrintStep(TAGS[11..], b[11..]);
    PrintOne("c:", b[12]);
    assert TAGS[7..][1..] == TAGS[8..] && TAGS[8..][1..] == TAGS[9..] && TAGS[9..][1..] == TAGS[10..];
    assert TAGS[10..][1..] == TAGS[11..] && TAGS[11..][1..] == TAGS[12..] == ["c:"];
    assert b[7..][1..] == b[8..] && b[8..][1..] == b[9..] && b[9..][1..] == b[10..];
    assert b[10..][1..] == b[11..] && b[11..][1..] == b[12..] == [b[12]];
    EndRegroups(b[7], b[8], b[9], b[10], b[11], b[12]);
  }

  /** Every separator is followed by another letter than s. */
  predicate NoSpendTag(s: string) {
    forall k | 0 <= k < |s| && s[k] == '|' :: k + 1 < |s| && s[k + 1] != 's'
  }

  lemma NoSpendTagConcat(x: string, y: string)
    requires NoSpendTag(x) && NoSpendTag(y)
    ensures NoSpendTag(x + y)
  {
    var s := x + y;
    forall k | 0 <= k < |s| && s[k] == '|' ensures k + 1 < |s| && s[k + 1] != 's' {
      if k < |x| { assert x[k] == '|'; } else { assert y[k - |x|] == '|'; }
    }
  }

  lemma NoSpendTagPieces(q1: string, q2: string, q3: string, q4: string)
    requires '|' !in q1 && '|' !in q2 && '|' !in q3 && '|' !in q4
    ensures NoSpendTag("s:" + q1) && NoSpendTag("|e:" + q2) && NoSpendTag("|z:" + q3) && NoSpendTag("|u:" + q4)
    ensures NoSpendTag("|c:")
  {
  }

  lemma MiddleHasOneSpendTag(q1: string, q2: string, q3: string, q4: string)
    requires '|' !in q1 && '|' !in q2 && '|' !in q3 && '|' !in q4
    ensures NoSpendTag(Middle(q1, q2, q3, q4)[1..])
  {
    hide NoSpendTag;
    NoSpendTagPieces(q1, q2, q3, q4);
    NoSpendTagConcat("s:" + q1, "|e:" + q2);
    NoSpendTagConcat("s:" + q1 + ("|e:" + q2), "|z:" + q3);
    NoSpendTagConcat("s:" + q1 + ("|e:" + q2) + ("|z:" + q3), "|u:" + q4);
    NoSpendTagConcat("s:" + q1 + ("|e:" + q2) + ("|z:" + q3) + ("|u:" + q4), "|c:");
    assert Middle(q1, q2, q3, q4)[1..] == "s:" + q1 + ("|e:" + q2) + ("|z:" + q3) + ("|u:" + q4) + "|c:";
  }

  lemma SpendTagAt(mid: string, k: nat, s: string, at: nat)
    requires 0 < k < |mid| && NoSpendTag(mid[1..]) && at + |mid| <= |s| && s[at..at + |mid|] == mid
    ensures s[at + k] == '|' ==> at + k + 1 < |s| && s[at + k + 1] != 's'
  {
    assert mid[1..][k - 1] == s[at + k];
    if s[at + k] == '|' {
      assert mid[1..][k] == mid[k + 1] == s[at..at + |mid|][k + 1];
    }
  }

  /** If the last fields but one differ in length, the longer one holds the whole middle of the other print. */
  lemma LongerHoldsMiddle(x: string, x': string, mid: string, mid': string, y: string, y': string)
    requires x + mid + y == x' + mid' + y' && |x| < |x'|
    requires "|s" <= mid && "|s" <= mid' && NoSpendTag(mid[1..])
    ensures |x'| >= |x| + |mid| && x'[|x|..|x| + |mid|] == mid
  {
    var s, k := x + mid + y, |x'| - |x|;
    assert s[|x'|] == mid'[0] && s[|x'| + 1] == mid'[1];
    if k < |mid| {
      SpendTagAt(mid, k, s, |x|);
    }
    assert x' == s[..|x'|] && mid == s[|x|..|x| + |mid|];
  }

  lemma MiddleOver(mid: string, q1: string, q2: string, q3: string, q4: string, alphabet: set<char>)
    requires mid == Middle(q1, q2, q3, q4) && StringOver(mid, alphabet)
    ensures {'|', ':', 's', 'e', 'z', 'u', 'c'} <= alphabet && StringOver(q1, alphabet)
  {
    var a, b, c := 3 + |q1|, 6 + |q1| + |q2|, 9 + |q1| + |q2| + |q3|;
    var d := c + 3 + |q4|;
    assert mid[0] == '|' && mid[1] == 's' && mid[2] == ':' && mid[3..a] == q1;
    assert mid[a + 1] == 'e' && mid[b + 1] == 'z' && mid[c + 1] == 'u' && mid[d + 1] == 'c';
    forall i | 0 <= i < |q1| ensures q1[i] in alphabet {
      assert q1[i] == mid[3..a][i] == mid[3 + i];
    }
  }

  lemma MiddleStarts(q1: string, q2: string, q3: string, q4: string)
    ensures "|s" <= Middle(q1, q2, q3, q4)
  {
  }

  lemma HoldingIsAmbiguous(b: seq<string>, b': seq<string>, r: Rational64, alphabet: set<char>)
    requires |b| == |b'| == 13 && BodiesOver(b, alphabet) && BodiesOver(b', alphabet) && b[8] == CanonicalRational(r)
    requires |b[7]| < |b'[7]|
    requires b[7] + Middle(b[8], b[9], b[10], b[11]) + b[12] == b'[7] + Middle(b'[8], b'[9], b'[10], b'[11]) + b'[12]
    ensures Ambiguous(alphabet)
  {
    hide CanonicalRational;
    var mid, mid' := Middle(b[8], b[9], b[10], b[11]), Middle(b'[8], b'[9], b'[10], b'[11]);
    MiddleStarts(b[8], b[9], b[10], b[11]);
    MiddleStarts(b'[8], b'[9], b'[10], b'[11]);
    MiddleHasOneSpendTag(b[8], b[9], b[10], b[11]);
    LongerHoldsMiddle(b[7], b'[7], mid, mid', b[12], b'[12]);
    assert StringOver(mid, alphabet) by {
      assert StringOver(b'[7], alphabet);
      forall i | 0 <= i < |mid| ensures mid[i] in alphabet {
        assert mid[i] == b'[7][|b[7]| + i];
      }
    }
    MiddleOver(mid, b[8], b[9], b[10], b[11], alphabet);
    FractionOverIff(alphabet);
  }

  /** The ends of two prints agree only if the bodies do. */
  lemma EndUnique(b: seq<string>, b': seq<string>, r: Rational64, r': Rational64, alphabet: set<char>)
    requires |b| == |b'| == 13 && BodiesOver(b, alphabet) && BodiesOver(b', alphabet) && !Ambiguous(alphabet)
    requires b[8] == CanonicalRational(r) && b'[8] == CanonicalRational(r')
    requires Print(TAGS[7..], b[7..]) == Print(TAGS[7..], b'[7..])
    ensures |b[7]| == |b'[7]|
  {
    hide Print, CanonicalRational, Ambiguous, BodiesOver, Middle;
    PrintEnd(b);
    PrintEnd(b');
    var mid, mid' := Middle(b[8], b[9], b[10], b[11]), Middle(b'[8], b'[9], b'[10], b'[11]);
    assert "t:" + b[7] + mid + b[12] == "t:" + (b[7] + mid + b[12]);
    assert "t:" + b'[7] + mid' + b'[12] == "t:" + (b'[7] + mid' + b'[12]);
    CancelPrefix("t:", b[7] + mid + b[12], b'[7] + mid' + b'[12]);
    if |b[7]| < |b'[7]| {
      HoldingIsAmbiguous(b, b', r, alphabet);
    } else if |b'[7]| < |b[7]| {
      HoldingIsAmbiguous(b', b, r', alphabet);
    }
  }

  lemma FractionMarked(b: seq<string>, alphabet: set<char>, i: nat)
    requires |b| == 13 && BodiesOver(b, alphabet) && 8 <= i < 12
    ensures Marked(TAGS[i + 1], b[i], 0)
  {
    assert ("|" + TAGS[i + 1])[0] == '|';
  }

  lemma SameLengthSplit(x: string, x': string, y: string, y': string)
    requires x + y == x' + y' && |x| == |x'|
    ensures x == x' && y == y'
  {
    assert x == (x + y)[..|x|] && x' == (x' + y')[..|x|];
    CancelPrefix(x, y, y');
  }

  lemma LastReadOff(b: seq<string>, b': seq<string>)
    requires |b| == |b'| == 13
    ensures Print(TAGS[8..][4..], b[8..][4..]) == Print(TAGS[8..][4..], b'[8..][4..]) ==> b[12] == b'[12]
    ensures Print(TAGS[12..], b[12..]) == Print(TAGS[12..], b'[12..]) ==> b[12] == b'[12]
  {
    hide Print;
    assert TAGS[8..][4..] == TAGS[12..] == ["c:"];
    assert b[8..][4..] == b[12..] == [b[12]] && b'[8..][4..] == b'[12..] == [b'[12]];
    PrintOne("c:", b[12]);
    PrintOne("c:", b'[12]);
    if "c:" + b[12] == "c:" + b'[12] { CancelPrefix("c:", b[12], b'[12]); }
  }

  /** From the last but one field on, bodies of the same length there are read off one after the other. */
  lemma EndReadOff(b: seq<string>, b': seq<string>, alphabet: set<char>)
    requires |b| == |b'| == 13 && BodiesOver(b, alphabet) && BodiesOver(b', alphabet) && |b[7]| == |b'[7]|
    requires Print(TAGS[7..], b[7..]) == Print(TAGS[7..], b'[7..])
    ensures b[7..] == b'[7..]
  {
    hide Print;
    PrintStep(TAGS[7..], b[7..]);
    PrintStep(TAGS[7..], b'[7..]);
    assert TAGS[7..][1..] == TAGS[8..] && b[7..][1..] == b[8..] && b'[7..][1..] == b'[8..];
    var rest, rest' := Print(TAGS[8..], b[8..]), Print(TAGS[8..], b'[8..]);
    assert "t:" + b[7] + "|" + rest == "t:" + (b[7] + ("|" + rest));
    assert "t:" + b'[7] + "|" + rest' == "t:" + (b'[7] + ("|" + rest'));
    CancelPrefix("t:", b[7] + ("|" + rest), b'[7] + ("|" + rest'));
    SameLengthSplit(b[7], b'[7], "|" + rest, "|" + rest');
    CancelPrefix("|", rest, rest');
    var marks := [0, 0, 0, 0];
    forall i | 0 <= i < 4
      ensures Marked(TAGS[8..][i + 1], b[8..][i], marks[i]) && Marked(TAGS[8..][i + 1], b'[8..][i], marks[i])
    {
      FractionMarked(b, alphabet, i + 8);
      FractionMarked(b', alphabet, i + 8);
      assert TAGS[8..][i + 1] == TAGS[i + 8 + 1] && b[8..][i] == b[i + 8] && b'[8..][i] == b'[i + 8];
    }
    PeelAll(TAGS[8..], b[8..], b'[8..], marks);
    LastReadOff(b, b');
    assert b[8..] == b[8..][..4] + [b[12]] && b'[8..] == b'[8..][..4] + [b'[12]];
    assert b[7..] == [b[7]] + b[8..] && b'[7..] == [b'[7]] + b'[8..];
  }

  lemma BodiesUnique(b: seq<string>, b': seq<string>, r: Rational64, r': Rational64, alphabet: set<char>)
    requires |b| == |b'| == 13 && BodiesOver(b, alphabet) && BodiesOver(b', alphabet) && !Ambiguous(alphabet)
    requires b[8] == CanonicalRational(r) && b'[8] == CanonicalRational(r')
    requires Print(TAGS, b) == Print(TAGS, b')
    ensures b == b'
  {
    hide Print, Marked, BodiesOver, CanonicalRational;
    if '|' !in alphabet || ':' !in alphabet {
      var marks := if '|' !in alphabet then [0, 0, 0, 0, 0, 0, 0, 0, 0, 0, 0, 0]
                   else [5, 2, 2, 2, 2, 2, 2, 2, 2, 2, 2, 2];
      forall i | 0 <= i < 12 ensures Marked(TAGS[i + 1], b[i], marks[i]) && Marked(TAGS[i + 1], b'[i], marks[i]) {
        MarkedThroughout(b, alphabet, i);
        MarkedThroughout(b', alphabet, i);
      }
      PeelAll(TAGS, b, b', marks);
      LastReadOff(b, b');
      assert b == b[..12] + [b[12]] && b' == b'[..12] + [b'[12]];
    } else {
      var marks := [0, 0, 1, 1, 1, 1, 1];
      forall i | 0 <= i < 7 ensures Marked(TAGS[i + 1], b[i], marks[i]) && Marked(TAGS[i + 1], b'[i], marks[i]) {
        MarkedByLetter(b, alphabet, i);
        MarkedByLetter(b', alphabet, i);
      }
      PeelAll(TAGS, b, b', marks);
      EndUnique(b, b', r, r', alphabet);
      EndReadOff(b, b', alphabet);
      assert b == b[..7] + b[7..] && b' == b'[..7] + b'[7..];
    }
  }

  /** Unique decoding: over an alphabet that is not ambiguous, as every one without `|` or without `:` is, two receipts
      print alike exactly when they have the same content. */
  lemma ReceiptUniquelyDecodable(r: CohBitReceipt, r': CohBitReceipt, alphabet: set<char>)
    requires !Ambiguous(alphabet) && Over(r.wedge, alphabet) && Over(r'.wedge, alphabet)
    ensures CanonicalReceipt(r) == CanonicalReceipt(r') <==> SameContent(r, r')
  {
    hide CanonicalReceipt, CanonicalRational, Ambiguous, SameContent, BodiesOver;
    ReceiptIsFlat(r);
    ReceiptIsFlat(r');
    SameBodiesIffSameContent(r, r');
    if CanonicalReceipt(r) == CanonicalReceipt(r') {
      ReceiptBodiesOver(r, alphabet);
      ReceiptBodiesOver(r', alphabet);
      BodiesUnique(Bodies(r), Bodies(r'), r.wedge.spend, r'.wedge.spend, alphabet);
    }
  }

  ghost predicate DecodableOver(alphabet: set<char>) {
    forall r: CohBitReceipt, r': CohBitReceipt | Over(r.wedge, alphabet) && Over(r'.wedge, alphabet) ::
      CanonicalReceipt(r) == CanonicalReceipt(r') <==> SameContent(r, r')
  }

  // ----- Receipts that print alike -----

  /** A receipt with the given string fields, one fraction in every place of the wedge, and zero valuations. */
  function Plain(fields: seq<string>, q: Rational64, certificateHash: string): CohBitReceipt
    requires |fields| == 6
  {
    CohBitReceipt("", ZERO, ZERO,
                  Wedge(fields[0], fields[1], fields[2], fields[3], fields[4], fields[5], q, q, q, q, certificateHash))
  }

  lemma PlainBodies(fields: seq<string>, q: Rational64, certificateHash: string)
    requires |fields| == 6
    ensures Bodies(Plain(fields, q, certificateHash))
         == [CanonicalRational(ZERO), CanonicalRational(ZERO)] + fields
            + [CanonicalRational(q), CanonicalRational(q), CanonicalRational(q), CanonicalRational(q),
               certificateHash + "]"]
  {
    hide CanonicalRational;
  }

  const BLANK: seq<string> := ["", "", "", "", "", ""]

  lemma {:induction false} PrintTailsAgree(tags: seq<string>, b: seq<string>, b': seq<string>, n: nat)
    requires n < |tags| == |b| == |b'| && b[..n] == b'[..n] && Print(tags[n..], b[n..]) == Print(tags[n..], b'[n..])
    ensures Print(tags, b) == Print(tags, b')
  {
    hide Print;
    if n == 0 {
      assert tags[0..] == tags && b[0..] == b && b'[0..] == b';
    } else {
      PrintStep(tags, b);
      PrintStep(tags, b');
      assert tags[1..][n - 1..] == tags[n..] && b[1..][n - 1..] == b[n..] && b'[1..][n - 1..] == b'[n..];
      assert b[0] == b[..n][0] == b'[..n][0] == b'[0];
      assert b[1..][..n - 1] == b[..n][1..] == b'[..n][1..] == b'[1..][..n - 1];
      PrintTailsAgree(tags[1..], b[1..], b'[1..], n - 1);
    }
  }

  lemma FlatIsPrint(b: seq<string>)
    requires |b| == 13
    ensures Join(Tagged(TAGS, b), '|') == Print(TAGS, b)
  {
  }

  lemma ShiftedTag(b: seq<string>, b': seq<string>, n: nat)
    requires |b| == |b'| == 13 && n < 11 && b[..n] == b'[..n] && b[n + 2..] == b'[n + 2..]
    requires b[n] == b'[n + 1] == "|" + TAGS[n + 1] && b[n + 1] == b'[n] == ""
    ensures Print(TAGS, b) == Print(TAGS, b')
  {
    hide Print;
    var t, u, s := TAGS[n], TAGS[n + 1], "|" + TAGS[n + 1];
    PrintStep(TAGS[n..], b[n..]);
    PrintStep(TAGS[n..], b'[n..]);
    PrintStep(TAGS[n + 1..], b[n + 1..]);
    PrintStep(TAGS[n + 1..], b'[n + 1..]);
    assert TAGS[n..][1..] == TAGS[n + 1..] && TAGS[n + 1..][1..] == TAGS[n + 2..];
    assert b[n..][1..] == b[n + 1..] && b[n + 1..][1..] == b[n + 2..];
    assert b'[n..][1..] == b'[n + 1..] && b'[n + 1..][1..] == b'[n + 2..];
    var rest := Print(TAGS[n + 2..], b[n + 2..]);
    assert t + s + "|" + (u + "" + "|" + rest) == t + "" + "|" + (u + s + "|" + rest);
    PrintTailsAgree(TAGS, b, b', n);
  }

  /** A separator with the tag of a field can stand at the end of the field before, or in the field itself. */
  lemma ShiftedPrintAlike(k: nat)
    requires k < 5
    ensures var shifted := "|" + TAGS[k + 3];
            CanonicalReceipt(Plain(BLANK[k := shifted], ZERO, ""))
            == CanonicalReceipt(Plain(BLANK[k + 1 := shifted], ZERO, ""))
  {
    hide Print, CanonicalReceipt, CanonicalRational, Plain, Bodies;
    var s := "|" + TAGS[k + 3];
    var r, r' := Plain(BLANK[k := s], ZERO, ""), Plain(BLANK[k + 1 := s], ZERO, "");
    PlainBodies(BLANK[k := s], ZERO, "");
    PlainBodies(BLANK[k + 1 := s], ZERO, "");
    ShiftedTag(Bodies(r), Bodies(r'), k + 2);
    ReceiptIsFlat(r);
    ReceiptIsFlat(r');
    FlatIsPrint(Bodies(r));
    FlatIsPrint(Bodies(r'));
  }

  /** All that is printed between the last two fields can stand at the end of the one or at the start of the other. */
  lemma MiddlePrintsAlike(q: Rational64)
    ensures var c := CanonicalRational(q);
            CanonicalReceipt(Plain(BLANK, q, Middle(c, c, c, c)))
            == CanonicalReceipt(Plain(BLANK[5 := Middle(c, c, c, c)], q, ""))
  {
    hide Print, CanonicalReceipt, CanonicalRational, Plain, Middle;
    var c := CanonicalRational(q);
    var mid := Middle(c, c, c, c);
    var r, r' := Plain(BLANK, q, mid), Plain(BLANK[5 := mid], q, "");
    PlainBodies(BLANK, q, mid);
    PlainBodies(BLANK[5 := mid], q, "");
    var b, b' := Bodies(r), Bodies(r');
    assert b[..7] == b'[..7];
    PrintEnd(b);
    PrintEnd(b');
    assert "t:" + "" + mid + (mid + "]") == "t:" + mid + mid + ("" + "]");
    PrintTailsAgree(TAGS, b, b', 7);
    ReceiptIsFlat(r);
    ReceiptIsFlat(r');
    FlatIsPrint(b);
    FlatIsPrint(b');
  }

  lemma PlainOver(k: nat, s: string, q: Rational64, certificateHash: string, alphabet: set<char>)
    requires k < 6 && StringOver(s, alphabet) && StringOver(certificateHash, alphabet)
    ensures Over(Plain(BLANK[k := s], q, certificateHash).wedge, alphabet)
  {
  }

  lemma ShiftBreaksDecoding(k: nat, alphabet: set<char>)
    requires k < 5 && '|' in alphabet && ':' in alphabet && TAGS[k + 3][0] in alphabet
    ensures !DecodableOver(alphabet)
  {
    hide CanonicalReceipt;
    var s := "|" + TAGS[k + 3];
    ShiftedPrintAlike(k);
    PlainOver(k, s, ZERO, "", alphabet);
    PlainOver(k + 1, s, ZERO, "", alphabet);
    assert !SameContent(Plain(BLANK[k := s], ZERO, ""), Plain(BLANK[k + 1 := s], ZERO, ""));
  }

  lemma MiddleBreaksDecoding(q: Rational64, alphabet: set<char>)
    requires {'|', ':', 's', 'e', 'z', 'u', 'c'} <= alphabet && StringOver(CanonicalRational(q), alphabet)
    ensures !DecodableOver(alphabet)
  {
    hide CanonicalReceipt, CanonicalRational;
    var c := CanonicalRational(q);
    var mid := Middle(c, c, c, c);
    MiddlePrintsAlike(q);
    PlainOver(0, "", q, mid, alphabet);
    PlainOver(5, mid, q, "", alphabet);
    assert BLANK[0 := ""] == BLANK && mid != "";
    assert !SameContent(Plain(BLANK, q, mid), Plain(BLANK[5 := mid], q, ""));
  }

  /** Exactly which field alphabets are safe: those that are not ambiguous. */
  lemma DecodableIffUnambiguous(alphabet: set<char>)
    ensures DecodableOver(alphabet) <==> !Ambiguous(alphabet)
  {
    hide CanonicalReceipt, CanonicalRational, Over, SameContent, DigitsForFraction;
    if !Ambiguous(alphabet) {
      forall r: CohBitReceipt, r': CohBitReceipt | Over(r.wedge, alphabet) && Over(r'.wedge, alphabet)
        ensures CanonicalReceipt(r) == CanonicalReceipt(r') <==> SameContent(r, r')
      {
        ReceiptUniquelyDecodable(r, r', alphabet);
      }
    } else if 'd' in alphabet || 'p' in alphabet || 'f' in alphabet || 'a' in alphabet || 't' in alphabet {
      ShiftBreaksDecoding(
        if 'd' in alphabet then 0 else if 'p' in alphabet then 1 else if 'f' in alphabet then 2
        else if 'a' in alphabet then 3 else 4, alphabet);
    } else {
      FractionOverIff(alphabet);
      var q: Rational64 :| StringOver(CanonicalRational(q), alphabet);
      MiddleBreaksDecoding(q, alphabet);
    }
  }

  // ----- Hash, builder and verifier -----

  function HashReceipt(sha: string -> string, r: CohBitReceipt): string {
    sha(CanonicalReceipt(r))
  }

  ghost predicate Injective(sha: string -> string) {
    forall x, y | sha(x) == sha(y) :: x == y
  }

  /** With an injective digest, a receipt id binds the whole content of the receipt. */
  lemma HashBindsContent(sha: string -> string, r: CohBitReceipt, r': CohBitReceipt, alphabet: set<char>)
    requires Injective(sha) && !Ambiguous(alphabet) && Over(r.wedge, alphabet) && Over(r'.wedge, alphabet)
    ensures HashReceipt(sha, r) == HashReceipt(sha, r') <==> SameContent(r, r')
  {
    ReceiptUniquelyDecodable(r, r', alphabet);
  }

  datatype FractionField = Pre | Post | Spend | Defect | Envelope | Authority

  function WithFraction(r: CohBitReceipt, field: FractionField, q: Rational64): CohBitReceipt {
    match field
    case Pre => r.(valuationPre := q)
    case Post => r.(valuationPost := q)
    case Spend => r.(wedge := r.wedge.(spend := q))
    case Defect => r.(wedge := r.wedge.(defect := q))
    case Envelope => r.(wedge := r.wedge.(prescribedEnvelope := q))
    case Authority => r.(wedge := r.wedge.(authority := q))
  }

  function FieldBody(field: FractionField): nat {
    match field
    case Pre => 0
    case Post => 1
    case Spend => 8
    case Defect => 9
    case Envelope => 10
    case Authority => 11
  }

  lemma WithFractionBodies(r: CohBitReceipt, field: FractionField, q: Rational64)
    ensures Bodies(WithFraction(r, field, q)) == Bodies(r)[FieldBody(field) := CanonicalRational(q)]
  {
    hide CanonicalRational;
  }

  lemma {:induction false} OneBodyDiffers(tags: seq<string>, b: seq<string>, i: nat, x: string, x': string)
    requires i < |tags| == |b| && x != x'
    ensures Print(tags, b[i := x]) != Print(tags, b[i := x'])
  {
    hide Print;
    var c, c' := b[i := x], b[i := x'];
    if |b| == 1 {
      PrintOne(tags[0], x);
      PrintOne(tags[0], x');
      assert tags == [tags[0]] && c == [x] && c' == [x'];
      if tags[0] + x == tags[0] + x' { CancelPrefix(tags[0], x, x'); }
    } else {
      PrintStep(tags, c);
      PrintStep(tags, c');
      var rest, rest' := "|" + Print(tags[1..], c[1..]), "|" + Print(tags[1..], c'[1..]);
      assert tags[0] + c[0] + "|" + Print(tags[1..], c[1..]) == tags[0] + (c[0] + rest);
      assert tags[0] + c'[0] + "|" + Print(tags[1..], c'[1..]) == tags[0] + (c'[0] + rest');
      if Print(tags, c) == Print(tags, c') {
        CancelPrefix(tags[0], c[0] + rest, c'[0] + rest');
        if i == 0 {
          assert c[1..] == c'[1..];
          CancelSuffix(x, x', rest);
        } else {
          assert c[1..] == b[1..][i - 1 := x] && c'[1..] == b[1..][i - 1 := x'];
          OneBodyDiffers(tags[1..], b[1..], i - 1, x, x');
          CancelPrefix(c[0], rest, rest');
          CancelPrefix("|", Print(tags[1..], c[1..]), Print(tags[1..], c'[1..]));
        }
      }
    }
  }

  /** Zeros over different denominators are equal, but with an injective digest receipts that differ only in such a
      zero, in whatever field, have different hashes. */
  lemma ZerosHashDifferently(sha: string -> string, r: CohBitReceipt, field: FractionField, d: pos, e: pos)
    requires Injective(sha)
    ensures Equals(Rational64(0, d), Rational64(0, e))
    ensures var r1, r2 := WithFraction(r, field, Rational64(0, d)), WithFraction(r, field, Rational64(0, e));
            HashReceipt(sha, r1) == HashReceipt(sha, r2) <==> d == e
  {
    hide CanonicalRational, CanonicalReceipt, Print, WithFraction, Bodies;
    var p, q := Rational64(0, d), Rational64(0, e);
    if d != e {
      ZerosPrintDifferently(d, e);
      WithFractionBodies(r, field, p);
      WithFractionBodies(r, field, q);
      ReceiptIsFlat(WithFraction(r, field, p));
      ReceiptIsFlat(WithFraction(r, field, q));
      FlatIsPrint(Bodies(WithFraction(r, field, p)));
      FlatIsPrint(Bodies(WithFraction(r, field, q)));
      OneBodyDiffers(TAGS, Bodies(r), FieldBody(field), CanonicalRational(p), CanonicalRational(q));
    }
  }

  datatype BuilderInput = BuilderInput(
    valuationPre: Rational64, valuationPost: Rational64, spend: Rational64, defect: Rational64,
    authority: Rational64, prescribedEnvelope: Rational64, fromState: string, toState: string,
    version: string, domainId: string, policyHash: string, actionHash: string, certificateHash: string)

  datatype BuildError = NotAdmissible | EnvelopeExceeded

  /** The comparison in the builder, whose right side is a division of numbers. */
  predicate DefectTooLarge(defect: Rational64, envelope: Rational64) {
    defect.numer as real > (defect.denom * envelope.numer) as real / envelope.denom as real
  }

  /** The id is the hash of the finished receipt, although it was computed with an empty id, and the
      receipt carries its inputs and obeys the law. */
  predicate BuiltFrom(sha: string -> string, input: BuilderInput, r: CohBitReceipt) {
    && r.bitId == HashReceipt(sha, r)
    && r.valuationPre == input.valuationPre && r.valuationPost == input.valuationPost
    && r.wedge.spend == input.spend && r.wedge.defect == input.defect && r.wedge.authority == input.authority
    && r.wedge.prescribedEnvelope == input.prescribedEnvelope
    && r.wedge.policyHash == input.policyHash && r.wedge.domainId == input.domainId
    && r.wedge.version == input.version && r.wedge.actionHash == input.actionHash
    && r.wedge.fromState == input.fromState && r.wedge.toState == input.toState
    && r.wedge.certificateHash == input.certificateHash
    && IsAdmissible(r.valuationPre, r.valuationPost, r.wedge.spend, r.wedge.defect, r.wedge.authority)
    && !DefectTooLarge(r.wedge.defect, r.wedge.prescribedEnvelope)
  }

  function BuildReceipt(sha: string -> string, input: BuilderInput): (result: Result<CohBitReceipt, BuildError>)
    ensures result.Ok? ==> BuiltFrom(sha, input, result.value)
  {
    if !IsAdmissible(input.valuationPre, input.valuationPost, input.spend, input.defect, input.authority) then
      Err(NotAdmissible)
    else if DefectTooLarge(input.defect, input.prescribedEnvelope) then
      Err(EnvelopeExceeded)
    else
      var wedge := Wedge(
        input.version, input.domainId, input.policyHash, input.fromState, input.actionHash, input.toState,
        input.spend, input.defect, input.prescribedEnvelope, input.authority, input.certificateHash);
      var bitId := HashReceipt(sha, CohBitReceipt("", input.valuationPre, input.valuationPost, wedge));
      Ok(CohBitReceipt(bitId, input.valuationPre, input.valuationPost, wedge))
  }

  lemma EnvelopeMeaning(defect: Rational64, envelope: Rational64)
    ensures DefectTooLarge(defect, envelope) <==> Value(defect) > Value(envelope)
  {
  }

  /** The builder succeeds exactly on lawful inputs within the envelope, and says which check failed. */
  lemma BuildReceiptOutcome(sha: string -> string, input: BuilderInput)
    ensures var lawful := Value(input.valuationPost) + Value(input.spend)
                       <= Value(input.valuationPre) + Value(input.defect) + Value(input.authority);
            var fits := Value(input.defect) <= Value(input.prescribedEnvelope);
            var result := BuildReceipt(sha, input);
            && (result.Ok? <==> lawful && fits)
            && (result == Err(NotAdmissible) <==> !lawful)
            && (result == Err(EnvelopeExceeded) <==> lawful && !fits)
  {
    AdmissibilityLaw(input.valuationPre, input.valuationPost, input.spend, input.defect, input.authority);
    EnvelopeMeaning(input.defect, input.prescribedEnvelope);
  }

  datatype GmiStatus = GmiStatus(
    blockHeight: nat, receiptHash: string, hashVerified: bool, signatureVerified: bool,
    transitionAdmissible: bool)

  function VerifyGmiStatus(sha: string -> string, receipt: CohBitReceipt, expectedHash: string): GmiStatus {
    var computed := HashReceipt(sha, receipt);
    var admissible := IsAdmissible(
      receipt.valuationPre, receipt.valuationPost, receipt.wedge.spend, receipt.wedge.defect,
      receipt.wedge.authority);
    GmiStatus(0, computed, computed == expectedHash, false, admissible)
  }

  /** What verification reports, for every receipt and expected hash: whether the hash of the print is the expected one,
      and whether the receipt obeys the law; no signature is ever verified. */
  lemma VerifyMeaning(sha: string -> string, receipt: CohBitReceipt, expectedHash: string)
    ensures var s, w := VerifyGmiStatus(sha, receipt, expectedHash), receipt.wedge;
            && (s.hashVerified <==> sha(CanonicalReceipt(receipt)) == expectedHash)
            && s.receiptHash == sha(CanonicalReceipt(receipt)) && s.blockHeight == 0 && !s.signatureVerified
            && (s.transitionAdmissible <==>
                  Value(receipt.valuationPost) + Value(w.spend)
                  <= Value(receipt.valuationPre) + Value(w.defect) + Value(w.authority))
  {
    hide CanonicalReceipt;
    AdmissibilityLaw(receipt.valuationPre, receipt.valuationPost, receipt.wedge.spend, receipt.wedge.defect,
                     receipt.wedge.authority);
  }

  /** Verification accepts every receipt the builder made, and, with an injective digest, only receipts
      with the same content under that id. */
  lemma VerifierAcceptsExactlyBuilt(sha: string -> string, input: BuilderInput, other: CohBitReceipt,
                                    alphabet: set<char>)
    requires Injective(sha) && !Ambiguous(alphabet) && Over(other.wedge, alphabet)
    ensures var built := BuildReceipt(sha, input);
            built.Ok? ==>
              var r := built.value;
              && VerifyGmiStatus(sha, r, r.bitId).hashVerified
              && VerifyGmiStatus(sha, r, r.bitId).transitionAdmissible
              && (Over(r.wedge, alphabet) ==>
                    (VerifyGmiStatus(sha, other, r.bitId).hashVerified <==> SameContent(other, r)))
  {
    hide CanonicalReceipt;
    var built := BuildReceipt(sha, input);
    if built.Ok? && Over(built.value.wedge, alphabet) {
      HashBindsContent(sha, other, built.value, alphabet);
    }
  }
}
