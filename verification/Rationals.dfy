/** Valuations, spends, defects and authorities as exact fractions, and the admissibility law (src/types.ts). */
module Rationals {
  type pos = x: int | 1 <= x witness 1

  datatype Rational64 = Rational64(numer: int, denom: pos)

  predicate Equals(a: Rational64, b: Rational64) {
    a.numer * b.denom == b.numer * a.denom
  }

  lemma MulPos(a: pos, b: pos)
    ensures a * b >= 1
  {
  }

  function Add(a: Rational64, b: Rational64): Rational64 {
    MulPos(a.denom, b.denom);
    Rational64(a.numer * b.denom + b.numer * a.denom, a.denom * b.denom)
  }

  function Sub(a: Rational64, b: Rational64): Rational64 {
    MulPos(a.denom, b.denom);
    Rational64(a.numer * b.denom - b.numer * a.denom, a.denom * b.denom)
  }

  function Cmp(a: Rational64, b: Rational64): int {
    var lhs := a.numer * b.denom;
    var rhs := b.numer * a.denom;
    if lhs < rhs then -1 else if lhs > rhs then 1 else 0
  }

  predicate Le(a: Rational64, b: Rational64) {
    Cmp(a, b) <= 0
  }

  /** V(post) + s <= V(pre) + d + a, computed on fractions. */
  predicate IsAdmissible(pre: Rational64, post: Rational64, spend: Rational64, defect: Rational64,
                         authority: Rational64)
  {
    var lhs := Add(post, spend);
    var rhs := Add(Add(pre, defect), authority);
    Le(lhs, rhs)
  }

  // ----- The number a fraction stands for -----

  ghost function Value(r: Rational64): real {
    r.numer as real / r.denom as real
  }

  lemma CmpMeaning(a: Rational64, b: Rational64)
    ensures Cmp(a, b) == (if Value(a) < Value(b) then -1 else if Value(a) > Value(b) then 1 else 0)
    ensures Le(a, b) <==> Value(a) <= Value(b)
    ensures Equals(a, b) <==> Value(a) == Value(b)
  {
  }

  lemma AddSubMeaning(a: Rational64, b: Rational64)
    ensures Value(Add(a, b)) == Value(a) + Value(b)
    ensures Value(Sub(a, b)) == Value(a) - Value(b)
  {
  }

  /** The check on fractions is the admissibility law on the numbers they denote. */
  lemma AdmissibilityLaw(pre: Rational64, post: Rational64, spend: Rational64, defect: Rational64,
                         authority: Rational64)
    ensures IsAdmissible(pre, post, spend, defect, authority)
       <==> Value(post) + Value(spend) <= Value(pre) + Value(defect) + Value(authority)
  {
  }

  /** Admissibility does not depend on how the five fractions are written. */
  lemma AdmissibilityIgnoresRepresentation(
    pre: Rational64, post: Rational64, spend: Rational64, defect: Rational64, authority: Rational64,
    pre': Rational64, post': Rational64, spend': Rational64, defect': Rational64, authority': Rational64)
    requires Equals(pre, pre') && Equals(post, post') && Equals(spend, spend')
    requires Equals(defect, defect') && Equals(authority, authority')
    ensures IsAdmissible(pre, post, spend, defect, authority)
       <==> IsAdmissible(pre', post', spend', defect', authority')
  {
    CmpMeaning(pre, pre');
    CmpMeaning(post, post');
    CmpMeaning(spend, spend');
    CmpMeaning(defect, defect');
    CmpMeaning(authority, authority');
    AdmissibilityLaw(pre, post, spend, defect, authority);
    AdmissibilityLaw(pre', post', spend', defect', authority');
  }

  // ----- Chains of admissible transitions -----

  datatype Transition = Transition(pre: Rational64, post: Rational64, spend: Rational64,
                                   defect: Rational64, authority: Rational64)

  predicate Admissible(t: Transition) {
    IsAdmissible(t.pre, t.post, t.spend, t.defect, t.authority)
  }

  /** Every transition is admissible and starts at the valuation where the one before it ended. */
  predicate Chain(ts: seq<Transition>) {
    && (forall i | 0 <= i < |ts| :: Admissible(ts[i]))
    && (forall i | 0 < i < |ts| :: Equals(ts[i - 1].post, ts[i].pre))
  }

  const ZERO := Rational64(0, 1)

  function Sum(rs: seq<Rational64>): Rational64 {
    if rs == [] then ZERO else Add(Sum(rs[..|rs| - 1]), rs[|rs| - 1])
  }

  function Spends(ts: seq<Transition>): seq<Rational64> { seq(|ts|, i requires 0 <= i < |ts| => ts[i].spend) }
  function Defects(ts: seq<Transition>): seq<Rational64> { seq(|ts|, i requires 0 <= i < |ts| => ts[i].defect) }
  function Authorities(ts: seq<Transition>): seq<Rational64> { seq(|ts|, i requires 0 <= i < |ts| => ts[i].authority) }

  /** The law telescopes: a chain is itself one admissible transition, by the code's own check,
      with the total spend, defect and authority. */
  lemma {:induction false} AdmissibilityTelescopes(ts: seq<Transition>)
    requires ts != [] && Chain(ts)
    ensures IsAdmissible(ts[0].pre, ts[|ts| - 1].post, Sum(Spends(ts)), Sum(Defects(ts)), Sum(Authorities(ts)))
    ensures Value(ts[|ts| - 1].post) + Value(Sum(Spends(ts)))
         <= Value(ts[0].pre) + Value(Sum(Defects(ts))) + Value(Sum(Authorities(ts)))
  {
    var n := |ts| - 1;
    var front, last := ts[..n], ts[n];
    assert Spends(front) == Spends(ts)[..n];
    assert Defects(front) == Defects(ts)[..n];
    assert Authorities(front) == Authorities(ts)[..n];
    AddSubMeaning(Sum(Spends(front)), last.spend);
    AddSubMeaning(Sum(Defects(front)), last.defect);
    AddSubMeaning(Sum(Authorities(front)), last.authority);
    AdmissibilityLaw(last.pre, last.post, last.spend, last.defect, last.authority);
    if front == [] {
      assert Value(ZERO) == 0.0;
    } else {
      AdmissibilityTelescopes(front);
      CmpMeaning(front[n - 1].post, last.pre);
    }
    AdmissibilityLaw(ts[0].pre, last.post, Sum(Spends(ts)), Sum(Defects(ts)), Sum(Authorities(ts)));
  }
}
