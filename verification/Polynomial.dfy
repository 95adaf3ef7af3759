/** Polynomials over the field of two elements, as the sets of their exponents, and division by the
    CRC32c generator. */
module Polynomial {

  type Poly = set<nat>

  /** Coefficients add without carry. */
  function Plus(p: Poly, q: Poly): Poly {
    (p - q) + (q - p)
  }

  /** `p` times the `k`-th power of x. */
  function TimesX(p: Poly, k: nat): Poly {
    set i | i in p :: i + k
  }

  /** `q` times the polynomial with these exponents. */
  function Times(q: Poly, exponents: seq<nat>): Poly {
    if |exponents| == 0 then {} else Plus(TimesX(q, exponents[0]), Times(q, exponents[1..]))
  }

  function Exponents(es: seq<nat>): Poly {
    set e | e in es
  }

  predicate Below(p: Poly, n: nat) {
    forall i :: i in p ==> i < n
  }

  /** The generator of section 12.1 of RFC 3720. */
  const GENERATOR: seq<nat> := [32, 28, 27, 26, 25, 23, 22, 20, 19, 18, 14, 13, 11, 10, 9, 8, 6, 0]

  /** The two differ by a multiple of the generator. */
  ghost predicate Congruent(a: Poly, b: Poly) {
    exists q: Poly :: a == Plus(Times(q, GENERATOR), b)
  }

  /** `r` is the remainder of `a` after division by the generator. */
  ghost predicate IsRemainder(a: Poly, r: Poly) {
    Below(r, 32) && Congruent(a, r)
  }

  // ---- sums and shifts ------------------------------------------------------------------------------

  lemma InPlus(p: Poly, q: Poly, i: nat)
    ensures i in Plus(p, q) <==> ((i in p) != (i in q))
  {
  }

  lemma InTimesX(p: Poly, k: nat, i: nat)
    ensures i in TimesX(p, k) <==> i >= k && i - k in p
  {
    if i >= k && i - k in p {
      assert (i - k) + k in TimesX(p, k);
    }
  }

  lemma PlusZero(p: Poly)
    ensures Plus(p, {}) == p && Plus({}, p) == p
  {
  }

  lemma PlusAssociative(p: Poly, q: Poly, r: Poly)
    ensures Plus(Plus(p, q), r) == Plus(p, Plus(q, r))
  {
  }

  /** Sums of sums regroup. */
  lemma PlusRegroups(p: Poly, q: Poly, r: Poly, s: Poly)
    ensures Plus(Plus(p, q), Plus(r, s)) == Plus(Plus(p, r), Plus(q, s))
  {
  }

  lemma TimesXPlus(p: Poly, q: Poly, k: nat)
    ensures TimesX(Plus(p, q), k) == Plus(TimesX(p, k), TimesX(q, k))
  {
    hide Plus, TimesX;
    forall i: nat ensures i in TimesX(Plus(p, q), k) <==> i in Plus(TimesX(p, k), TimesX(q, k)) {
      InTimesX(Plus(p, q), k, i);
      InTimesX(p, k, i);
      InTimesX(q, k, i);
      InPlus(TimesX(p, k), TimesX(q, k), i);
      if i >= k {
        InPlus(p, q, i - k);
      }
    }
  }

  lemma TimesXTwice(p: Poly, j: nat, k: nat)
    ensures TimesX(TimesX(p, j), k) == TimesX(p, j + k)
  {
    hide TimesX;
    forall i: nat ensures i in TimesX(TimesX(p, j), k) <==> i in TimesX(p, j + k) {
      InTimesX(TimesX(p, j), k, i);
      InTimesX(p, j + k, i);
      if i >= k {
        InTimesX(p, j, i - k);
      }
    }
  }

  lemma TimesXNothing(p: Poly, k: nat)
    ensures TimesX(p, 0) == p && TimesX({}, k) == {}
  {
    forall i: nat ensures i in TimesX(p, 0) <==> i in p {
      InTimesX(p, 0, i);
    }
  }

  // ---- multiples ------------------------------------------------------------------------------------

  lemma {:induction false} TimesPlus(p: Poly, q: Poly, es: seq<nat>)
    ensures Times(Plus(p, q), es) == Plus(Times(p, es), Times(q, es))
  {
    hide Plus, TimesX;
    if |es| == 0 {
      PlusZero({});
    } else {
      TimesXPlus(p, q, es[0]);
      TimesPlus(p, q, es[1..]);
      PlusRegroups(TimesX(p, es[0]), TimesX(q, es[0]), Times(p, es[1..]), Times(q, es[1..]));
    }
  }

  lemma {:induction false} TimesOfShift(q: Poly, k: nat, es: seq<nat>)
    ensures Times(TimesX(q, k), es) == TimesX(Times(q, es), k)
  {
    hide Plus, TimesX;
    if |es| == 0 {
      TimesXNothing({}, k);
    } else {
      TimesOfShift(q, k, es[1..]);
      TimesXTwice(q, k, es[0]);
      TimesXTwice(q, es[0], k);
      TimesXPlus(TimesX(q, es[0]), Times(q, es[1..]), k);
    }
  }

  lemma {:induction false} TimesNothing(es: seq<nat>)
    ensures Times({}, es) == {}
  {
    if |es| > 0 {
      TimesNothing(es[1..]);
    }
  }

  /** Each exponent is greater than the next. */
  predicate Descending(es: seq<nat>) {
    forall j {:trigger es[j]} :: 0 <= j < |es| - 1 ==> es[j] > es[j + 1]
  }

  lemma {:induction false} HeadIsGreatest(es: seq<nat>, k: nat)
    requires Descending(es) && 0 < k < |es|
    ensures es[0] > es[k]
  {
    if k > 1 {
      HeadIsGreatest(es, k - 1);
    }
  }

  lemma HeadAndRest(es: seq<nat>)
    requires Descending(es) && |es| > 0
    ensures Descending(es[1..]) && Below(Exponents(es[1..]), es[0])
    ensures Exponents(es) == Exponents(es[1..]) + {es[0]}
  {
    forall k | 0 < k < |es| ensures es[0] > es[k] {
      HeadIsGreatest(es, k);
    }
    assert es == [es[0]] + es[1..];
  }

  lemma {:induction false} TimesOne(es: seq<nat>)
    requires Descending(es)
    ensures Times({0}, es) == Exponents(es)
  {
    hide Descending, Exponents;
    if |es| > 0 {
      HeadAndRest(es);
      TimesOne(es[1..]);
      assert TimesX({0}, es[0]) == {es[0]} by { forall i: nat { InTimesX({0}, es[0], i); } }
    } else {
      NoExponents();
    }
  }

  lemma NoExponents()
    ensures Exponents([]) == {}
  {
  }

  /** A leading power is the whole polynomial less its other powers. */
  lemma LeadingPower(h: Poly, es: seq<nat>)
    requires Descending(es) && |es| > 0 && Below(h, es[0])
    ensures h + {es[0]} == Plus(Times({0}, es), Plus(h, Exponents(es[1..])))
  {
    hide Times, Exponents, Descending;
    TimesOne(es);
    HeadAndRest(es);
  }

  lemma {:induction false} TimesBelow(q: Poly, es: seq<nat>, d: nat, n: nat)
    requires Below(q, d) && forall e :: e in es ==> e <= n
    ensures Below(Times(q, es), d + n)
  {
    if |es| > 0 {
      assert es[0] in es && forall e :: e in es[1..] ==> e in es;
      TimesBelow(q, es[1..], d, n);
    }
  }

  // ---- congruence -----------------------------------------------------------------------------------

  lemma CongruentSelf(a: Poly)
    ensures Congruent(a, a)
  {
    TimesNothing(GENERATOR);
    PlusZero(a);
    assert a == Plus(Times({}, GENERATOR), a);
  }

  lemma CongruentPlus(a: Poly, b: Poly, c: Poly)
    requires Congruent(a, b)
    ensures Congruent(Plus(a, c), Plus(b, c))
  {
    hide Times, Plus;
    var q: Poly :| a == Plus(Times(q, GENERATOR), b);
    PlusAssociative(Times(q, GENERATOR), b, c);
  }

  lemma CongruentTimesX(a: Poly, b: Poly, k: nat)
    requires Congruent(a, b)
    ensures Congruent(TimesX(a, k), TimesX(b, k))
  {
    hide Times, Plus, TimesX;
    var q: Poly :| a == Plus(Times(q, GENERATOR), b);
    TimesXPlus(Times(q, GENERATOR), b, k);
    TimesOfShift(q, k, GENERATOR);
    assert TimesX(a, k) == Plus(Times(TimesX(q, k), GENERATOR), TimesX(b, k));
  }

  lemma CongruentTransitive(a: Poly, b: Poly, c: Poly)
    requires Congruent(a, b) && Congruent(b, c)
    ensures Congruent(a, c)
  {
    hide Times, Plus;
    var p: Poly :| a == Plus(Times(p, GENERATOR), b);
    var q: Poly :| b == Plus(Times(q, GENERATOR), c);
    PlusAssociative(Times(p, GENERATOR), Times(q, GENERATOR), c);
    TimesPlus(p, q, GENERATOR);
    assert a == Plus(Times(Plus(p, q), GENERATOR), c);
  }

  // ---- the remainder is unique ------------------------------------------------------------------------

  lemma {:induction false} Greatest(p: Poly) returns (d: nat)
    requires p != {}
    ensures d in p && Below(p, d + 1)
  {
    d :| d in p;
    if p != {d} {
      var rest := p - {d};
      var e := Greatest(rest);
      assert forall i :: i in p ==> i == d || i in rest;
      d := if e > d then e else d;
    }
  }

  /** A multiple of the generator other than zero has degree 32 or more. */
  lemma HighTerm(q: Poly) returns (d: nat)
    requires q != {}
    ensures d >= 32 && d in Times(q, GENERATOR)
  {
    var top := Greatest(q);
    var rest := GENERATOR[1..];
    TimesBelow(q, rest, top + 1, 28);
    d := top + 32;
    InTimesX(q, 32, d);
    InPlus(TimesX(q, 32), Times(q, rest), d);
  }

  lemma MultipleIsHigh(q: Poly)
    requires Below(Times(q, GENERATOR), 32)
    ensures q == {}
  {
    hide Times;
    if q != {} {
      var d := HighTerm(q);
    }
  }

  /** No polynomial has two remainders. */
  lemma RemainderUnique(a: Poly, r: Poly, s: Poly)
    requires IsRemainder(a, r) && IsRemainder(a, s)
    ensures r == s
  {
    hide Times;
    var p: Poly :| a == Plus(Times(p, GENERATOR), r);
    var q: Poly :| a == Plus(Times(q, GENERATOR), s);
    TimesPlus(p, q, GENERATOR);
    PlusRegroups(Times(p, GENERATOR), r, Times(q, GENERATOR), s);
    SumsAgree(Times(Plus(p, q), GENERATOR), r, s, a);
    MultipleIsHigh(Plus(p, q));
    TimesNothing(GENERATOR);
  }

  lemma SumsAgree(m: Poly, r: Poly, s: Poly, a: Poly)
    requires Below(r, 32) && Below(s, 32) && Plus(m, Plus(r, s)) == Plus(a, a)
    ensures Below(m, 32) && (m == {} ==> r == s)
  {
    assert Plus(a, a) == {};
    forall i | i in m ensures i < 32 {
      InPlus(m, Plus(r, s), i);
      InPlus(r, s, i);
    }
    if m == {} {
      forall i: nat ensures i in r <==> i in s {
        InPlus(m, Plus(r, s), i);
        InPlus(r, s, i);
      }
    }
  }
}
