/** Polynomials over the field of two elements, as the finite sets of their exponents. */
module Polynomials {

  type Poly = set<nat>

  ghost function Sum(p: Poly, q: Poly): (r: Poly)
    ensures forall e: nat :: e in r <==> ((e in p) != (e in q))
  {
    (p - q) + (q - p)
  }

  /** Multiplication by the k-th power of x. */
  ghost function Shift(p: Poly, k: nat): (r: Poly)
    ensures forall e: nat {:trigger e in r} :: e in r <==> e >= k && e - k in p
  {
    set e | e in p :: e + k
  }

  /** The product of the polynomial with coefficients q, highest first, and g. */
  ghost function Times(q: seq<bool>, g: Poly): Poly {
    if q == [] then {}
    else Sum(Shift(Times(q[..|q| - 1], g), 1), if q[|q| - 1] then g else {})
  }

  ghost predicate Multiple(p: Poly, g: Poly) {
    exists q: seq<bool> :: p == Times(q, g)
  }

  /** The two polynomials leave the same remainder modulo g. */
  ghost predicate Congruent(p: Poly, q: Poly, g: Poly) {
    Multiple(Sum(p, q), g)
  }

  ghost predicate HasDegree(g: Poly, d: nat) {
    d in g && forall e :: e in g ==> e <= d
  }

  // ---------------------------------------------------------------- sums, shifts, products

  lemma {:induction false} SumAssociates(p: Poly, q: Poly, r: Poly)
    ensures Sum(Sum(p, q), r) == Sum(p, Sum(q, r))
  {
    assert forall e: nat :: e in Sum(Sum(p, q), r) <==> e in Sum(p, Sum(q, r));
  }

  lemma {:induction false} SumCommutes(p: Poly, q: Poly)
    ensures Sum(p, q) == Sum(q, p)
  {
    assert forall e: nat :: e in Sum(p, q) <==> e in Sum(q, p);
  }

  lemma {:induction false} SumWithNothing(p: Poly)
    ensures Sum(p, {}) == p && Sum({}, p) == p && Sum(p, p) == {}
  {
  }

  lemma {:induction false} SumVanishes(p: Poly, q: Poly)
    requires Sum(p, q) == {}
    ensures p == q
  {
    forall e: nat ensures e in p <==> e in q {
      assert e !in Sum(p, q);
    }
  }

  /** The sum of two sums that share a term. */
  lemma {:induction false} SumMeets(p: Poly, q: Poly, r: Poly)
    ensures Sum(Sum(p, q), Sum(q, r)) == Sum(p, r)
  {
    assert forall e: nat :: e in Sum(Sum(p, q), Sum(q, r)) <==> e in Sum(p, r);
  }

  lemma {:induction false} SumPairs(p: Poly, q: Poly, x: Poly, y: Poly)
    ensures Sum(Sum(p, q), Sum(x, y)) == Sum(Sum(p, x), Sum(q, y))
  {
    assert forall e: nat :: e in Sum(Sum(p, q), Sum(x, y)) <==> e in Sum(Sum(p, x), Sum(q, y));
  }

  lemma {:induction false} ShiftedSum(p: Poly, q: Poly, k: nat)
    ensures Shift(Sum(p, q), k) == Sum(Shift(p, k), Shift(q, k))
  {
    assert forall e: nat :: e in Shift(Sum(p, q), k) <==> e in Sum(Shift(p, k), Shift(q, k));
  }

  lemma {:induction false} ShiftedTwice(p: Poly, j: nat, k: nat)
    ensures Shift(Shift(p, j), k) == Shift(p, j + k)
  {
    assert forall e: nat :: e in Shift(Shift(p, j), k) <==> e in Shift(p, j + k);
  }

  lemma {:induction false} ShiftedByNothing(p: Poly)
    ensures Shift(p, 0) == p
  {
    assert forall e: nat :: e in Shift(p, 0) <==> e in p;
  }

  lemma {:induction false} ShiftedNothing(k: nat)
    ensures Shift({}, k) == {}
  {
    assert forall e: nat :: e !in Shift({}, k);
  }

  function Zeros(n: nat): (z: seq<bool>)
    ensures |z| == n
  {
    if n == 0 then [] else Zeros(n - 1) + [false]
  }

  function Either(a: seq<bool>, b: seq<bool>): (c: seq<bool>)
    requires |a| == |b|
    ensures |c| == |a|
  {
    if a == [] then [] else Either(a[..|a| - 1], b[..|b| - 1]) + [a[|a| - 1] != b[|b| - 1]]
  }

  lemma {:induction false} TimesSnoc(q: seq<bool>, c: bool, g: Poly)
    ensures Times(q + [c], g) == Sum(Shift(Times(q, g), 1), if c then g else {})
  {
    assert (q + [c])[..|q|] == q;
  }

  lemma {:induction false} TimesZeros(q: seq<bool>, n: nat, g: Poly)
    ensures Times(q + Zeros(n), g) == Shift(Times(q, g), n)
  {
    var p := Times(q, g);
    if n == 0 {
      assert q + Zeros(0) == q;
      ShiftedByNothing(p);
    } else {
      TimesZeros(q, n - 1, g);
      assert q + Zeros(n) == (q + Zeros(n - 1)) + [false];
      TimesSnoc(q + Zeros(n - 1), false, g);
      ShiftedTwice(p, n - 1, 1);
      SumWithNothing(Shift(p, n));
    }
  }

  lemma {:induction false} TimesOnlyZeros(n: nat, g: Poly)
    ensures Times(Zeros(n), g) == {}
  {
    if n > 0 {
      TimesOnlyZeros(n - 1, g);
      TimesSnoc(Zeros(n - 1), false, g);
      ShiftedNothing(1);
      SumWithNothing({});
    }
  }

  lemma {:induction false} TimesLeadingZeros(q: seq<bool>, n: nat, g: Poly)
    ensures Times(Zeros(n) + q, g) == Times(q, g)
  {
    if q == [] {
      assert Zeros(n) + q == Zeros(n);
      TimesOnlyZeros(n, g);
    } else {
      var earlier, c := q[..|q| - 1], q[|q| - 1];
      assert Zeros(n) + q == (Zeros(n) + earlier) + [c];
      TimesLeadingZeros(earlier, n, g);
      TimesSnoc(Zeros(n) + earlier, c, g);
    }
  }

  lemma {:induction false} TimesSum(a: seq<bool>, b: seq<bool>, g: Poly)
    requires |a| == |b|
    ensures Times(Either(a, b), g) == Sum(Times(a, g), Times(b, g))
  {
    if a == [] {
      SumWithNothing({});
    } else {
      var n := |a| - 1;
      var p, q := Times(a[..n], g), Times(b[..n], g);
      var c := Either(a, b);
      assert c[..n] == Either(a[..n], b[..n]);
      TimesSum(a[..n], b[..n], g);
      ShiftedSum(p, q, 1);
      var x, y := if a[n] then g else {}, if b[n] then g else {};
      SumWithNothing({});
      SumWithNothing(g);
      assert Sum(x, y) == if c[n] then g else {};
      SumPairs(Shift(p, 1), Shift(q, 1), x, y);
    }
  }

  // ---------------------------------------------------------------- multiples of a generator

  lemma {:induction false} MultiplesShift(p: Poly, k: nat, g: Poly)
    requires Multiple(p, g)
    ensures Multiple(Shift(p, k), g)
  {
    var q: seq<bool> :| p == Times(q, g);
    TimesZeros(q, k, g);
    assert Shift(p, k) == Times(q + Zeros(k), g);
  }

  lemma {:induction false} MultiplesAdd(p: Poly, r: Poly, g: Poly)
    requires Multiple(p, g) && Multiple(r, g)
    ensures Congruent(p, r, g)
  {
    var a: seq<bool> :| p == Times(a, g);
    var b: seq<bool> :| r == Times(b, g);
    var x, y := Zeros(|b|) + a, Zeros(|a|) + b;
    TimesLeadingZeros(a, |b|, g);
    TimesLeadingZeros(b, |a|, g);
    TimesSum(x, y, g);
    assert Sum(p, r) == Times(Either(x, y), g);
  }

  lemma {:induction false} TrivialMultiples(g: Poly)
    ensures Multiple({}, g) && Multiple(g, g)
  {
    assert Times([], g) == {};
    ShiftedNothing(1);
    SumWithNothing(g);
    assert [true][..0] == [];
    assert Times([true], g) == g;
  }

  lemma {:induction false} CongruentToItself(p: Poly, g: Poly)
    ensures Congruent(p, p, g)
  {
    SumWithNothing(p);
    TrivialMultiples(g);
  }

  /** A nonzero multiple has a term of the generator's degree or above. */
  lemma {:induction false} MultiplesAreHigh(q: seq<bool>, g: Poly, d: nat)
    requires HasDegree(g, d)
    ensures Times(q, g) == {} || exists e :: e in Times(q, g) && e >= d
  {
    if q != [] {
      var n := |q| - 1;
      var p := Times(q[..n], g);
      MultiplesAreHigh(q[..n], g, d);
      if p == {} {
        ShiftedNothing(1);
        SumWithNothing(g);
        SumWithNothing({});
        assert q[n] ==> d in Times(q, g);
      } else {
        var e :| e in p && e >= d;
        assert e + 1 in Shift(p, 1) && e + 1 !in g;
        assert e + 1 in Times(q, g);
      }
    }
  }

  /** A remainder below the degree is unique. */
  lemma {:induction false} RemainderIsUnique(p: Poly, r: Poly, s: Poly, g: Poly, d: nat)
    requires HasDegree(g, d) && Congruent(p, r, g) && Congruent(p, s, g)
    requires (forall e :: e in r ==> e < d) && (forall e :: e in s ==> e < d)
    ensures r == s
  {
    MultiplesAdd(Sum(p, r), Sum(p, s), g);
    SumCommutes(p, r);
    SumMeets(r, p, s);
    LowMultipleVanishes(Sum(r, s), g, d);
    SumVanishes(r, s);
  }

  /** x divides no generator with a constant term, so a power of x can be taken out of a multiple. */
  lemma {:induction false} MultiplesUnshift(p: Poly, k: nat, g: Poly)
    requires 0 in g && Multiple(Shift(p, k), g)
    ensures Multiple(p, g)
  {
    if k == 0 {
      ShiftedByNothing(p);
    } else {
      ShiftedTwice(p, k - 1, 1);
      MultiplesUnshiftOnce(Shift(p, k - 1), g);
      MultiplesUnshift(p, k - 1, g);
    }
  }

  lemma {:induction false} MultiplesUnshiftOnce(p: Poly, g: Poly)
    requires 0 in g && Multiple(Shift(p, 1), g)
    ensures Multiple(p, g)
  {
    var q: seq<bool> :| Shift(p, 1) == Times(q, g);
    assert 0 !in Shift(p, 1);
    if q == [] {
      assert forall e :: e in p ==> e + 1 in Shift(p, 1);
      TrivialMultiples(g);
    } else {
      var n := |q| - 1;
      var earlier := Times(q[..n], g);
      assert q == q[..n] + [q[n]];
      TimesSnoc(q[..n], q[n], g);
      assert 0 !in Shift(earlier, 1);
      assert !q[n];
      SumWithNothing(Shift(earlier, 1));
      assert Shift(p, 1) == Shift(earlier, 1);
      forall e: nat ensures e in p <==> e in earlier {
        assert e + 1 in Shift(p, 1) <==> e in p;
        assert e + 1 in Shift(earlier, 1) <==> e in earlier;
      }
    }
  }

  /** A multiple below the degree is zero. */
  lemma {:induction false} LowMultipleVanishes(p: Poly, g: Poly, d: nat)
    requires HasDegree(g, d) && Multiple(p, g) && forall e :: e in p ==> e < d
    ensures p == {}
  {
    var q: seq<bool> :| p == Times(q, g);
    MultiplesAreHigh(q, g, d);
  }
}
