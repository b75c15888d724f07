/** Commutative rings given as a record of operations, with finite sums and powers.
    The laws are quantified under explicit triggers, so that a proof instantiates
    exactly the ones it names. */
module Rings {
  datatype Ring<!T> = Ring(zero: T, one: T, neg: T -> T, add: (T, T) -> T, mul: (T, T) -> T)

  /** Names a tuple of elements at which a law is wanted. */
  predicate At<T>(a: T, b: T, c: T) { true }

  ghost predicate Lawful<T(!new)>(r: Ring<T>) {
    && (forall a, b, c {:trigger At(a, b, c)} ::
          && r.add(a, b) == r.add(b, a)
          && r.add(r.add(a, b), c) == r.add(a, r.add(b, c))
          && r.add(a, r.zero) == a
          && r.add(a, r.neg(a)) == r.zero)
    && (forall a, b, c {:trigger At(a, b, c)} ::
          && r.mul(a, b) == r.mul(b, a)
          && r.mul(r.mul(a, b), c) == r.mul(a, r.mul(b, c))
          && r.mul(a, r.one) == a
          && r.mul(a, r.add(b, c)) == r.add(r.mul(a, b), r.mul(a, c)))
  }

  lemma AddComm<T(!new)>(r: Ring<T>, a: T, b: T)
    requires Lawful(r)
    ensures r.add(a, b) == r.add(b, a)
  { assert At(a, b, a); }

  lemma AddAssoc<T(!new)>(r: Ring<T>, a: T, b: T, c: T)
    requires Lawful(r)
    ensures r.add(r.add(a, b), c) == r.add(a, r.add(b, c))
  { assert At(a, b, c); }

  lemma AddZero<T(!new)>(r: Ring<T>, a: T)
    requires Lawful(r)
    ensures r.add(a, r.zero) == a
    ensures r.add(r.zero, a) == a
  { assert At(a, r.zero, a); }

  lemma AddNeg<T(!new)>(r: Ring<T>, a: T)
    requires Lawful(r)
    ensures r.add(a, r.neg(a)) == r.zero
  { assert At(a, a, a); }

  lemma MulComm<T(!new)>(r: Ring<T>, a: T, b: T)
    requires Lawful(r)
    ensures r.mul(a, b) == r.mul(b, a)
  { assert At(a, b, a); }

  lemma MulAssoc<T(!new)>(r: Ring<T>, a: T, b: T, c: T)
    requires Lawful(r)
    ensures r.mul(r.mul(a, b), c) == r.mul(a, r.mul(b, c))
  { assert At(a, b, c); }

  lemma MulOne<T(!new)>(r: Ring<T>, a: T)
    requires Lawful(r)
    ensures r.mul(a, r.one) == a
    ensures r.mul(r.one, a) == a
  { assert At(a, r.one, a); }

  lemma Distrib<T(!new)>(r: Ring<T>, a: T, b: T, c: T)
    requires Lawful(r)
    ensures r.mul(a, r.add(b, c)) == r.add(r.mul(a, b), r.mul(a, c))
  { assert At(a, b, c); }

  lemma MulZero<T(!new)>(r: Ring<T>, a: T)
    requires Lawful(r)
    ensures r.mul(a, r.zero) == r.zero
    ensures r.mul(r.zero, a) == r.zero
  {
    var p := r.mul(a, r.zero);
    AddZero(r, r.zero);
    Distrib(r, a, r.zero, r.zero);
    assert r.add(p, p) == p;
    AddAssoc(r, p, p, r.neg(p));
    AddNeg(r, p);
    AddZero(r, p);
    MulComm(r, a, r.zero);
  }

  /** (a + b) + (c + d) == (a + c) + (b + d) */
  lemma AddSwap<T(!new)>(r: Ring<T>, a: T, b: T, c: T, d: T)
    requires Lawful(r)
    ensures r.add(r.add(a, b), r.add(c, d)) == r.add(r.add(a, c), r.add(b, d))
  {
    AddAssoc(r, a, b, r.add(c, d));
    AddAssoc(r, b, c, d);
    AddComm(r, b, c);
    AddAssoc(r, c, b, d);
    AddAssoc(r, a, c, r.add(b, d));
  }

  /** (a * b) * (c * d) == (a * c) * (b * d) */
  lemma MulSwap<T(!new)>(r: Ring<T>, a: T, b: T, c: T, d: T)
    requires Lawful(r)
    ensures r.mul(r.mul(a, b), r.mul(c, d)) == r.mul(r.mul(a, c), r.mul(b, d))
  {
    MulAssoc(r, a, b, r.mul(c, d));
    MulAssoc(r, b, c, d);
    MulComm(r, b, c);
    MulAssoc(r, c, b, d);
    MulAssoc(r, a, c, r.mul(b, d));
  }

  function Pow<T>(r: Ring<T>, w: T, n: nat): T {
    if n == 0 then r.one else r.mul(w, Pow(r, w, n - 1))
  }

  lemma PowAdd<T(!new)>(r: Ring<T>, w: T, a: nat, b: nat)
    requires Lawful(r)
    ensures Pow(r, w, a + b) == r.mul(Pow(r, w, a), Pow(r, w, b))
  {
    if a == 0 {
      MulOne(r, Pow(r, w, b));
    } else {
      PowAdd(r, w, a - 1, b);
      MulAssoc(r, w, Pow(r, w, a - 1), Pow(r, w, b));
    }
  }

  lemma {:induction false} PowMul<T(!new)>(r: Ring<T>, w: T, a: nat, b: nat)
    requires Lawful(r)
    ensures Pow(r, w, a * b) == Pow(r, Pow(r, w, a), b)
  {
    if b != 0 {
      PowMul(r, w, a, b - 1);
      assert a * b == a + a * (b - 1);
      PowAdd(r, w, a, a * (b - 1));
    }
  }

  /** (u * v)^n == u^n * v^n */
  lemma {:induction false} PowBase<T(!new)>(r: Ring<T>, u: T, v: T, n: nat)
    requires Lawful(r)
    ensures Pow(r, r.mul(u, v), n) == r.mul(Pow(r, u, n), Pow(r, v, n))
  {
    if n == 0 {
      MulOne(r, r.one);
    } else {
      PowBase(r, u, v, n - 1);
      MulSwap(r, u, v, Pow(r, u, n - 1), Pow(r, v, n - 1));
    }
  }

  /** x added up n times. */
  function Times<T>(r: Ring<T>, n: nat, x: T): T {
    if n == 0 then r.zero else r.add(Times(r, n - 1, x), x)
  }

  lemma TimesAdd<T(!new)>(r: Ring<T>, a: nat, b: nat, x: T)
    requires Lawful(r)
    ensures Times(r, a + b, x) == r.add(Times(r, a, x), Times(r, b, x))
  {
    if b == 0 {
      AddZero(r, Times(r, a, x));
    } else {
      TimesAdd(r, a, b - 1, x);
      AddAssoc(r, Times(r, a, x), Times(r, b - 1, x), x);
    }
  }

  lemma TimesOne<T(!new)>(r: Ring<T>, n: nat, x: T)
    requires Lawful(r)
    ensures r.mul(x, Times(r, n, r.one)) == Times(r, n, x)
  {
    if n == 0 {
      MulZero(r, x);
    } else {
      TimesOne(r, n - 1, x);
      Distrib(r, x, Times(r, n - 1, r.one), r.one);
      MulOne(r, x);
    }
  }

  /** f(0) + f(1) + ... + f(n - 1) */
  function Sum<T>(r: Ring<T>, f: nat -> T, n: nat): T {
    if n == 0 then r.zero else r.add(Sum(r, f, n - 1), f(n - 1))
  }

  lemma SumExt<T(!new)>(r: Ring<T>, f: nat -> T, g: nat -> T, n: nat)
    requires forall i: nat :: i < n ==> f(i) == g(i)
    ensures Sum(r, f, n) == Sum(r, g, n)
  {}

  lemma SumAdd<T(!new)>(r: Ring<T>, f: nat -> T, g: nat -> T, h: nat -> T, n: nat)
    requires Lawful(r)
    requires forall i: nat :: i < n ==> h(i) == r.add(f(i), g(i))
    ensures Sum(r, h, n) == r.add(Sum(r, f, n), Sum(r, g, n))
  {
    if n == 0 {
      AddZero(r, r.zero);
    } else {
      SumAdd(r, f, g, h, n - 1);
      AddSwap(r, Sum(r, f, n - 1), Sum(r, g, n - 1), f(n - 1), g(n - 1));
    }
  }

  lemma SumScale<T(!new)>(r: Ring<T>, c: T, f: nat -> T, h: nat -> T, n: nat)
    requires Lawful(r)
    requires forall i: nat :: i < n ==> h(i) == r.mul(c, f(i))
    ensures Sum(r, h, n) == r.mul(c, Sum(r, f, n))
  {
    if n == 0 {
      MulZero(r, c);
    } else {
      SumScale(r, c, f, h, n - 1);
      Distrib(r, c, Sum(r, f, n - 1), f(n - 1));
    }
  }

  lemma SumZero<T(!new)>(r: Ring<T>, f: nat -> T, n: nat)
    requires Lawful(r)
    requires forall i: nat :: i < n ==> f(i) == r.zero
    ensures Sum(r, f, n) == r.zero
  {
    if n != 0 {
      SumZero(r, f, n - 1);
      AddZero(r, r.zero);
    }
  }

  /** A sum with at most one non-zero term, at index p. */
  lemma SumSingle<T(!new)>(r: Ring<T>, f: nat -> T, n: nat, p: nat)
    requires Lawful(r)
    requires p < n
    requires forall i: nat :: i < n && i != p ==> f(i) == r.zero
    ensures Sum(r, f, n) == f(p)
  {
    if p == n - 1 {
      SumZero(r, f, n - 1);
    } else {
      SumSingle(r, f, n - 1, p);
    }
    AddZero(r, f(p));
  }

  /** Splitting a sum into its even and its odd terms. */
  lemma {:induction false} SumEvenOdd<T(!new)>(r: Ring<T>, f: nat -> T, e: nat -> T, o: nat -> T, n: nat)
    requires Lawful(r)
    requires forall i: nat :: i < n ==> e(i) == f(2 * i) && o(i) == f(2 * i + 1)
    ensures Sum(r, f, 2 * n) == r.add(Sum(r, e, n), Sum(r, o, n))
  {
    if n == 0 {
      AddZero(r, r.zero);
    } else {
      SumEvenOdd(r, f, e, o, n - 1);
      var s := Sum(r, f, 2 * n - 2);
      assert Sum(r, f, 2 * n - 1) == r.add(s, f(2 * n - 2));
      assert e(n - 1) == f(2 * n - 2) && o(n - 1) == f(2 * n - 1);
      AddAssoc(r, s, e(n - 1), o(n - 1));
      AddSwap(r, Sum(r, e, n - 1), Sum(r, o, n - 1), e(n - 1), o(n - 1));
    }
  }

  /** Exchanging two finite sums. */
  lemma {:induction false} SumSwap<T(!new)>(r: Ring<T>, f: (nat, nat) -> T, m: nat, n: nat)
    requires Lawful(r)
    ensures Sum(r, (i: nat) => Sum(r, (j: nat) => f(i, j), n), m)
         == Sum(r, (j: nat) => Sum(r, (i: nat) => f(i, j), m), n)
  {
    var rows := (i: nat) => Sum(r, (j: nat) => f(i, j), n);
    var cols := (m': nat) => ((j: nat) => Sum(r, (i: nat) => f(i, j), m'));
    if m == 0 {
      var col0 := cols(0);
      forall j: nat | j < n ensures col0(j) == r.zero {
        assert col0(j) == Sum(r, (i: nat) => f(i, j), 0);
      }
      SumZero(r, col0, n);
    } else {
      SumSwap(r, f, m - 1, n);
      assert Sum(r, rows, m - 1) == Sum(r, cols(m - 1), n);
      SumAdd(r, cols(m - 1), (j: nat) => f(m - 1, j), cols(m), n);
    }
    assert Sum(r, cols(m), n) == Sum(r, (j: nat) => Sum(r, (i: nat) => f(i, j), m), n) by {
      SumExt(r, cols(m), (j: nat) => Sum(r, (i: nat) => f(i, j), m), n);
    }
  }
}
