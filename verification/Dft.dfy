/** The Cooley-Tukey bin evaluator of host/examples/ascii_art_dft.hpp over any commutative ring:
    it computes the discrete Fourier transform, and the bins determine the samples. */
module Dft {
  import opened Rings

  datatype Result<+V> = Ok(value: V) | NotAPowerOfTwo

  // ---------- powers of two ----------

  predicate IsPow2(n: nat) {
    n == 1 || (n > 1 && n % 2 == 0 && IsPow2(n / 2))
  }

  function Pow2(k: nat): (p: nat)
    ensures p >= 1
  {
    if k == 0 then 1 else 2 * Pow2(k - 1)
  }

  /** Number of halvings from n down to one. */
  function Log2(n: nat): nat
    requires IsPow2(n)
  {
    if n == 1 then 0 else 1 + Log2(n / 2)
  }

  /** Bitwise and of two unsigned integers of any width. */
  function BitAnd(a: nat, b: nat): nat
    decreases a + b
  {
    if a == 0 || b == 0 then 0
    else (if a % 2 == 1 && b % 2 == 1 then 1 else 0) + 2 * BitAnd(a / 2, b / 2)
  }

  lemma BitAndSelf(a: nat)
    ensures BitAnd(a, a) == a
  {}

  /** The guard `nsamps & (nsamps - 1)` lets through zero and exactly the powers of two. */
  lemma {:induction false} GuardIsPow2(n: nat)
    requires n > 0
    ensures BitAnd(n, n - 1) == 0 <==> IsPow2(n)
  {
    if n == 1 {
    } else if n % 2 == 0 {
      GuardIsPow2(n / 2);
      assert (n - 1) / 2 == n / 2 - 1;
    } else {
      assert (n - 1) / 2 == n / 2;
      BitAndSelf(n / 2);
    }
  }

  // ---------- the evaluator ----------

  /** `samps` at `i`, and zero outside it. */
  function SampleAt<T>(r: Ring<T>, samps: seq<T>, i: nat): T {
    if i < |samps| then samps[i] else r.zero
  }

  /** Every index the recursion over nsamps points reads lies below len. */
  predicate InStride(nsamps: nat, start: nat, step: nat, len: nat)
    requires IsPow2(nsamps)
    decreases nsamps
  {
    if nsamps == 1 then start < len
    else InStride(nsamps / 2, start, step * 2, len) && InStride(nsamps / 2, start + step, step * 2, len)
  }

  /** The recursion stays inside the stretch start, start + step, ..., of nsamps points. */
  lemma {:induction false} StrideFits(nsamps: nat, start: nat, step: nat, len: nat)
    requires IsPow2(nsamps)
    requires start + (nsamps - 1) * step < len
    ensures InStride(nsamps, start, step, len)
    decreases nsamps
  {
    if nsamps > 1 {
      assert (nsamps / 2 - 1) * (step * 2) == (nsamps - 2) * step;
      assert (nsamps - 1) * step == (nsamps - 2) * step + step;
      StrideFits(nsamps / 2, start, step * 2, len);
      StrideFits(nsamps / 2, start + step, step * 2, len);
    }
  }

  /** ct_fft_f: dropping the first factor stands for the shifted pointer `factors+1`. The
      preconditions say that no access leaves the samples or the factor table. */
  function CtFftF<T>(r: Ring<T>, samps: seq<T>, nsamps: nat, factors: seq<T>, start: nat, step: nat): T
    requires IsPow2(nsamps)
    requires InStride(nsamps, start, step, |samps|)
    requires Log2(nsamps) <= |factors|
    decreases nsamps
  {
    if nsamps == 1 then samps[start]
    else
      var even := CtFftF(r, samps, nsamps / 2, factors[1..], start, step * 2);
      var odd := CtFftF(r, samps, nsamps / 2, factors[1..], start + step, step * 2);
      r.add(even, r.mul(factors[0], odd))
  }

  /** How often that recursion reads the sample at index i. */
  function Reads(nsamps: nat, start: nat, step: nat, i: nat): nat
    requires IsPow2(nsamps)
    decreases nsamps
  {
    if nsamps == 1 then (if i == start then 1 else 0)
    else Reads(nsamps / 2, start, step * 2, i) + Reads(nsamps / 2, start + step, step * 2, i)
  }

  lemma DifferentParity(step: nat, m: nat, k: nat)
    requires step > 0
    ensures m * (step * 2) != step + k * (step * 2)
  {
    var d := m - k;
    assert d * (step * 2) == m * (step * 2) - k * (step * 2);
    if d >= 1 {
      assert d * (step * 2) >= step * 2;
    } else {
      assert d * (step * 2) <= 0;
    }
  }

  /** Nothing outside the stretch is read. */
  lemma {:induction false} NotRead(nsamps: nat, start: nat, step: nat, i: nat)
    requires IsPow2(nsamps) && forall n: nat :: n < nsamps ==> i != start + n * step
    ensures Reads(nsamps, start, step, i) == 0
    decreases nsamps
  {
    assert start + 0 * step == start;
    if nsamps > 1 {
      forall n: nat | n < nsamps / 2 ensures i != start + n * (step * 2) && i != start + step + n * (step * 2) {
        assert n * (step * 2) == (2 * n) * step && step + n * (step * 2) == (2 * n + 1) * step;
      }
      NotRead(nsamps / 2, start, step * 2, i);
      NotRead(nsamps / 2, start + step, step * 2, i);
    }
  }

  /** Every other sample of the stretch, from its first or from its second, belongs to one half only. */
  lemma OtherHalf(nsamps: nat, start: nat, step: nat, m: nat)
    requires IsPow2(nsamps) && nsamps > 1 && step > 0
    ensures Reads(nsamps / 2, start + step, step * 2, start + m * (step * 2)) == 0
    ensures Reads(nsamps / 2, start, step * 2, start + step + m * (step * 2)) == 0
  {
    forall k: nat ensures start + m * (step * 2) != start + step + k * (step * 2)
                  ensures start + step + m * (step * 2) != start + k * (step * 2) {
      DifferentParity(step, m, k);
      DifferentParity(step, k, m);
    }
    NotRead(nsamps / 2, start + step, step * 2, start + m * (step * 2));
    NotRead(nsamps / 2, start, step * 2, start + step + m * (step * 2));
  }

  lemma HalfIndex(step: nat, n: nat)
    ensures n * step == if n % 2 == 0 then n / 2 * (step * 2) else step + n / 2 * (step * 2)
  {
    assert n / 2 * (step * 2) == (2 * (n / 2)) * step;
    assert n % 2 == 1 ==> (2 * (n / 2) + 1) * step == (2 * (n / 2)) * step + step;
  }

  /** The recursion reads every sample of its stretch exactly once. */
  lemma {:induction false} ReadOnce(nsamps: nat, start: nat, step: nat, n: nat)
    requires IsPow2(nsamps) && step > 0 && n < nsamps
    ensures Reads(nsamps, start, step, start + n * step) == 1
    decreases nsamps
  {
    if nsamps > 1 {
      HalfIndex(step, n);
      OtherHalf(nsamps, start, step, n / 2);
      if n % 2 == 0 {
        ReadOnce(nsamps / 2, start, step * 2, n / 2);
      } else {
        ReadOnce(nsamps / 2, start + step, step * 2, n / 2);
      }
    }
  }

  /** factors[j] == w^(2^j) for every level the recursion of nsamps points reaches. */
  ghost predicate FactorTable<T>(r: Ring<T>, factors: seq<T>, w: T, nsamps: nat)
    requires IsPow2(nsamps)
  {
    && Log2(nsamps) <= |factors|
    && forall j: nat :: j < Log2(nsamps) ==> factors[j] == Pow(r, w, Pow2(j))
  }

  /** The n-th term of the transform of the strided samples. */
  function Term<T>(r: Ring<T>, samps: seq<T>, w: T, start: nat, step: nat): nat -> T {
    (n: nat) => r.mul(SampleAt(r, samps, start + n * step), Pow(r, w, n))
  }

  /** Each factor is the square of the one before it, down to one point. */
  ghost predicate Squares<T>(r: Ring<T>, factors: seq<T>, w: T, nsamps: nat)
    requires IsPow2(nsamps)
  {
    nsamps == 1 || (factors != [] && factors[0] == w && Squares(r, factors[1..], r.mul(w, w), nsamps / 2))
  }

  lemma PowOneIs<T(!new)>(r: Ring<T>, w: T)
    requires Lawful(r)
    ensures Pow(r, w, 1) == w
    ensures Pow(r, w, 2) == r.mul(w, w)
  {
    assert Pow(r, w, 1) == r.mul(w, Pow(r, w, 0));
    MulOne(r, w);
    assert Pow(r, w, 2) == r.mul(w, Pow(r, w, 1));
  }

  lemma SquaredTable<T(!new)>(r: Ring<T>, factors: seq<T>, w: T, nsamps: nat)
    requires Lawful(r)
    requires IsPow2(nsamps) && nsamps > 1
    requires FactorTable(r, factors, w, nsamps)
    ensures FactorTable(r, factors[1..], r.mul(w, w), nsamps / 2)
  {
    forall j: nat | j < Log2(nsamps / 2)
      ensures factors[1..][j] == Pow(r, r.mul(w, w), Pow2(j))
    {
      assert factors[1..][j] == factors[j + 1];
      PowOneIs(r, w);
      PowMul(r, w, 2, Pow2(j));
    }
  }

  lemma {:induction false} TableIsSquares<T(!new)>(r: Ring<T>, factors: seq<T>, w: T, nsamps: nat)
    requires Lawful(r)
    requires IsPow2(nsamps) && FactorTable(r, factors, w, nsamps)
    ensures Squares(r, factors, w, nsamps)
    decreases nsamps
  {
    PowOneIs(r, w);
    if nsamps > 1 {
      assert factors[0] == Pow(r, w, Pow2(0)) == w;
      SquaredTable(r, factors, w, nsamps);
      TableIsSquares(r, factors[1..], r.mul(w, w), nsamps / 2);
    }
  }

  lemma OnePoint<T(!new)>(r: Ring<T>, samps: seq<T>, w: T, start: nat, step: nat)
    requires Lawful(r) && start < |samps|
    ensures samps[start] == Sum(r, Term(r, samps, w, start, step), 1)
  {
    var f := Term(r, samps, w, start, step);
    assert Sum(r, f, 1) == r.add(Sum(r, f, 0), f(0));
    AddZero(r, f(0));
    MulOne(r, samps[start]);
  }

  /** Even terms are the half-length transform at w*w; odd terms are that times w. */
  lemma EvenOddTerms<T(!new)>(r: Ring<T>, samps: seq<T>, w: T, start: nat, step: nat, h: nat)
    requires Lawful(r)
    ensures Sum(r, Term(r, samps, w, start, step), 2 * h)
         == r.add(Sum(r, Term(r, samps, r.mul(w, w), start, step * 2), h),
                  r.mul(w, Sum(r, Term(r, samps, r.mul(w, w), start + step, step * 2), h)))
  {
    var f := Term(r, samps, w, start, step);
    var w2 := r.mul(w, w);
    var e := Term(r, samps, w2, start, step * 2);
    var o := Term(r, samps, w2, start + step, step * 2);
    var wo := (n: nat) => r.mul(w, o(n));
    forall n: nat | n < h ensures e(n) == f(2 * n) && wo(n) == f(2 * n + 1) {
      PowOneIs(r, w);
      PowMul(r, w, 2, n);
      assert start + n * (step * 2) == start + (2 * n) * step;
      assert start + step + n * (step * 2) == start + (2 * n + 1) * step;
      var x, p := SampleAt(r, samps, start + (2 * n + 1) * step), Pow(r, w, 2 * n);
      assert f(2 * n + 1) == r.mul(x, r.mul(w, p));
      assert wo(n) == r.mul(w, r.mul(x, p));
      MulAssoc(r, w, x, p);
      MulComm(r, w, x);
      MulAssoc(r, x, w, p);
    }
    SumEvenOdd(r, f, e, wo, h);
    SumScale(r, w, o, wo, h);
  }

  lemma {:induction false} SquaresIsSum<T(!new)>(
      r: Ring<T>, samps: seq<T>, nsamps: nat, factors: seq<T>, start: nat, step: nat, w: T)
    requires Lawful(r)
    requires IsPow2(nsamps) && Log2(nsamps) <= |factors|
    requires InStride(nsamps, start, step, |samps|)
    requires Squares(r, factors, w, nsamps)
    ensures CtFftF(r, samps, nsamps, factors, start, step) == Sum(r, Term(r, samps, w, start, step), nsamps)
    decreases nsamps
  {
    hide Lawful, Sum, Term;
    if nsamps == 1 {
      OnePoint(r, samps, w, start, step);
    } else {
      var h, w2 := nsamps / 2, r.mul(w, w);
      SquaresIsSum(r, samps, h, factors[1..], start, step * 2, w2);
      SquaresIsSum(r, samps, h, factors[1..], start + step, step * 2, w2);
      EvenOddTerms(r, samps, w, start, step, h);
    }
  }

  /** For every ring element w, the strided recursion is the plain sum of x[n] * w^n. */
  lemma CtFftFIsSum<T(!new)>(
      r: Ring<T>, samps: seq<T>, nsamps: nat, factors: seq<T>, start: nat, step: nat, w: T)
    requires Lawful(r)
    requires IsPow2(nsamps) && FactorTable(r, factors, w, nsamps)
    requires InStride(nsamps, start, step, |samps|)
    ensures CtFftF(r, samps, nsamps, factors, start, step) == Sum(r, Term(r, samps, w, start, step), nsamps)
  {
    TableIsSquares(r, factors, w, nsamps);
    SquaresIsSum(r, samps, nsamps, factors, start, step, w);
  }

  // ---------- one bin, and all bins ----------

  /** What exp(-2*pi*i*k/N) satisfies for the powers of two N up to n: the k-th power of its
      value at one, the square at half the period, and minus one at half a turn. */
  ghost predicate IsExp<T(!new)>(r: Ring<T>, exp: (nat, nat) -> T, n: nat) {
    && (forall k: nat, m: nat {:trigger exp(k, m)} :: IsPow2(m) && m <= n ==> exp(k, m) == Pow(r, exp(1, m), k))
    && (forall m: nat {:trigger exp(1, m)} ::
          IsPow2(m) && 2 <= m <= n ==> exp(1, m / 2) == r.mul(exp(1, m), exp(1, m)))
    && (n >= 2 ==> exp(1, 2) == r.neg(r.one))
  }

  /** Halving the period squares the exponential. */
  lemma ExpHalve<T(!new)>(r: Ring<T>, exp: (nat, nat) -> T, top: nat, n: nat, k: nat)
    requires Lawful(r) && IsExp(r, exp, top)
    requires IsPow2(n) && 2 <= n <= top
    ensures exp(k, n / 2) == r.mul(exp(k, n), exp(k, n))
  {
    var w := exp(1, n);
    PowOneIs(r, w);
    PowMul(r, w, 2, k);
    PowMul(r, w, k, 2);
    assert 2 * k == k * 2;
    PowOneIs(r, exp(k, n));
  }

  /** Bin k of the transform, term by term: x[n] * exp(-2*pi*i*k*n/N). */
  function Bin<T>(r: Ring<T>, exp: (nat, nat) -> T, samps: seq<T>, k: nat): T {
    Sum(r, (n: nat) => r.mul(SampleAt(r, samps, n), exp(k * n, |samps|)), |samps|)
  }

  /** The factor loop has come down to n: what is in the table, and the factor it will add next. */
  ghost predicate TableDownTo<T>(r: Ring<T>, exp: (nat, nat) -> T, nsamps: nat, k: nat, n: nat, factors: seq<T>)
    requires IsPow2(nsamps)
  {
    && (forall j: nat :: j < |factors| ==> factors[j] == Pow(r, exp(k, nsamps), Pow2(j)))
    && if n == 0 then |factors| == Log2(nsamps) + 1
       else
         && n <= nsamps && IsPow2(n) && |factors| + Log2(n) == Log2(nsamps)
         && exp(k, n) == Pow(r, exp(k, nsamps), Pow2(|factors|))
  }

  lemma NextFactor<T(!new)>(r: Ring<T>, exp: (nat, nat) -> T, top: nat, n: nat, k: nat, w: T, j: nat)
    requires Lawful(r) && IsExp(r, exp, top)
    requires IsPow2(n) && 2 <= n <= top
    requires exp(k, n) == Pow(r, w, Pow2(j))
    ensures exp(k, n / 2) == Pow(r, w, Pow2(j + 1))
  {
    ExpHalve(r, exp, top, n, k);
    PowAdd(r, w, Pow2(j), Pow2(j));
  }

  lemma TableStep<T(!new)>(r: Ring<T>, exp: (nat, nat) -> T, nsamps: nat, k: nat, n: nat, factors: seq<T>)
    requires Lawful(r) && IsExp(r, exp, nsamps) && IsPow2(nsamps)
    requires n > 0 && TableDownTo(r, exp, nsamps, k, n, factors)
    ensures TableDownTo(r, exp, nsamps, k, n / 2, factors + [exp(k, n)])
  {
    hide Lawful, IsExp, Pow, Pow2;
    if n > 1 {
      NextFactor(r, exp, nsamps, n, k, exp(k, nsamps), |factors|);
      assert Log2(n) == 1 + Log2(n / 2);
    }
  }

  /** The factor loop of ct_fft_k: exp(k, n) for n = N, N/2, ..., 1. */
  method Factors<T(!new)>(r: Ring<T>, exp: (nat, nat) -> T, nsamps: nat, k: nat) returns (factors: seq<T>)
    requires Lawful(r) && IsExp(r, exp, nsamps) && IsPow2(nsamps)
    ensures |factors| == Log2(nsamps) + 1
    ensures forall j: nat :: j < |factors| ==> factors[j] == Pow(r, exp(k, nsamps), Pow2(j))
  {
    PowOneIs(r, exp(k, nsamps));
    factors := [];
    var n := nsamps;
    while n != 0
      invariant TableDownTo(r, exp, nsamps, k, n, factors)
      decreases n
    {
      TableStep(r, exp, nsamps, k, n, factors);
      factors := factors + [exp(k, n)];
      n := n / 2;
    }
  }

  lemma TermsAreBin<T(!new)>(r: Ring<T>, exp: (nat, nat) -> T, samps: seq<T>, k: nat)
    requires Lawful(r) && IsExp(r, exp, |samps|)
    requires IsPow2(|samps|)
    ensures Sum(r, Term(r, samps, exp(k, |samps|), 0, 1), |samps|) == Bin(r, exp, samps, k)
  {
    var m := |samps|;
    var f := Term(r, samps, exp(k, m), 0, 1);
    var g := (n: nat) => r.mul(SampleAt(r, samps, n), exp(k * n, m));
    forall n: nat | n < m ensures f(n) == g(n) {
      PowMul(r, exp(1, m), k, n);
      assert exp(k * n, m) == Pow(r, exp(k, m), n);
      assert 0 + n * 1 == n;
    }
    SumExt(r, f, g, m);
  }

  /** ct_fft_k: the loop fills the table of factors, one for each halving down to N == 1. */
  method CtFftK<T(!new)>(r: Ring<T>, exp: (nat, nat) -> T, samps: seq<T>, k: nat) returns (bin: T)
    requires Lawful(r) && IsExp(r, exp, |samps|)
    requires IsPow2(|samps|)
    ensures bin == Bin(r, exp, samps, k)
  {
    hide Pow, Pow2, Lawful, IsExp, Sum, Bin, CtFftF;
    var nsamps := |samps|;
    var factors := Factors(r, exp, nsamps, k);
    StrideFits(nsamps, 0, 1, nsamps);
    bin := CtFftF(r, samps, nsamps, factors, 0, 1);
    CtFftFIsSum(r, samps, nsamps, factors, 0, 1, exp(k, nsamps));
    TermsAreBin(r, exp, samps, k);
  }

  /** The guard and the bin loop of log_pwr_dft, on samples already windowed. */
  method AllBins<T(!new)>(r: Ring<T>, exp: (nat, nat) -> T, samps: seq<T>) returns (res: Result<seq<T>>)
    requires Lawful(r) && IsExp(r, exp, |samps|)
    ensures res.Ok? <==> samps == [] || IsPow2(|samps|)
    ensures res.Ok? ==> |res.value| == |samps|
    ensures res.Ok? ==> forall k: nat :: k < |samps| ==> res.value[k] == Bin(r, exp, samps, k)
  {
    var nsamps := |samps|;
    if nsamps > 0 {
      GuardIsPow2(nsamps);
    }
    if nsamps > 0 && BitAnd(nsamps, nsamps - 1) != 0 {
      return NotAPowerOfTwo;
    }
    var bins: seq<T> := [];
    for k := 0 to nsamps
      invariant |bins| == k
      invariant forall j: nat :: j < k ==> bins[j] == Bin(r, exp, samps, j)
    {
      var b := CtFftK(r, exp, samps, k);
      bins := bins + [b];
    }
    return Ok(bins);
  }

  // ---------- inversion ----------

  function Powers<T>(r: Ring<T>, z: T): nat -> T {
    (k: nat) => Pow(r, z, k)
  }

  /** 1 + z + z^2 + ... over 2h terms is (1 + z) times the sum of the h powers of z*z. */
  lemma GeometricSplit<T(!new)>(r: Ring<T>, z: T, h: nat)
    requires Lawful(r)
    ensures var s := Sum(r, Powers(r, r.mul(z, z)), h);
            Sum(r, Powers(r, z), 2 * h) == r.add(s, r.mul(z, s))
  {
    var f, g := Powers(r, z), Powers(r, r.mul(z, z));
    var zg := (k: nat) => r.mul(z, g(k));
    forall k: nat | k < h ensures g(k) == f(2 * k) && zg(k) == f(2 * k + 1) {
      PowOneIs(r, z);
      PowMul(r, z, 2, k);
    }
    SumEvenOdd(r, f, g, zg, h);
    SumScale(r, z, g, zg, h);
  }

  lemma AtLeastOnce(d: int, x: int)
    requires d >= 0
    ensures x >= 1 ==> d * x >= d
    ensures x <= -1 ==> d * x <= -d
  {}

  lemma DivUnique(m: nat, d: nat, q: nat, a: nat)
    requires d > 0 && m == d * q + a && a < d
    ensures m / d == q && m % d == a
  {
    var q', a' := m / d, m % d;
    assert m == d * q' + a';
    assert d * (q - q') == a' - a;
    AtLeastOnce(d, q - q');
  }

  lemma ModHalf(d: nat, h: nat)
    requires h >= 1
    ensures d % (2 * h) == 0 <==> d % h == 0 && (d / h) % 2 == 0
  {
    var q, a := d / h, d % h;
    var p, b, n := q / 2, q % 2, 2 * h;
    assert d == h * q + a;
    assert h * q == h * (2 * p) + h * b == n * p + h * b;
    assert b == 0 || b == 1;
    DivUnique(d, n, p, if b == 0 then a else h + a);
  }

  lemma MinusOneTimes<T(!new)>(r: Ring<T>, t: T)
    requires Lawful(r)
    ensures r.add(t, r.mul(r.neg(r.one), t)) == r.zero
  {
    var m := r.neg(r.one);
    AddNeg(r, r.one);
    Distrib(r, t, r.one, m);
    MulOne(r, t);
    MulComm(r, t, m);
    MulZero(r, t);
  }

  lemma NegSquared<T(!new)>(r: Ring<T>)
    requires Lawful(r)
    ensures r.mul(r.neg(r.one), r.neg(r.one)) == r.one
  {
    var m := r.neg(r.one);
    MinusOneTimes(r, m);
    AddNeg(r, r.one);
    var mm := r.mul(m, m);
    // m + m*m == 0 and 1 + m == 0
    AddAssoc(r, r.one, m, mm);
    AddZero(r, r.one);
    AddZero(r, mm);
  }

  /** When w^h == -1, w^(h*q) is one for even q and minus one for odd q. */
  lemma {:induction false} RootPower<T(!new)>(r: Ring<T>, w: T, h: nat, q: nat)
    requires Lawful(r)
    requires Pow(r, w, h) == r.neg(r.one)
    ensures Pow(r, w, h * q) == if q % 2 == 0 then r.one else r.neg(r.one)
  {
    if q == 0 {
      assert h * 0 == 0;
    } else {
      RootPower(r, w, h, q - 1);
      assert h * q == h + h * (q - 1);
      PowAdd(r, w, h, h * (q - 1));
      MulOne(r, r.neg(r.one));
      NegSquared(r);
    }
  }

  /** (1 + w^d) * s, where w^h == -1 and s is h or zero as h divides d or not. */
  lemma OnePlusRoot<T(!new)>(r: Ring<T>, w: T, h: nat, d: nat, s: T)
    requires Lawful(r) && h >= 1
    requires Pow(r, w, h) == r.neg(r.one)
    requires s == if d % h == 0 then Times(r, h, r.one) else r.zero
    ensures r.add(s, r.mul(Pow(r, w, d), s)) == if d % (2 * h) == 0 then Times(r, 2 * h, r.one) else r.zero
  {
    ModHalf(d, h);
    if d % h != 0 {
      MulZero(r, Pow(r, w, d));
      AddZero(r, r.zero);
    } else {
      var q := d / h;
      assert d == h * q;
      RootPower(r, w, h, q);
      if q % 2 == 0 {
        MulOne(r, s);
        TimesAdd(r, h, h, r.one);
      } else {
        MinusOneTimes(r, s);
      }
    }
  }

  /** The geometric sum of the powers of w^d vanishes unless the period n divides d. It goes through
      the product (1 + z)(1 + z^2)(1 + z^4)..., one of whose factors is 1 + (-1). */
  lemma {:induction false} Orthogonality<T(!new)>(r: Ring<T>, w: T, n: nat, d: nat)
    requires Lawful(r)
    requires IsPow2(n)
    requires n > 1 ==> Pow(r, w, n / 2) == r.neg(r.one)
    ensures Sum(r, Powers(r, Pow(r, w, d)), n) == if d % n == 0 then Times(r, n, r.one) else r.zero
    decreases n
  {
    var f := Powers(r, Pow(r, w, d));
    if n == 1 {
      assert Sum(r, f, 1) == r.add(Sum(r, f, 0), f(0));
      assert Times(r, 1, r.one) == r.add(Times(r, 0, r.one), r.one);
    } else {
      var h, z, w2 := n / 2, Pow(r, w, d), r.mul(w, w);
      PowBase(r, w, w, d);
      GeometricSplit(r, z, h);
      if h > 1 {
        PowOneIs(r, w);
        PowMul(r, w, 2, h / 2);
      }
      Orthogonality(r, w2, h, d);
      OnePlusRoot(r, w, h, d, Sum(r, Powers(r, Pow(r, w2, d)), h));
    }
  }

  /** exp(1, n) raised to n / 2 is minus one. */
  lemma {:induction false} HalfTurn<T(!new)>(r: Ring<T>, exp: (nat, nat) -> T, top: nat, n: nat)
    requires Lawful(r) && IsExp(r, exp, top)
    requires IsPow2(n) && 2 <= n <= top
    ensures Pow(r, exp(1, n), n / 2) == r.neg(r.one)
    decreases n
  {
    PowOneIs(r, exp(1, n));
    if n > 2 {
      HalfTurn(r, exp, top, n / 2);
      PowMul(r, exp(1, n), 2, n / 4);
      assert (n / 2) % 2 == 0 && 2 * (n / 4) == n / 2;
    }
  }

  /** The k-th term of the inverse transform at sample n: X_k * exp(+2*pi*i*k*n/N), written with
      exp(-2*pi*i*k*(N-n)/N). */
  function BackTerms<T>(r: Ring<T>, exp: (nat, nat) -> T, samps: seq<T>, n: nat): nat -> T
    requires n < |samps|
  {
    (k: nat) => r.mul(Bin(r, exp, samps, k), exp(k * (|samps| - n), |samps|))
  }

  /** Transforming back gives every sample multiplied by N. */
  lemma Inversion<T(!new)>(r: Ring<T>, exp: (nat, nat) -> T, samps: seq<T>, n: nat)
    requires Lawful(r) && IsExp(r, exp, |samps|)
    requires IsPow2(|samps|) && n < |samps|
    ensures Sum(r, BackTerms(r, exp, samps, n), |samps|) == Times(r, |samps|, samps[n])
  {
    var m, w := |samps|, exp(1, |samps|);
    var back := BackTerms(r, exp, samps, n);
    var rows := (k: nat) => Sum(r, (j: nat) => Cell(r, samps, w, m - n, k, j), m);
    forall k: nat | k < m ensures back(k) == rows(k) {
      hide Lawful, Sum, Bin, Cell, Pow;
      BackTerm(r, exp, samps, k, m - n);
    }
    hide Lawful, Sum, Bin, Cell, Pow, Times, BackTerms;
    SumExt(r, back, rows, m);
    if m > 1 {
      HalfTurn(r, exp, m, m);
    }
    DoubleSum(r, samps, w, n);
  }

  /** The contribution of sample j to bin k, turned back by v steps. */
  function Cell<T>(r: Ring<T>, samps: seq<T>, w: T, v: nat, k: nat, j: nat): T {
    r.mul(SampleAt(r, samps, j), Pow(r, Pow(r, w, j + v), k))
  }

  lemma CellFactors<T(!new)>(r: Ring<T>, x: T, w: T, k: nat, j: nat, v: nat)
    requires Lawful(r)
    ensures r.mul(x, Pow(r, Pow(r, w, j + v), k)) == r.mul(Pow(r, w, k * v), r.mul(x, Pow(r, w, k * j)))
  {
    PowAdd(r, w, j, v);
    PowBase(r, Pow(r, w, j), Pow(r, w, v), k);
    PowMul(r, w, j, k);
    PowMul(r, w, v, k);
    assert j * k == k * j && v * k == k * v;
    var a, b := Pow(r, w, k * j), Pow(r, w, k * v);
    MulAssoc(r, x, a, b);
    MulComm(r, b, r.mul(x, a));
  }

  lemma BackTerm<T(!new)>(r: Ring<T>, exp: (nat, nat) -> T, samps: seq<T>, k: nat, v: nat)
    requires Lawful(r) && IsExp(r, exp, |samps|)
    requires IsPow2(|samps|)
    ensures r.mul(Bin(r, exp, samps, k), exp(k * v, |samps|))
         == Sum(r, (j: nat) => Cell(r, samps, exp(1, |samps|), v, k, j), |samps|)
  {
    var m, w := |samps|, exp(1, |samps|);
    var e := exp(k * v, m);
    var f := (j: nat) => r.mul(SampleAt(r, samps, j), exp(k * j, m));
    var cell := (j: nat) => Cell(r, samps, w, v, k, j);
    forall j: nat | j < m ensures cell(j) == r.mul(e, f(j)) {
      CellFactors(r, SampleAt(r, samps, j), w, k, j, v);
      assert exp(k * j, m) == Pow(r, w, k * j);
      assert e == Pow(r, w, k * v);
    }
    SumScale(r, e, f, cell, m);
    MulComm(r, e, Sum(r, f, m));
  }

  lemma ColumnSum<T(!new)>(r: Ring<T>, samps: seq<T>, w: T, n: nat, j: nat, col: nat -> T)
    requires Lawful(r)
    requires IsPow2(|samps|) && n < |samps| && j < |samps|
    requires |samps| > 1 ==> Pow(r, w, |samps| / 2) == r.neg(r.one)
    requires forall k: nat :: k < |samps| ==> col(k) == Cell(r, samps, w, |samps| - n, k, j)
    ensures Sum(r, col, |samps|) == if j == n then Times(r, |samps|, samps[n]) else r.zero
  {
    var m, d := |samps|, j + (|samps| - n);
    SumScale(r, samps[j], Powers(r, Pow(r, w, d)), col, m);
    Orthogonality(r, w, m, d);
    DivUnique(d, m, if j < n then 0 else 1, if j < n then d else j - n);
    if j == n {
      TimesOne(r, m, samps[n]);
    } else {
      MulZero(r, samps[j]);
    }
  }

  /** Summed over the bins first, only the contribution of sample n survives. */
  lemma DoubleSum<T(!new)>(r: Ring<T>, samps: seq<T>, w: T, n: nat)
    requires Lawful(r)
    requires IsPow2(|samps|) && n < |samps|
    requires |samps| > 1 ==> Pow(r, w, |samps| / 2) == r.neg(r.one)
    ensures Sum(r, (k: nat) => Sum(r, (j: nat) => Cell(r, samps, w, |samps| - n, k, j), |samps|), |samps|)
         == Times(r, |samps|, samps[n])
  {
    var m := |samps|;
    var cell := (k: nat, j: nat) => Cell(r, samps, w, m - n, k, j);
    var rows := (k: nat) => Sum(r, (j: nat) => Cell(r, samps, w, |samps| - n, k, j), |samps|);
    var rows' := (k: nat) => Sum(r, (j: nat) => cell(k, j), m);
    forall k: nat | k < m ensures rows(k) == rows'(k) {
      SumExt(r, (j: nat) => Cell(r, samps, w, |samps| - n, k, j), (j: nat) => cell(k, j), m);
    }
    SumExt(r, rows, rows', m);
    var col := (j: nat) => Sum(r, (k: nat) => cell(k, j), m);
    forall j: nat | j < m ensures col(j) == if j == n then Times(r, m, samps[n]) else r.zero {
      ColumnSum(r, samps, w, n, j, (k: nat) => cell(k, j));
    }
    SumSwap(r, cell, m, m);
    SumSingle(r, col, m, n);
  }

  // ---------- pairs of reals ----------

  datatype Complex = Complex(re: real, im: real)

  function CAdd(a: Complex, b: Complex): Complex { Complex(a.re + b.re, a.im + b.im) }

  function CMul(a: Complex, b: Complex): Complex {
    Complex(a.re * b.re - a.im * b.im, a.re * b.im + a.im * b.re)
  }

  function ComplexRing(): Ring<Complex> {
    Ring(Complex(0.0, 0.0), Complex(1.0, 0.0), (a: Complex) => Complex(-a.re, -a.im),
         (a: Complex, b: Complex) => CAdd(a, b), (a: Complex, b: Complex) => CMul(a, b))
  }

  lemma CMulAdd(a: Complex, b: Complex, c: Complex)
    ensures CMul(a, CAdd(b, c)) == CAdd(CMul(a, b), CMul(a, c))
  {}

  lemma ProductsOfThree(a: real, a': real, b: real, b': real, c: real, c': real)
    ensures (a * b - a' * b') * c - (a * b' + a' * b) * c' == a * (b * c - b' * c') - a' * (b * c' + b' * c)
    ensures (a * b - a' * b') * c' + (a * b' + a' * b) * c == a * (b * c' + b' * c) + a' * (b * c - b' * c')
  {}

  lemma CMulAssoc(a: Complex, b: Complex, c: Complex)
    ensures CMul(CMul(a, b), c) == CMul(a, CMul(b, c))
  {
    ProductsOfThree(a.re, a.im, b.re, b.im, c.re, c.im);
    assert CMul(CMul(a, b), c).re == CMul(a, CMul(b, c)).re;
    assert CMul(CMul(a, b), c).im == CMul(a, CMul(b, c)).im;
  }

  lemma ComplexIsRing()
    ensures Lawful(ComplexRing())
  {
    forall a: Complex, b: Complex, c: Complex ensures CMul(CMul(a, b), c) == CMul(a, CMul(b, c)) {
      CMulAssoc(a, b, c);
    }
    forall a: Complex, b: Complex, c: Complex ensures CMul(a, CAdd(b, c)) == CAdd(CMul(a, b), CMul(a, c)) {
      CMulAdd(a, b, c);
    }
  }

  lemma {:induction false} TimesComplex(n: nat, x: Complex)
    ensures Times(ComplexRing(), n, x) == Complex(n as real * x.re, n as real * x.im)
  {
    if n != 0 {
      TimesComplex(n - 1, x);
      assert n as real == (n - 1) as real + 1.0;
    }
  }

  lemma SameBinsSameTimes<T(!new)>(r: Ring<T>, exp: (nat, nat) -> T, a: seq<T>, b: seq<T>, n: nat)
    requires Lawful(r) && IsExp(r, exp, |a|)
    requires IsPow2(|a|) && |b| == |a| && n < |a|
    requires forall k: nat :: k < |a| ==> Bin(r, exp, a, k) == Bin(r, exp, b, k)
    ensures Times(r, |a|, a[n]) == Times(r, |a|, b[n])
  {
    Inversion(r, exp, a, n);
    Inversion(r, exp, b, n);
    SumExt(r, BackTerms(r, exp, a, n), BackTerms(r, exp, b, n), |a|);
  }

  lemma Cancel(m: real, x: real, y: real)
    requires m > 0.0 && m * x == m * y
    ensures x == y
  {
    assert m * (x - y) == 0.0;
  }

  lemma CancelTimes(m: nat, x: Complex, y: Complex)
    requires m > 0 && Times(ComplexRing(), m, x) == Times(ComplexRing(), m, y)
    ensures x == y
  {
    TimesComplex(m, x);
    TimesComplex(m, y);
    Cancel(m as real, x.re, y.re);
    Cancel(m as real, x.im, y.im);
  }

  /** Two sample arrays with the same bins are the same array. */
  lemma BinsDetermineSamples(exp: (nat, nat) -> Complex, a: seq<Complex>, b: seq<Complex>)
    requires IsExp(ComplexRing(), exp, |a|)
    requires IsPow2(|a|) && |b| == |a|
    requires forall k: nat :: k < |a| ==> Bin(ComplexRing(), exp, a, k) == Bin(ComplexRing(), exp, b, k)
    ensures a == b
  {
    ComplexIsRing();
    forall n: nat | n < |a| ensures a[n] == b[n] {
      SameBinsSameTimes(ComplexRing(), exp, a, b, n);
      CancelTimes(|a|, a[n], b[n]);
    }
  }

  // ---------- the exponential of a root ----------

  /** The exponential that has the value w at one for n points, and its powers for the divisors of n. */
  function RootExp<T>(r: Ring<T>, w: T, n: nat): (nat, nat) -> T {
    (k: nat, m: nat) => if m == 0 then r.one else Pow(r, Pow(r, w, n / m), k)
  }

  lemma Doubled(a: nat, q: nat)
    ensures a * (2 * q) == 2 * (a * q) == (2 * a) * q
  {}

  lemma TwiceDivides(h: nat, m: nat)
    requires m > 0 && h % m == 0
    ensures (2 * h) % m == 0
  {
    Doubled(m, h / m);
    DivUnique(2 * h, m, 2 * (h / m), 0);
  }

  lemma HalfDividesTwice(n: nat, h: nat)
    requires h > 0 && n % (2 * h) == 0
    ensures n / h == 2 * (n / (2 * h))
  {
    var q := n / (2 * h);
    assert n == (2 * h) * q;
    Doubled(h, q);
    DivUnique(n, h, 2 * q, 0);
  }

  lemma {:induction false} LargerPower(n: nat, m: nat)
    requires IsPow2(n) && IsPow2(m) && m < n
    ensures IsPow2(2 * m) && 2 * m <= n
  {
    if m > 1 {
      LargerPower(n / 2, m / 2);
    }
  }

  /** A smaller power of two divides a larger one, and its half divides twice as often. */
  lemma {:induction false} PowersDivide(n: nat, m: nat)
    requires IsPow2(n) && IsPow2(m) && m <= n
    ensures n % m == 0 && (m >= 2 ==> n / (m / 2) == 2 * (n / m))
  {
    if m < n {
      LargerPower(n, m);
      PowersDivide(n / 2, m);
      TwiceDivides(n / 2, m);
    } else {
      DivUnique(n, m, 1, 0);
    }
    if m >= 2 {
      HalfDividesTwice(n, m / 2);
    }
  }

  /** Whatever is a half turn after N/2 steps has everything that is asked of the exponential. */
  lemma RootIsExp<T(!new)>(r: Ring<T>, w: T, n: nat)
    requires Lawful(r) && IsPow2(n) && (n >= 2 ==> Pow(r, w, n / 2) == r.neg(r.one))
    ensures IsExp(r, RootExp(r, w, n), n)
  {
    var exp := RootExp(r, w, n);
    hide Lawful, Pow;
    forall m: nat | IsPow2(m) ensures exp(1, m) == Pow(r, w, n / m) {
      PowOneIs(r, Pow(r, w, n / m));
    }
    forall m: nat | IsPow2(m) && 2 <= m <= n ensures exp(1, m / 2) == r.mul(exp(1, m), exp(1, m)) {
      PowersDivide(n, m);
      PowAdd(r, w, n / m, n / m);
    }
  }

  lemma {:induction false} ExpAtOne<T(!new)>(r: Ring<T>, exp: (nat, nat) -> T, n: nat, m: nat)
    requires Lawful(r) && IsPow2(n) && IsExp(r, exp, n) && IsPow2(m) && m <= n
    ensures exp(1, m) == Pow(r, exp(1, n), n / m)
    decreases n - m
  {
    if m == n {
      PowOneIs(r, exp(1, n));
      DivUnique(n, n, 1, 0);
    } else {
      hide Lawful, Pow;
      LargerPower(n, m);
      ExpAtOne(r, exp, n, 2 * m);
      PowersDivide(n, 2 * m);
      var q := n / (2 * m);
      assert exp(1, 2 * m / 2) == r.mul(exp(1, 2 * m), exp(1, 2 * m));
      PowAdd(r, exp(1, n), q, q);
    }
  }

  lemma ExpAt<T(!new)>(r: Ring<T>, exp: (nat, nat) -> T, n: nat, k: nat, m: nat)
    requires Lawful(r) && IsPow2(n) && IsExp(r, exp, n) && IsPow2(m) && m <= n
    ensures exp(k, m) == RootExp(r, exp(1, n), n)(k, m)
  {
    hide Lawful, Pow;
    ExpAtOne(r, exp, n, m);
  }

  /** And nothing else has: the exponential is a half turn after N/2 steps, and is made of its value at one. */
  lemma ExpIsRootExp<T(!new)>(r: Ring<T>, exp: (nat, nat) -> T, n: nat)
    requires Lawful(r) && IsPow2(n) && IsExp(r, exp, n)
    ensures n >= 2 ==> Pow(r, exp(1, n), n / 2) == r.neg(r.one)
    ensures forall k: nat, m: nat :: IsPow2(m) && m <= n ==> exp(k, m) == RootExp(r, exp(1, n), n)(k, m)
  {
    hide Lawful, Pow, IsExp, RootExp;
    if n >= 2 {
      HalfTurn(r, exp, n, n);
    }
    forall k: nat, m: nat | IsPow2(m) && m <= n ensures exp(k, m) == RootExp(r, exp(1, n), n)(k, m) {
      ExpAt(r, exp, n, k, m);
    }
  }

  /** So the inversion rests on nothing but a half turn after N/2 steps. */
  lemma InversionFromRoot<T(!new)>(r: Ring<T>, w: T, samps: seq<T>, n: nat)
    requires Lawful(r) && IsPow2(|samps|) && n < |samps|
    requires |samps| >= 2 ==> Pow(r, w, |samps| / 2) == r.neg(r.one)
    ensures Sum(r, BackTerms(r, RootExp(r, w, |samps|), samps, n), |samps|) == Times(r, |samps|, samps[n])
  {
    RootIsExp(r, w, |samps|);
    Inversion(r, RootExp(r, w, |samps|), samps, n);
  }

  lemma SquareOfMinusI()
    ensures CMul(Complex(0.0, -1.0), Complex(0.0, -1.0)) == Complex(-1.0, 0.0)
  {}

  lemma Square<T(!new)>(r: Ring<T>, w: T)
    requires Lawful(r)
    ensures Pow(r, w, 2) == r.mul(w, w)
  {
    PowOneIs(r, w);
    PowAdd(r, w, 1, 1);
  }

  lemma FourthRoot()
    ensures Pow(ComplexRing(), Complex(0.0, -1.0), 2) == ComplexRing().neg(ComplexRing().one)
  {
    hide Pow, Lawful, CMul;
    ComplexIsRing();
    Square(ComplexRing(), Complex(0.0, -1.0));
    SquareOfMinusI();
  }

  /** In the complex numbers -i is such a root for four points. */
  lemma FourPoints()
    ensures IsExp(ComplexRing(), RootExp(ComplexRing(), Complex(0.0, -1.0), 4), 4)
  {
    hide Lawful, Pow, IsExp, ComplexRing;
    ComplexIsRing();
    FourthRoot();
    RootIsExp(ComplexRing(), Complex(0.0, -1.0), 4);
  }
}
