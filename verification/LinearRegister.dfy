/** Shift registers with a linear update over GF(2), fed one bit at a time. The register is an
    abstract type; the laws are quantified under explicit triggers. */
module LinearRegister {
  /** zero, xor, one update step; the low bit and the remaining half of a word, the word with a bit
      pushed in at the bottom, a bit as a word, and whether a word has no bit at or above n. */
  datatype Register<!R> = Register(
    zero: R, xor: (R, R) -> R, step: R -> R,
    low: R -> bool, half: R -> R, push: (R, bool) -> R, bit: bool -> R, fits: (R, nat) -> bool, width: nat)

  predicate At<R>(a: R, b: R, c: R) { true }

  predicate Word<R>(w: R, b: bool, n: nat) { true }

  ghost predicate GroupLaws<R(!new)>(m: Register<R>) {
    forall a, b, c {:trigger At(a, b, c)} ::
      && m.xor(a, b) == m.xor(b, a)
      && m.xor(m.xor(a, b), c) == m.xor(a, m.xor(b, c))
      && m.xor(a, m.zero) == a
      && m.xor(a, a) == m.zero
  }

  ghost predicate StepLaws<R(!new)>(m: Register<R>) {
    forall a, b, c {:trigger At(a, b, c)} ::
      && m.step(m.xor(a, b)) == m.xor(m.step(a), m.step(b))
      && (m.step(a) == m.zero ==> a == m.zero)
      && m.step(m.xor(a, b)) == m.xor(m.step(m.xor(a, m.bit(m.low(b)))), m.half(b))
  }

  ghost predicate WordLaws<R(!new)>(m: Register<R>) {
    forall w, b, n: nat {:trigger Word(w, b, n)} ::
      && (m.fits(w, 0) <==> w == m.zero)
      && (n < m.width && m.fits(w, n + 1) ==> m.fits(m.half(w), n))
      && (n < m.width && m.fits(w, n) ==>
            m.low(m.push(w, b)) == b && m.half(m.push(w, b)) == w && m.fits(m.push(w, b), n + 1))
  }

  ghost predicate BitLaws<R(!new)>(m: Register<R>) {
    && m.bit(false) == m.zero && !m.low(m.zero) && m.half(m.zero) == m.zero
    && (forall x, y :: m.xor(m.bit(x), m.bit(y)) == m.bit(x != y))
  }

  ghost predicate Lawful<R(!new)>(m: Register<R>) {
    GroupLaws(m) && StepLaws(m) && WordLaws(m) && BitLaws(m)
  }

  function Steps<R>(m: Register<R>, r: R, n: nat): R
    decreases n
  {
    if n == 0 then r else Steps(m, m.step(r), n - 1)
  }

  /** The register fed with a stream of bits. */
  function Serial<R>(m: Register<R>, r: R, bits: seq<bool>): R
    decreases |bits|
  {
    if bits == [] then r else Serial(m, m.step(m.xor(r, m.bit(bits[0]))), bits[1..])
  }

  /** The n low bits of w, least significant first. */
  function LowBits<R>(m: Register<R>, w: R, n: nat): (bits: seq<bool>)
    ensures |bits| == n
    decreases n
  {
    if n == 0 then [] else [m.low(w)] + LowBits(m, m.half(w), n - 1)
  }

  lemma StepZero<R(!new)>(m: Register<R>)
    requires Lawful(m)
    ensures m.step(m.zero) == m.zero
  {
    assert At(m.zero, m.zero, m.zero);
    var s := m.step(m.zero);
    assert At(s, s, s);
  }

  /** Mixing a word in at once is the same as feeding its bits one after the other. */
  lemma {:induction false} WordAsBits<R(!new)>(m: Register<R>, r: R, w: R, n: nat)
    requires Lawful(m) && n <= m.width && m.fits(w, n)
    ensures Steps(m, m.xor(r, w), n) == Serial(m, r, LowBits(m, w, n))
    decreases n
  {
    if n == 0 {
      assert Word(w, false, 0);
      assert At(r, r, r);
    } else {
      assert Word(w, false, n - 1);
      assert At(r, w, r);
      var bits := LowBits(m, w, n);
      assert bits[0] == m.low(w) && bits[1..] == LowBits(m, m.half(w), n - 1);
      WordAsBits(m, m.step(m.xor(r, m.bit(m.low(w)))), m.half(w), n - 1);
    }
  }

  lemma {:induction false} SerialConcat<R(!new)>(m: Register<R>, r: R, a: seq<bool>, b: seq<bool>)
    ensures Serial(m, r, a + b) == Serial(m, Serial(m, r, a), b)
    decreases |a|
  {
    if a == [] {
      assert a + b == b;
    } else {
      assert (a + b)[1..] == a[1..] + b;
      SerialConcat(m, m.step(m.xor(r, m.bit(a[0]))), a[1..], b);
    }
  }

  // ---------- linearity and injectivity ----------

  function XorBits(a: seq<bool>, b: seq<bool>): (d: seq<bool>)
    requires |a| == |b|
    ensures |d| == |a|
    ensures forall i :: 0 <= i < |a| ==> (d[i] <==> a[i] != b[i])
  {
    if a == [] then [] else [a[0] != b[0]] + XorBits(a[1..], b[1..])
  }

  lemma XorSwap<R(!new)>(m: Register<R>, a: R, b: R, c: R, d: R)
    requires Lawful(m)
    ensures m.xor(m.xor(a, b), m.xor(c, d)) == m.xor(m.xor(a, c), m.xor(b, d))
  {
    assert At(a, b, m.xor(c, d));
    assert At(b, c, d);
    assert At(c, b, d);
    assert At(a, c, m.xor(b, d));
  }

  lemma XorFeed<R(!new)>(m: Register<R>, r: R, s: R, x: bool, y: bool)
    requires Lawful(m)
    ensures m.xor(m.step(m.xor(r, m.bit(x))), m.step(m.xor(s, m.bit(y))))
         == m.step(m.xor(m.xor(r, s), m.bit(x != y)))
  {
    assert At(m.xor(r, m.bit(x)), m.xor(s, m.bit(y)), r);
    XorSwap(m, r, m.bit(x), s, m.bit(y));
  }

  /** The registers of two streams differ by the register of their difference. */
  lemma {:induction false} SerialLinear<R(!new)>(m: Register<R>, r: R, s: R, a: seq<bool>, b: seq<bool>)
    requires Lawful(m) && |a| == |b|
    ensures m.xor(Serial(m, r, a), Serial(m, s, b)) == Serial(m, m.xor(r, s), XorBits(a, b))
    decreases |a|
  {
    if a != [] {
      XorFeed(m, r, s, a[0], b[0]);
      SerialLinear(m, m.step(m.xor(r, m.bit(a[0]))), m.step(m.xor(s, m.bit(b[0]))), a[1..], b[1..]);
    }
  }

  ghost predicate AllZero(bits: seq<bool>) {
    forall i :: 0 <= i < |bits| ==> !bits[i]
  }

  /** Zeros keep the zero register at zero, and any other register away from it. */
  lemma {:induction false} ZerosKeep<R(!new)>(m: Register<R>, r: R, bits: seq<bool>)
    requires Lawful(m) && AllZero(bits)
    ensures Serial(m, r, bits) == m.zero <==> r == m.zero
    decreases |bits|
  {
    if bits != [] {
      assert At(r, r, r);
      StepZero(m);
      ZerosKeep(m, m.step(r), bits[1..]);
    }
  }

  // ---------- words and bursts ----------

  /** The word whose low bits are the given ones. */
  function Pack<R>(m: Register<R>, bits: seq<bool>): R
    decreases |bits|
  {
    if bits == [] then m.zero else m.push(Pack(m, bits[1..]), bits[0])
  }

  lemma {:induction false} PackedBits<R(!new)>(m: Register<R>, bits: seq<bool>)
    requires Lawful(m) && |bits| <= m.width
    ensures m.fits(Pack(m, bits), |bits|) && LowBits(m, Pack(m, bits), |bits|) == bits
    ensures Pack(m, bits) == m.zero ==> AllZero(bits)
    decreases |bits|
  {
    if bits == [] {
      assert Word(m.zero, false, 0);
    } else {
      PackedBits(m, bits[1..]);
      assert Word(Pack(m, bits[1..]), bits[0], |bits| - 1);
      assert bits == [bits[0]] + bits[1..];
    }
  }

  lemma {:induction false} StepsKeepNonZero<R(!new)>(m: Register<R>, r: R, n: nat)
    requires Lawful(m) && r != m.zero
    ensures Steps(m, r, n) != m.zero
    decreases n
  {
    if n > 0 {
      assert At(r, r, r);
      StepsKeepNonZero(m, m.step(r), n - 1);
    }
  }

  /** A difference that fits the register cannot leave it at zero. */
  lemma ShortBurst<R(!new)>(m: Register<R>, bits: seq<bool>)
    requires Lawful(m) && |bits| <= m.width && !AllZero(bits)
    ensures Serial(m, m.zero, bits) != m.zero
  {
    var w := Pack(m, bits);
    PackedBits(m, bits);
    assert At(m.zero, w, w);
    assert At(w, w, w);
    WordAsBits(m, m.zero, w, |bits|);
    StepsKeepNonZero(m, w, |bits|);
  }

  lemma OnePart(d: seq<bool>, lo: nat, hi: nat, i: nat)
    requires lo <= i < hi <= |d| && d[i]
    ensures !AllZero(d[lo..hi])
  {
    assert d[lo..hi][i - lo];
  }

  lemma ThreeParts(d: seq<bool>, p: nat, q: nat)
    requires p <= q <= |d|
    ensures d == d[..p] + d[p..q] + d[q..]
  {}

  lemma ZeroPart(d: seq<bool>, lo: nat, hi: nat)
    requires lo <= hi <= |d| && forall i :: lo <= i < hi ==> !d[i]
    ensures AllZero(d[lo..hi])
  {}

  /** The stretch that holds all the ones, cut out of the stream. */
  lemma CutOut(d: seq<bool>, at: nat, width: nat, p: nat, q: nat)
    requires p == (if at <= |d| then at else |d|) && q == (if p + width <= |d| then p + width else |d|)
    requires !AllZero(d) && forall i :: 0 <= i < |d| && !(at <= i < at + width) ==> !d[i]
    ensures d == d[..p] + d[p..q] + d[q..]
    ensures AllZero(d[..p]) && AllZero(d[q..]) && !AllZero(d[p..q])
  {
    var i :| 0 <= i < |d| && d[i];
    assert d[..p] == d[0..p] && d[q..] == d[q..|d|];
    ZeroPart(d, 0, p);
    ZeroPart(d, q, |d|);
    OnePart(d, p, q, i);
    ThreeParts(d, p, q);
    hide AllZero;
  }

  /** Zeros around a burst change nothing. */
  lemma MarkStays<R(!new)>(m: Register<R>, pre: seq<bool>, mid: seq<bool>, post: seq<bool>)
    requires Lawful(m) && AllZero(pre) && AllZero(post)
    ensures Serial(m, m.zero, pre + mid + post) == m.zero <==> Serial(m, m.zero, mid) == m.zero
  {
    SerialConcat(m, m.zero, pre + mid, post);
    SerialConcat(m, m.zero, pre, mid);
    ZerosKeep(m, m.zero, pre);
    ZerosKeep(m, Serial(m, m.zero, mid), post);
  }

  lemma BurstLeavesMark<R(!new)>(m: Register<R>, d: seq<bool>, at: nat)
    requires Lawful(m) && !AllZero(d)
    requires forall i :: 0 <= i < |d| && !(at <= i < at + m.width) ==> !d[i]
    ensures Serial(m, m.zero, d) != m.zero
  {
    var p := if at <= |d| then at else |d|;
    var q := if p + m.width <= |d| then p + m.width else |d|;
    CutOut(d, at, m.width, p, q);
    MarkStays(m, d[..p], d[p..q], d[q..]);
    ShortBurst(m, d[p..q]);
  }

  /** Two streams of one length whose difference lies within one register width end in different
      registers. */
  lemma BurstSeparates<R(!new)>(m: Register<R>, r: R, a: seq<bool>, b: seq<bool>, at: nat)
    requires Lawful(m) && |a| == |b| && a != b
    requires forall i :: 0 <= i < |a| && !(at <= i < at + m.width) ==> a[i] == b[i]
    ensures Serial(m, r, a) != Serial(m, r, b)
  {
    SerialLinear(m, r, r, a, b);
    var s := Serial(m, r, a);
    assert At(s, s, s);
    assert At(r, r, r);
    BurstLeavesMark(m, XorBits(a, b), at);
  }

  // ---------- one bit more ----------

  /** The one stretch of width + 1 bits, other than zeros, that leaves no mark: a one, and the bits of the
      register that it makes. */
  function Generator<R>(m: Register<R>): (bits: seq<bool>)
    ensures |bits| == m.width + 1
  {
    [true] + LowBits(m, m.step(m.bit(true)), m.width)
  }

  lemma AllZeroDifference(a: seq<bool>, b: seq<bool>)
    requires |a| == |b|
    ensures AllZero(XorBits(a, b)) <==> a == b
  {
    if AllZero(XorBits(a, b)) {
      assert forall i :: 0 <= i < |a| ==> XorBits(a, b)[i] == (a[i] != b[i]);
    }
  }

  lemma {:induction false} StepsOfZero<R(!new)>(m: Register<R>, n: nat)
    requires Lawful(m)
    ensures Steps(m, m.zero, n) == m.zero
    decreases n
  {
    if n > 0 {
      StepZero(m);
      StepsOfZero(m, n - 1);
    }
  }

  lemma GeneratorVanishes<R(!new)>(m: Register<R>)
    requires Lawful(m) && m.fits(m.step(m.bit(true)), m.width)
    ensures Serial(m, m.step(m.bit(true)), LowBits(m, m.step(m.bit(true)), m.width)) == m.zero
  {
    var g := m.step(m.bit(true));
    WordAsBits(m, g, g, m.width);
    assert At(g, g, g);
    StepsOfZero(m, m.width);
  }

  lemma SameRegister<R(!new)>(m: Register<R>, a: R, b: R)
    requires Lawful(m)
    ensures m.xor(a, b) == m.zero <==> a == b
  {
    assert At(a, b, b);
    assert At(b, m.zero, b);
    assert At(b, b, b);
  }

  lemma LongBurst<R(!new)>(m: Register<R>, bits: seq<bool>)
    requires Lawful(m) && m.fits(m.step(m.bit(true)), m.width) && |bits| == m.width + 1 && bits[0]
    ensures Serial(m, m.zero, bits) == m.zero <==> bits == Generator(m)
  {
    var g := m.step(m.bit(true));
    var rest, low := bits[1..], LowBits(m, g, m.width);
    assert At(m.bit(true), m.zero, m.zero);
    assert Serial(m, m.zero, bits) == Serial(m, g, rest);
    GeneratorVanishes(m);
    SerialLinear(m, g, g, rest, low);
    SameRegister(m, g, g);
    assert At(Serial(m, g, rest), m.zero, m.zero);
    AllZeroDifference(rest, low);
    if rest == low {
      ZerosKeep(m, m.zero, XorBits(rest, low));
    } else {
      ShortBurst(m, XorBits(rest, low));
    }
    assert bits == [true] + rest;
  }

  /** A stretch of width + 1 bits, or what is left of it at the end of the stream. */
  lemma OneBitMore<R(!new)>(m: Register<R>, bits: seq<bool>)
    requires Lawful(m) && m.fits(m.step(m.bit(true)), m.width) && |bits| <= m.width + 1 && !AllZero(bits)
    ensures Serial(m, m.zero, bits) == m.zero <==> bits == Generator(m)
  {
    if |bits| <= m.width {
      ShortBurst(m, bits);
    } else if bits[0] {
      LongBurst(m, bits);
    } else {
      StepZero(m);
      assert At(m.zero, m.zero, m.zero);
      ShortBurst(m, bits[1..]);
    }
  }

  /** Two streams of one length that differ, but only within width + 1 bits, end in the same register exactly
      when their difference there is the generator. */
  lemma LongerBurst<R(!new)>(m: Register<R>, r: R, a: seq<bool>, b: seq<bool>, at: nat)
    requires Lawful(m) && m.fits(m.step(m.bit(true)), m.width) && |a| == |b| && a != b
    requires forall i :: 0 <= i < |a| && !(at <= i < at + m.width + 1) ==> a[i] == b[i]
    ensures Serial(m, r, a) == Serial(m, r, b)
       <==> at + m.width + 1 <= |a| && XorBits(a, b)[at..at + m.width + 1] == Generator(m)
  {
    var d := XorBits(a, b);
    AllZeroDifference(a, b);
    SerialLinear(m, r, r, a, b);
    SameRegister(m, Serial(m, r, a), Serial(m, r, b));
    SameRegister(m, r, r);
    var p := if at <= |d| then at else |d|;
    var q := if p + m.width + 1 <= |d| then p + m.width + 1 else |d|;
    CutOut(d, at, m.width + 1, p, q);
    MarkStays(m, d[..p], d[p..q], d[q..]);
    OneBitMore(m, d[p..q]);
  }
}
