/** Messages as streams of bits, and where two of them differ. */
module BitStreams {
  /** The bitwise difference of two streams of one length. */
  function Xor(a: seq<bool>, b: seq<bool>): seq<bool>
    requires |a| == |b|
  {
    seq(|a|, i requires 0 <= i < |a| => a[i] != b[i])
  }

  /** The bytewise difference of two messages of one length. */
  function XorData(a: seq<bv8>, b: seq<bv8>): (c: seq<bv8>)
    requires |a| == |b|
    ensures |c| == |a|
  {
    if a == [] then [] else XorData(a[..|a| - 1], b[..|b| - 1]) + [a[|a| - 1] ^ b[|b| - 1]]
  }

  /** The streams differ at most in the `n` consecutive bits from `k` on. */
  ghost predicate DifferWithin(a: seq<bool>, b: seq<bool>, k: nat, n: nat) {
    |a| == |b| && forall i :: 0 <= i < |a| && a[i] != b[i] ==> k <= i < k + n
  }

  /** The first position where two different streams of one length differ. */
  function FirstDifference(a: seq<bool>, b: seq<bool>): (i: nat)
    requires |a| == |b| && a != b
    ensures i < |a| && a[i] != b[i] && a[..i] == b[..i]
  {
    if a[0] != b[0] then 0
    else
      assert a == [a[0]] + a[1..] && b == [b[0]] + b[1..];
      var i := 1 + FirstDifference(a[1..], b[1..]);
      assert a[..i] == [a[0]] + a[1..][..i - 1];
      i
  }

  /** A burst within `n` bits: equal up to the first difference, and equal again `n` bits after it. */
  lemma Burst(a: seq<bool>, b: seq<bool>, k: nat, n: nat) returns (i: nat, j: nat)
    requires DifferWithin(a, b, k, n) && a != b
    ensures i < j <= |a| && j - i <= n
    ensures a[..i] == b[..i] && a[i] != b[i] && a[j..] == b[j..]
  {
    i := FirstDifference(a, b);
    j := if i + n <= |a| then i + n else |a|;
    assert forall x :: j <= x < |a| ==> a[x] == b[x];
  }
}

/**
  Division of binary polynomials by a shift register.

  A register of width W holds the coefficients below x^W, highest first, and `p` the divisor
  without its leading coefficient.
 */
module PolyDivision {
  import opened BitStreams

  function Zeros(n: nat): seq<bool> {
    seq(n, _ => false)
  }

  /** The bit shifted out of the register and the incoming bit decide whether to subtract the divisor. */
  function Feedback(r: seq<bool>, bit: bool): bool
    requires |r| > 0
  {
    r[0] != bit
  }

  function Step(p: seq<bool>, r: seq<bool>, bit: bool): (r': seq<bool>)
    requires |r| == |p| > 0
    ensures |r'| == |p|
  {
    var s := r[1..] + [false];
    if Feedback(r, bit) then Xor(s, p) else s
  }

  function Run(p: seq<bool>, r: seq<bool>, bits: seq<bool>): (r': seq<bool>)
    requires |r| == |p| > 0
    ensures |r'| == |p|
    decreases bits
  {
    if bits == [] then r else Step(p, Run(p, r, bits[..|bits| - 1]), bits[|bits| - 1])
  }

  lemma RunSnoc(p: seq<bool>, r: seq<bool>, bits: seq<bool>, b: bool)
    requires |r| == |p| > 0
    ensures Run(p, r, bits + [b]) == Step(p, Run(p, r, bits), b)
  {
    assert (bits + [b])[..|bits|] == bits;
  }

  lemma {:induction false} RunConcat(p: seq<bool>, r: seq<bool>, a: seq<bool>, b: seq<bool>)
    requires |r| == |p| > 0
    ensures Run(p, r, a + b) == Run(p, Run(p, r, a), b)
    decreases |b|
  {
    if b == [] {
      assert a + b == a;
    } else {
      var n := |b| - 1;
      assert (a + b)[..|a + b| - 1] == a + b[..n];
      RunConcat(p, r, a, b[..n]);
    }
  }

  // ---------- The register holds the remainder ----------

  /** The divisor with its leading coefficient, or nothing. */
  function Term(p: seq<bool>, b: bool): seq<bool> {
    if b then [true] + p else Zeros(|p| + 1)
  }

  function AddTerm(p: seq<bool>, b: bool, r: seq<bool>): (d: seq<bool>)
    requires |r| == |p|
    ensures |d| == |p| + 1
  {
    Xor(Term(p, b), [false] + r)
  }

  /** The product of `q` and the divisor, plus `r`, with |q| + W coefficients. */
  function Recompose(p: seq<bool>, q: seq<bool>, r: seq<bool>): (d: seq<bool>)
    requires |r| == |p| > 0
    ensures |d| == |q| + |p|
    decreases q
  {
    if q == [] then r
    else
      var n := |q| - 1;
      var low := AddTerm(p, q[n], r);
      Recompose(p, q[..n], low[..|p|]) + [low[|p|]]
  }

  /** What is divided: the message times x^W, plus the initial register times x^n. */
  function Dividend(p: seq<bool>, r: seq<bool>, bits: seq<bool>): (d: seq<bool>)
    requires |r| == |p| > 0
    ensures |d| == |bits| + |p|
  {
    Xor(r + Zeros(|bits|), bits + Zeros(|p|))
  }

  function Quotient(p: seq<bool>, r: seq<bool>, bits: seq<bool>): (q: seq<bool>)
    requires |r| == |p| > 0
    ensures |q| == |bits|
  {
    if bits == [] then []
    else
      var n := |bits| - 1;
      Quotient(p, r, bits[..n]) + [Feedback(Run(p, r, bits[..n]), bits[n])]
  }

  lemma XorSelf(a: seq<bool>)
    ensures Xor(a, a) == Zeros(|a|)
    ensures Xor(a, Zeros(|a|)) == a && Xor(Zeros(|a|), a) == a
  {
  }

  lemma ZerosShift(n: nat, s: seq<bool>)
    ensures var s' := [false] + s; Zeros(n + 1) + s == (Zeros(n) + s'[..|s|]) + [s'[|s|]]
  {
  }

  lemma TermAdds(p: seq<bool>, b: bool, r: seq<bool>, s: seq<bool>)
    requires |r| == |s| == |p|
    ensures var low, low', s' := AddTerm(p, b, r), AddTerm(p, b, Xor(r, s)), [false] + s;
      low'[..|p|] == Xor(low[..|p|], s'[..|p|]) && low'[|p|] == (low[|p|] != s'[|p|])
  {
  }

  /** The remainder is simply added at the low end. */
  lemma {:induction false} RecomposeAdds(p: seq<bool>, q: seq<bool>, r: seq<bool>, s: seq<bool>)
    requires |r| == |s| == |p| > 0
    ensures Recompose(p, q, Xor(r, s)) == Xor(Recompose(p, q, r), Zeros(|q|) + s)
    decreases q
  {
    if q == [] {
      assert Zeros(0) + s == s;
    } else {
      var n, w := |q| - 1, |p|;
      var low := AddTerm(p, q[n], r);
      var s' := [false] + s;
      TermAdds(p, q[n], r, s);
      RecomposeAdds(p, q[..n], low[..w], s'[..w]);
      ZerosShift(n, s);
      XorSnoc(Recompose(p, q[..n], low[..w]), Zeros(n) + s'[..w], low[w], s'[w]);
    }
  }

  lemma XorSnoc(a: seq<bool>, b: seq<bool>, x: bool, y: bool)
    requires |a| == |b|
    ensures Xor(a + [x], b + [y]) == Xor(a, b) + [x != y]
  {
  }

  /** Undoing a step gives the register before it, with the message bit added to its highest coefficient. */
  lemma UndoStep(p: seq<bool>, r: seq<bool>, b: bool)
    requires |r| == |p| > 0
    ensures AddTerm(p, Feedback(r, b), Step(p, r, b)) == Xor(r, [b] + Zeros(|p| - 1)) + [false]
  {
  }

  lemma DividendSnoc(p: seq<bool>, r: seq<bool>, bits: seq<bool>, b: bool)
    requires |r| == |p| > 0
    ensures Dividend(p, r, bits + [b]) ==
      Xor(Dividend(p, r, bits), Zeros(|bits|) + ([b] + Zeros(|p| - 1))) + [false]
  {
  }

  lemma RecomposeStep(p: seq<bool>, q: seq<bool>, r: seq<bool>, b: bool)
    requires |r| == |p| > 0
    ensures Recompose(p, q + [Feedback(r, b)], Step(p, r, b)) ==
      Xor(Recompose(p, q, r), Zeros(|q|) + ([b] + Zeros(|p| - 1))) + [false]
  {
    var w := |p|;
    UndoStep(p, r, b);
    var added := [b] + Zeros(w - 1);
    var low := Xor(r, added) + [false];
    assert low[..w] == Xor(r, added) && low[w] == false;
    assert (q + [Feedback(r, b)])[..|q|] == q;
    RecomposeAdds(p, q, r, added);
  }

  lemma DivideNothing(p: seq<bool>, r: seq<bool>)
    requires |r| == |p| > 0
    ensures Recompose(p, Quotient(p, r, []), Run(p, r, [])) == Dividend(p, r, [])
  {
    assert r + Zeros(0) == r && [] + Zeros(|p|) == Zeros(|p|);
    XorSelf(r);
  }

  lemma DivideStep(p: seq<bool>, r: seq<bool>, bits: seq<bool>, b: bool)
    requires |r| == |p| > 0
    requires Recompose(p, Quotient(p, r, bits), Run(p, r, bits)) == Dividend(p, r, bits)
    ensures Recompose(p, Quotient(p, r, bits) + [Feedback(Run(p, r, bits), b)], Step(p, Run(p, r, bits), b)) ==
      Dividend(p, r, bits + [b])
  {
    var q, reg := Quotient(p, r, bits), Run(p, r, bits);
    RecomposeStep(p, q, reg, b);
    DividendSnoc(p, r, bits, b);
  }

  /** Dividend = quotient * divisor + register. */
  lemma {:induction false} RunDivides(p: seq<bool>, r: seq<bool>, bits: seq<bool>)
    requires |r| == |p| > 0
    ensures Recompose(p, Quotient(p, r, bits), Run(p, r, bits)) == Dividend(p, r, bits)
    decreases bits
  {
    hide Recompose, Dividend, Step, Feedback;
    if bits == [] {
      DivideNothing(p, r);
    } else {
      var n := |bits| - 1;
      var before := bits[..n];
      RunDivides(p, r, before);
      DivideStep(p, r, before, bits[n]);
      assert before + [bits[n]] == bits;
    }
  }

  lemma LowUnique(p: seq<bool>, b: bool, r: seq<bool>, b': bool, r': seq<bool>)
    requires |r| == |r'| == |p| > 0
    requires AddTerm(p, b, r) == AddTerm(p, b', r')
    ensures b == b' && r == r'
  {
    assert Xor(Term(p, b), [false] + r)[0] == b && Xor(Term(p, b'), [false] + r')[0] == b';
    XorCancels(Term(p, b), [false] + r, [false] + r');
    assert r == ([false] + r)[1..] && r' == ([false] + r')[1..];
  }

  lemma SnocUnique<T>(a: seq<T>, x: T, b: seq<T>, y: T)
    requires a + [x] == b + [y]
    ensures a == b && x == y
  {
    assert a == (a + [x])[..|a|] && b == (b + [y])[..|b|];
    assert (a + [x])[|a|] == x && (b + [y])[|b|] == y;
  }

  lemma SplitLast<T>(s: seq<T>, n: nat)
    requires |s| == n + 1
    ensures s == s[..n] + [s[n]]
  {
  }

  /** A dividend has only one quotient and remainder. */
  lemma {:induction false} DivisionUnique(p: seq<bool>, q: seq<bool>, r: seq<bool>, q': seq<bool>, r': seq<bool>)
    requires |r| == |r'| == |p| > 0 && |q| == |q'|
    requires Recompose(p, q, r) == Recompose(p, q', r')
    ensures q == q' && r == r'
    decreases q
  {
    if q != [] {
      var n, w := |q| - 1, |p|;
      var low, low' := AddTerm(p, q[n], r), AddTerm(p, q'[n], r');
      SnocUnique(Recompose(p, q[..n], low[..w]), low[w], Recompose(p, q'[..n], low'[..w]), low'[w]);
      DivisionUnique(p, q[..n], low[..w], q'[..n], low'[..w]);
      SplitLast(low, w);
      SplitLast(low', w);
      LowUnique(p, q[n], r, q'[n], r');
      SplitLast(q, n);
      SplitLast(q', n);
    }
  }

  lemma XorCancels(t: seq<bool>, a: seq<bool>, b: seq<bool>)
    requires |t| == |a| == |b| && Xor(t, a) == Xor(t, b)
    ensures a == b
  {
    forall i | 0 <= i < |a| ensures a[i] == b[i] {
      assert Xor(t, a)[i] == Xor(t, b)[i];
    }
  }

  /** The register is the remainder: the only one with which some quotient gives back the dividend. */
  lemma RunIsRemainder(p: seq<bool>, r: seq<bool>, bits: seq<bool>, q: seq<bool>, rem: seq<bool>)
    requires |r| == |p| == |rem| > 0 && |q| == |bits|
    ensures Recompose(p, q, rem) == Dividend(p, r, bits) <==> rem == Run(p, r, bits) && q == Quotient(p, r, bits)
  {
    RunDivides(p, r, bits);
    if Recompose(p, q, rem) == Dividend(p, r, bits) {
      DivisionUnique(p, q, rem, Quotient(p, r, bits), Run(p, r, bits));
    }
  }

  /** Values of which each is one step with a zero bit after the one before. */
  lemma {:induction false} StepsAreRun(p: seq<bool>, r: nat -> seq<bool>, n: nat)
    requires |p| > 0 && (forall i: nat :: |r(i)| == |p|) && forall i: nat :: r(i + 1) == Step(p, r(i), false)
    ensures r(n) == Run(p, r(0), Zeros(n))
  {
    if n > 0 {
      StepsAreRun(p, r, n - 1);
      assert r(n - 1 + 1) == Step(p, r(n - 1), false);
      assert Zeros(n)[..n - 1] == Zeros(n - 1);
    }
  }

  // ---------- Linearity ----------

  /** The remainder of a difference is the difference of the remainders. */
  lemma {:induction false} RunLinear(p: seq<bool>, r: seq<bool>, s: seq<bool>, a: seq<bool>, b: seq<bool>)
    requires |r| == |s| == |p| > 0 && |a| == |b|
    ensures Run(p, Xor(r, s), Xor(a, b)) == Xor(Run(p, r, a), Run(p, s, b))
    decreases a
  {
    if a != [] {
      var n := |a| - 1;
      RunLinear(p, r, s, a[..n], b[..n]);
      assert Xor(a, b)[..n] == Xor(a[..n], b[..n]);
    }
  }

  lemma XorConcat(a: seq<bool>, b: seq<bool>, c: seq<bool>, d: seq<bool>)
    requires |a| == |b| && |c| == |d|
    ensures Xor(a + c, b + d) == Xor(a, b) + Xor(c, d)
  {
  }

  /** Three remainders with one initial register add up to that of the sum of the messages. */
  lemma RunAffine(p: seq<bool>, r: seq<bool>, a: seq<bool>, b: seq<bool>, c: seq<bool>)
    requires |r| == |p| > 0 && |a| == |b| == |c|
    ensures Run(p, r, Xor(Xor(a, b), c)) == Xor(Xor(Run(p, r, a), Run(p, r, b)), Run(p, r, c))
  {
    XorSelf(r);
    RunLinear(p, r, r, a, b);
    RunLinear(p, Zeros(|p|), r, Xor(a, b), c);
  }

  /** Feeding a register its own bits empties it, also when zero bits follow them. */
  lemma {:induction false} RunOwnBits(p: seq<bool>, x: seq<bool>, k: nat)
    requires |x| + k == |p| > 0
    ensures Run(p, x + Zeros(k), x) == Zeros(|p|)
    decreases x
  {
    if x == [] {
      assert [] + Zeros(k) == Zeros(k);
    } else {
      var r := x + Zeros(k);
      assert [x[0]] + x[1..] == x;
      RunConcat(p, r, [x[0]], x[1..]);
      assert Run(p, r, [x[0]]) == Step(p, r, x[0]) by {
        RunSnoc(p, r, [], x[0]);
        assert [] + [x[0]] == [x[0]];
      }
      assert Step(p, r, x[0]) == x[1..] + Zeros(k + 1);
      RunOwnBits(p, x[1..], k + 1);
    }
  }

  /** Adding bits to the high end of the register and then shifting is dividing those bits. */
  lemma RunAddedBits(p: seq<bool>, r: seq<bool>, x: seq<bool>)
    requires |r| == |p| > 0 && |x| <= |p|
    ensures Run(p, Xor(r, x + Zeros(|p| - |x|)), Zeros(|x|)) == Run(p, r, x)
  {
    var k := |p| - |x|;
    XorSelf(x);
    RunLinear(p, r, x + Zeros(k), x, x);
    RunOwnBits(p, x, k);
    XorSelf(Run(p, r, x));
  }

  /** Zero bits in the high part are just shifted out. */
  lemma {:induction false} RunHigh(p: seq<bool>, x: seq<bool>, n: nat, k: nat)
    requires |x| + n == |p| > 0 && k <= n
    ensures Run(p, Zeros(n) + x, Zeros(k)) == Zeros(n - k) + x + Zeros(k)
  {
    if k == 0 {
      assert Zeros(n) + x + Zeros(0) == Zeros(n) + x;
    } else {
      RunHigh(p, x, n, k - 1);
      assert Zeros(k)[..k - 1] == Zeros(k - 1);
      var r := Zeros(n - k + 1) + x + Zeros(k - 1);
      assert r[1..] + [false] == Zeros(n - k) + x + Zeros(k);
    }
  }

  lemma RunHighOut(p: seq<bool>, x: seq<bool>, n: nat)
    requires |x| + n == |p| > 0
    ensures Run(p, Zeros(n) + x, Zeros(n)) == x + Zeros(n)
  {
    RunHigh(p, x, n, n);
    assert Zeros(0) + x == x;
  }

  lemma SplitXor(hi: seq<bool>, lo: seq<bool>)
    ensures hi + lo == Xor(Zeros(|hi|) + lo, hi + Zeros(|lo|))
  {
  }

  lemma SplitRegister(p: seq<bool>, hi: seq<bool>, lo: seq<bool>)
    requires |hi| + |lo| == |p| > 0
    ensures var n := |hi|;
      Run(p, hi + lo, Zeros(n)) == Xor(lo + Zeros(n), Run(p, hi + Zeros(|lo|), Zeros(n)))
  {
    var n := |hi|;
    var low, high := Zeros(n) + lo, hi + Zeros(|lo|);
    SplitXor(hi, lo);
    XorSelf(Zeros(n));
    RunLinear(p, low, high, Zeros(n), Zeros(n));
    RunHighOut(p, lo, n);
  }

  lemma HighPart(r: seq<bool>, x: seq<bool>, k: nat)
    requires |r| == |x| + k
    ensures var y := Xor(r, x + Zeros(k)); y == y[..|x|] + r[|x|..]
  {
  }

  /** Dividing several bits at once: they are added to the high end, whose division is looked up; the rest moves up. */
  lemma HighDivision(p: seq<bool>, r: seq<bool>, x: seq<bool>, k: nat)
    requires |r| == |p| == |x| + k > 0
    ensures var n := |x|;
      Run(p, r, x) == Xor(r[n..] + Zeros(n), Run(p, Xor(r, x + Zeros(k))[..n] + Zeros(k), Zeros(n)))
  {
    var n := |x|;
    RunAddedBits(p, r, x);
    HighPart(r, x, k);
    SplitRegister(p, Xor(r, x + Zeros(k))[..n], r[n..]);
  }

  // ---------- Errors ----------

  /** The divisor has a constant coefficient. */
  ghost predicate Odd(p: seq<bool>) {
    |p| > 0 && p[|p| - 1]
  }

  lemma StepInjective(p: seq<bool>, r: seq<bool>, s: seq<bool>, b: bool)
    requires |r| == |s| == |p| && Odd(p) && Step(p, r, b) == Step(p, s, b)
    ensures r == s
  {
    var w := |p| - 1;
    assert Step(p, r, b)[w] == Feedback(r, b) && Step(p, s, b)[w] == Feedback(s, b);
    forall i | 1 <= i < |p| ensures r[i] == s[i] {
      assert Step(p, r, b)[i - 1] == Step(p, s, b)[i - 1];
    }
  }

  lemma {:induction false} RunInjective(p: seq<bool>, r: seq<bool>, s: seq<bool>, bits: seq<bool>)
    requires |r| == |s| == |p| && Odd(p) && Run(p, r, bits) == Run(p, s, bits)
    ensures r == s
    decreases bits
  {
    if bits != [] {
      var n := |bits| - 1;
      StepInjective(p, Run(p, r, bits[..n]), Run(p, s, bits[..n]), bits[n]);
      RunInjective(p, r, s, bits[..n]);
    }
  }

  ghost predicate LowBitSet(r: seq<bool>, n: nat) {
    exists i :: 0 <= i < |r| && |r| - n <= i && r[i]
  }

  /** A nonzero burst of at most W bits leaves a nonzero register: one of its lowest bits is set. */
  lemma {:induction false} BurstLeavesBit(p: seq<bool>, w: seq<bool>)
    requires Odd(p) && |w| <= |p| && exists i :: 0 <= i < |w| && w[i]
    ensures LowBitSet(Run(p, Zeros(|p|), w), |w|)
    decreases w
  {
    var n := |w| - 1;
    var d := Run(p, Zeros(|p|), w[..n]);
    var d' := Step(p, d, w[n]);
    if Feedback(d, w[n]) {
      assert d'[|p| - 1];
    } else if exists i :: 0 <= i < n && w[..n][i] {
      BurstLeavesBit(p, w[..n]);
      var i :| 0 <= i < |p| && |p| - n <= i && d[i];
      assert d'[i - 1];
    } else {
      assert w[..n] == Zeros(n);
      RunZeros(p, n);
      assert false;
    }
  }

  lemma {:induction false} RunZeros(p: seq<bool>, n: nat)
    requires |p| > 0
    ensures Run(p, Zeros(|p|), Zeros(n)) == Zeros(|p|)
  {
    if n > 0 {
      RunZeros(p, n - 1);
      assert Zeros(n)[..n - 1] == Zeros(n - 1);
    }
  }

  /** Streams that differ only within W consecutive bits have different remainders, whatever comes before and after. */
  lemma BurstDetected(p: seq<bool>, r: seq<bool>, a: seq<bool>, b: seq<bool>, k: nat)
    requires |r| == |p| && Odd(p) && DifferWithin(a, b, k, |p|) && a != b
    ensures Run(p, r, a) != Run(p, r, b)
  {
    var i, j := Burst(a, b, k, |p|);
    var c := Run(p, r, a[..i]);
    assert a == a[..i] + a[i..j] + a[j..] && b == b[..i] + b[i..j] + b[j..];
    SplitRun(p, r, a[..i], a[i..j], a[j..]);
    SplitRun(p, r, b[..i], b[i..j], b[j..]);
    WindowDetected(p, c, a[i..j], b[i..j]);
    if Run(p, r, a) == Run(p, r, b) {
      RunInjective(p, Run(p, c, a[i..j]), Run(p, c, b[i..j]), a[j..]);
    }
  }

  // ---------- Parity ----------

  /** The number of ones. */
  function Ones(s: seq<bool>): nat {
    if s == [] then 0 else Ones(s[..|s| - 1]) + if s[|s| - 1] then 1 else 0
  }

  /** The number of ones is odd: the value at x = 1. */
  predicate OddOnes(s: seq<bool>) {
    Ones(s) % 2 == 1
  }

  lemma OddOnesSnoc(s: seq<bool>, b: bool)
    ensures OddOnes(s + [b]) == (OddOnes(s) != b)
  {
    assert (s + [b])[..|s|] == s;
  }

  lemma {:induction false} OddOnesCons(b: bool, s: seq<bool>)
    ensures OddOnes([b] + s) == (b != OddOnes(s))
    decreases s
  {
    if s == [] {
      assert [b] + s == [] + [b];
      OddOnesSnoc([], b);
    } else {
      var n := |s| - 1;
      assert [b] + s == ([b] + s[..n]) + [s[n]];
      OddOnesCons(b, s[..n]);
      OddOnesSnoc([b] + s[..n], s[n]);
    }
  }

  lemma {:induction false} OddOnesXor(a: seq<bool>, b: seq<bool>)
    requires |a| == |b|
    ensures OddOnes(Xor(a, b)) == (OddOnes(a) != OddOnes(b))
    decreases a
  {
    if a != [] {
      var n := |a| - 1;
      OddOnesXor(a[..n], b[..n]);
      assert Xor(a, b) == Xor(a[..n], b[..n]) + [a[n] != b[n]];
      OddOnesSnoc(Xor(a[..n], b[..n]), a[n] != b[n]);
    }
  }

  /** With its leading coefficient the divisor has an even number of terms: it is a multiple of x + 1. */
  ghost predicate EvenTerms(p: seq<bool>) {
    |p| > 0 && OddOnes(p)
  }

  lemma StepParity(p: seq<bool>, r: seq<bool>, b: bool)
    requires |r| == |p| && EvenTerms(p)
    ensures OddOnes(Step(p, r, b)) == (OddOnes(r) != b)
  {
    assert r == [r[0]] + r[1..];
    OddOnesCons(r[0], r[1..]);
    OddOnesSnoc(r[1..], false);
    OddOnesXor(r[1..] + [false], p);
  }

  /** The register keeps the parity of everything fed to it. */
  lemma {:induction false} RunParity(p: seq<bool>, r: seq<bool>, bits: seq<bool>)
    requires |r| == |p| && EvenTerms(p)
    ensures OddOnes(Run(p, r, bits)) == (OddOnes(r) != OddOnes(bits))
    decreases bits
  {
    if bits != [] {
      var n := |bits| - 1;
      RunParity(p, r, bits[..n]);
      StepParity(p, Run(p, r, bits[..n]), bits[n]);
    }
  }

  /** Streams that differ in an odd number of bits have different remainders. */
  lemma OddErrorsDetected(p: seq<bool>, r: seq<bool>, a: seq<bool>, b: seq<bool>)
    requires |r| == |p| && EvenTerms(p) && |a| == |b| && OddOnes(Xor(a, b))
    ensures Run(p, r, a) != Run(p, r, b)
  {
    OddOnesXor(a, b);
    RunParity(p, r, a);
    RunParity(p, r, b);
  }

  lemma SplitRun(p: seq<bool>, r: seq<bool>, x: seq<bool>, y: seq<bool>, z: seq<bool>)
    requires |r| == |p| > 0
    ensures Run(p, r, x + y + z) == Run(p, Run(p, Run(p, r, x), y), z)
  {
    RunConcat(p, r, x + y, z);
    RunConcat(p, r, x, y);
  }

  lemma WindowDetected(p: seq<bool>, c: seq<bool>, a: seq<bool>, b: seq<bool>)
    requires |c| == |p| && Odd(p) && 0 < |a| == |b| <= |p| && a[0] != b[0]
    ensures Run(p, c, a) != Run(p, c, b)
  {
    RunLinear(p, c, c, a, b);
    XorSelf(c);
    XorSelf(Run(p, c, a));
    assert Xor(a, b)[0];
    BurstLeavesBit(p, Xor(a, b));
  }
}
