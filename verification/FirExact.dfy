/** What the predictor computes, said of the samples and residuals themselves: the rounding, scale and pairing of a
    prediction, which coefficients an update moves, and the running sums of the warm-up. */
module FirExact {
  import opened Words
  import opened Fir
  import opened FirAdaptation

  // ----- the sum -----

  lemma CongruentProduct(a: int, b: int, x: int, n: nat)
    requires Congruent(a, b, n)
    ensures Congruent(a * x, b * x, n)
  {
    hide Pow2;
    var c: int :| a == b + c * Pow2(n);
    var m := Pow2(n);
    assert (b + c * m) * x == b * x + (c * x) * m;
    CongruentBy(a * x, b * x, n, c * x);
  }

  lemma WrapCongruent(v: int)
    ensures Congruent(Wrap32(v), v, 32)
  {
    SignedCongruent(v, 32);
  }

  lemma TermCongruent(sample: int, oldest: int, coef: int)
    ensures Congruent(Term(sample, oldest, coef), (sample - oldest) * coef, 32)
  {
    hide Wrap32;
    var d := sample - oldest;
    WrapCongruent(d);
    CongruentProduct(Wrap32(d), d, coef, 32);
    WrapCongruent(Wrap32(d) * coef);
    CongruentTrans(Term(sample, oldest, coef), Wrap32(d) * coef, d * coef, 32);
  }

  /** Wrapping every difference, product and partial sum around is wrapping the exact sum around once. */
  lemma {:induction false} SumCongruent(w: seq<int>, coefs: seq<int>, j: nat)
    requires |w| == |coefs| + 1 && j <= |coefs|
    ensures Congruent(WeightedSum(w, coefs, j), ExactSum(w, coefs, j), 32)
  {
    hide Term, Wrap32;
    if j == 0 {
      CongruentRefl(0, 32);
    } else {
      SumCongruent(w, coefs, j - 1);
      var sample, coef := w[|coefs| - (j - 1)], coefs[j - 1];
      var before, t := WeightedSum(w, coefs, j - 1), Term(sample, w[0], coef);
      TermCongruent(sample, w[0], coef);
      CongruentSum(before, ExactSum(w, coefs, j - 1), t, (sample - w[0]) * coef, 32);
      WrapCongruent(before + t);
      CongruentTrans(WeightedSum(w, coefs, j), before + t, ExactSum(w, coefs, j), 32);
    }
  }

  lemma RoundedSum(w: seq<int>, coefs: seq<int>, half: int)
    requires |w| == |coefs| + 1 && Fits(half + ExactSum(w, coefs, |coefs|), 32)
    ensures Wrap32(half + WeightedSum(w, coefs, |coefs|)) == half + ExactSum(w, coefs, |coefs|)
  {
    hide WeightedSum, ExactSum, Fits;
    SumCongruent(w, coefs, |coefs|);
    CongruentRefl(half, 32);
    CongruentSum(half, half, WeightedSum(w, coefs, |coefs|), ExactSum(w, coefs, |coefs|), 32);
    SignedUnique(half + WeightedSum(w, coefs, |coefs|), half + ExactSum(w, coefs, |coefs|), 32);
  }

  // ----- the rounding -----

  /** p is sum / 2^quant rounded to the nearest integer, halves upwards. */
  ghost predicate Nearest(p: int, sum: int, quant: nat)
    requires quant >= 1
  {
    Pow2(quant) * p - Pow2(quant - 1) <= sum < Pow2(quant) * p + Pow2(quant - 1)
  }

  lemma NearestIsShift(p: int, sum: int, quant: nat)
    requires quant >= 1
    ensures Nearest(p, sum, quant) <==> p == (Pow2(quant - 1) + sum) / Pow2(quant)
  {
    var m, v := Pow2(quant), Pow2(quant - 1) + sum;
    assert m == 2 * Pow2(quant - 1);
    DivModIdentity(v, m);
    if Nearest(p, sum, quant) {
      DivModUnique(v, m, p, v - p * m);
    }
  }

  lemma PredictionIs(w: seq<int>, coefs: seq<int>, quant: nat, p: int)
    requires |w| == |coefs| + 1 && quant >= 1
    requires Fits(Pow2(quant - 1) + ExactSum(w, coefs, |coefs|), 32)
    requires Nearest(p, ExactSum(w, coefs, |coefs|), quant)
    ensures Prediction(w, coefs, quant) == Wrap32(p + w[0])
  {
    hide Wrap32, Fits, Nearest, ExactSum, WeightedSum, Pow2;
    RoundedSum(w, coefs, Pow2(quant - 1));
    NearestIsShift(p, ExactSum(w, coefs, |coefs|), quant);
  }

  lemma HalvedFits(v: int, oldest: int, quant: nat)
    requires Fits(v, 32) && Fits(oldest, 31) && quant >= 1
    ensures Wrap32(v / Pow2(quant) + oldest) == v / Pow2(quant) + oldest
  {
    Pow2Values();
    assert Pow2(31) == 2 * Pow2(30);
    Halved(v, Pow2(quant), 0x4000_0000);
    WrapOfInt32(v / Pow2(quant) + oldest);
  }

  lemma Halved(v: int, m: int, h: int)
    requires m >= 2 && h > 0 && -2 * h <= v < 2 * h
    ensures -h <= v / m < h
  {
    DivModIdentity(v, m);
    var q := v / m;
    if q >= h {
      MulMonotone(h, q, m);
      MulMonotone(2, m, h);
    }
    if q < -h {
      MulLess(q, -h, m);
      MulMonotone(2, m, h);
    }
  }

  /** The prediction lies above the oldest sample by the weighted sum of the differences over 2^quant, rounded to the
      nearest integer: within half a unit, on either side. */
  lemma PredictionRounds(w: seq<int>, coefs: seq<int>, quant: nat)
    requires |w| == |coefs| + 1 && quant >= 1 && Fits(w[0], 31)
    requires Fits(Pow2(quant - 1) + ExactSum(w, coefs, |coefs|), 32)
    ensures
      var p, sum := Prediction(w, coefs, quant) - w[0], ExactSum(w, coefs, |coefs|);
      Pow2(quant) * p - Pow2(quant - 1) <= sum < Pow2(quant) * p + Pow2(quant - 1)
  {
    hide Wrap32, Fits, ExactSum, Pow2, Prediction;
    var v := Pow2(quant - 1) + ExactSum(w, coefs, |coefs|);
    var p := v / Pow2(quant);
    NearestIsShift(p, ExactSum(w, coefs, |coefs|), quant);
    PredictionIs(w, coefs, quant, p);
    HalvedFits(v, w[0], quant);
  }

  /** The sum the decoder's next sample is predicted from: coefficient j belongs to the sample j before the last one,
      and every sample is taken relative to the one |coefs| before the last. */
  function PastSum(outs: seq<int>, coefs: seq<int>, j: nat): int
    requires j <= |coefs| < |outs|
  {
    if j == 0 then 0
    else
      PastSum(outs, coefs, j - 1) + (outs[|outs| - j] - outs[|outs| - 1 - |coefs|]) * coefs[j - 1]
  }

  lemma {:induction false} PastSumIsExact(outs: seq<int>, coefs: seq<int>, j: nat)
    requires j <= |coefs| < |outs|
    ensures PastSum(outs, coefs, j) == ExactSum(outs[|outs| - |coefs| - 1..], coefs, j)
  {
    if j > 0 {
      PastSumIsExact(outs, coefs, j - 1);
      var w := outs[|outs| - |coefs| - 1..];
      assert w[|coefs| - (j - 1)] == outs[|outs| - j] && w[0] == outs[|outs| - 1 - |coefs|];
    }
  }

  lemma AddedIn(base: int, p: int, err: int, size: nat)
    requires 1 <= size <= 32 && Congruent(base, p, size)
    ensures SignExtended32(Wrap32(base + err), size) == Signed(p + err, size)
  {
    hide SignExtended32;
    SignExtendedIsSigned(Wrap32(base + err), size);
    SignedThroughWider(base + err, 32, size);
    CongruentRefl(err, size);
    CongruentSum(base, p, err, err, size);
    SignedOfCongruent(base + err, p + err, size);
  }

  /** Every sample behind the warm-up, in every block: it is the oldest sample of its window, plus the sum over 2^quant
      rounded to the nearest integer, plus the residual, in the read size. */
  lemma SampleExact(o: Order, errs: seq<int>, n: nat, coefs: seq<int>, p: int)
    requires o.Legal() && o.Adaptive() && |coefs| == o.num < n < |errs|
    requires
      var st := Decode(o, errs, n, coefs);
      var sum := PastSum(st.outs, st.coefs, o.num);
      Fits(Pow2(o.quant - 1) + sum, 32) && Nearest(p, sum, o.quant)
    ensures
      var st := Decode(o, errs, n, coefs);
      Decode(o, errs, n + 1, coefs).outs == st.outs + [Signed(p + st.outs[n - 1 - o.num] + errs[n], o.size)]
  {
    hide Decode, PastSum, ExactSum, Nearest, Fits, Prediction, SignExtended32, Wrap32, Signed;
    var st := Decode(o, errs, n, coefs);
    DecodeSucc(o, errs, n, coefs);
    PastSumIsExact(st.outs, st.coefs, o.num);
    var w := Window(o, st.outs);
    assert w[0] == st.outs[n - 1 - o.num];
    PredictionIs(w, st.coefs, o.quant, p);
    WrapCongruent(p + w[0]);
    CongruentNarrow(Wrap32(p + w[0]), p + w[0], 32, o.size);
    AddedIn(Wrap32(p + w[0]), p + w[0], errs[n], o.size);
  }

  // ----- the update -----

  function Abs(v: int): (r: int)
    ensures r >= 0
  {
    if v < 0 then -v else v
  }

  /** What one coefficient takes off the error: the size of its difference over 2^quant, rounded down after a positive
      residual and up after a negative one, times its distance from the end of the table. */
  function Step(w: seq<int>, quant: nat, rising: bool, i: nat): (r: nat)
    requires 1 <= |w| - i - 1
  {
    var size, m := Abs(w[|w| - 1 - i] - w[0]), Pow2(quant);
    StepNonNegative(size, m, |w| - 1 - i);
    (if rising then size / m else (size + m - 1) / m) * (|w| - 1 - i)
  }

  lemma StepNonNegative(size: nat, m: int, weight: nat)
    requires m >= 1
    ensures size / m * weight >= 0 && (size + m - 1) / m * weight >= 0
  {
    DivModIdentity(size, m);
    DivModIdentity(size + m - 1, m);
    MulMonotone(0, size / m, weight);
    MulMonotone(0, (size + m - 1) / m, weight);
  }

  /** What the coefficients k + 1 to n take off together. */
  function Cost(w: seq<int>, quant: nat, rising: bool, k: int, n: int): (r: nat)
    requires -1 <= k && n < |w| - 1
    decreases n
  {
    if n <= k then 0 else Step(w, quant, rising, n) + Cost(w, quant, rising, k, n - 1)
  }

  /** One up or down in the direction of the residual, and nothing where the sample equals the oldest one. */
  function Nudge(difference: int, rising: bool): int {
    if difference == 0 then 0 else if (difference > 0) == rising then 1 else -1
  }

  /** Samples of at most 26 bits, so that no error wraps around; a 24-bit stream carries 25. */
  ghost predicate Ordinary(w: seq<int>) {
    |w| <= 31 && AllFit(w, 26)
  }

  lemma NegativeShift(size: int, m: int)
    requires size >= 0 && m >= 1
    ensures -size / m == -((size + m - 1) / m)
  {
    DivModIdentity(size + m - 1, m);
    var q, r := (size + m - 1) / m, (size + m - 1) % m;
    assert -size == -q * m + (m - 1 - r);
    DivModUnique(-size, m, -q, m - 1 - r);
  }

  lemma OrdinaryDifference(w: seq<int>, i: nat)
    requires Ordinary(w) && i < |w|
    ensures -0x400_0000 < w[i] - w[0] < 0x400_0000
    ensures Wrap32(w[0] - w[i]) == w[0] - w[i]
  {
    Pow2Values();
    Pow2Add(24, 1);
    assert Fits(w[0], 26) && Fits(w[i], 26);
    WrapOfInt32(w[0] - w[i]);
  }

  lemma ShareBound(size: nat, m: int, weight: nat)
    requires size < 0x400_0000 && m >= 1 && weight <= 30
    ensures 0 <= size / m * weight < 0x7800_0001 && 0 <= (size + m - 1) / m * weight < 0x7800_0001
  {
    StepNonNegative(size, m, weight);
    DivModIdentity(size, m);
    DivModIdentity(size + m - 1, m);
    AtMostAll(size, m, size / m);
    AtMostAll(size, m, (size + m - 1) / m);
    MulMonotone(size / m, 0x400_0000, weight);
    MulMonotone((size + m - 1) / m, 0x400_0000, weight);
  }

  lemma AtMostAll(size: nat, m: int, q: int)
    requires m >= 1 && q * m <= size + m - 1
    ensures q <= size
  {
    if q > size {
      MulLess(size, q, m);
      MulMonotone(1, m, size);
    }
  }

  /** The error behind one step of either loop. */
  lemma SpentIsStep(w: seq<int>, quant: nat, err: int, rising: bool, i: nat)
    requires Ordinary(w) && i < |w| - 1 && Fits(err, 32)
    requires if rising then err > 0 else err < 0
    ensures
      var val := Wrap32(w[0] - w[|w| - 1 - i]);
      var sign := if rising then SignOnly(val) else -SignOnly(val);
      && sign == -Nudge(w[|w| - 1 - i] - w[0], rising)
      && Wrap32(err - Spent(val, sign, quant, |w| - 1 - i))
         == (if rising then err - Step(w, quant, rising, i) else err + Step(w, quant, rising, i))
      && Fits(Wrap32(err - Spent(val, sign, quant, |w| - 1 - i)), 32)
  {
    hide Wrap32, Pow2, AllFit;
    var d, m := w[|w| - 1 - i] - w[0], Pow2(quant);
    OrdinaryDifference(w, |w| - 1 - i);
    ShareBound(Abs(d), m, |w| - 1 - i);
    NegativeShift(Abs(d), m);
    var sign := if rising then SignOnly(-d) else -SignOnly(-d);
    assert -d * sign == if rising then Abs(d) else -Abs(d);
    var s: int := Step(w, quant, rising, i);
    assert Spent(-d, sign, quant, |w| - 1 - i) == if rising then s else -s by {
      Negated((Abs(d) + m - 1) / m, |w| - 1 - i);
    }
    FitsSmaller(err, s, rising);
  }

  lemma Negated(x: int, y: int)
    ensures -x * y == -(x * y)
  {
  }

  lemma FitsSmaller(err: int, s: nat, rising: bool)
    requires Fits(err, 32) && s <= 0x7800_0000
    requires if rising then err > 0 else err < 0
    ensures
      var e := if rising then err - s else err + s;
      Wrap32(e) == e && Fits(e, 32)
  {
    Pow2Values();
    WrapOfInt32(if rising then err - s else err + s);
  }

  lemma {:induction false} UpdateExact(w: seq<int>, coefs: seq<int>, quant: nat, err: int, n: int, rising: bool, k: nat)
    requires |w| == |coefs| + 1 && k <= n < |coefs| && Ordinary(w) && Fits(err, 32)
    ensures
      AdaptFrom(w, coefs, quant, err, n, rising)[k]
      == if (if rising then err else -err) > Cost(w, quant, rising, k, n)
         then Signed(coefs[k] + Nudge(w[|coefs| - k] - w[0], rising), 16)
         else coefs[k]
    decreases n
  {
    hide Wrap32, Signed, Spent, SignOnly, Nudge, Fits, Ordinary, Step;
    if if rising then err <= 0 else err >= 0 {
    } else {
      SpentIsStep(w, quant, err, rising, n);
      var val := Wrap32(w[0] - w[|coefs| - n]);
      var sign := if rising then SignOnly(val) else -SignOnly(val);
      var coefs' := coefs[n := Signed(coefs[n] - sign, 16)];
      var err' := Wrap32(err - Spent(val, sign, quant, |coefs| - n));
      assert AdaptFrom(w, coefs, quant, err, n, rising) == AdaptFrom(w, coefs', quant, err', n - 1, rising);
      if k < n {
        UpdateExact(w, coefs', quant, err', n - 1, rising, k);
      }
    }
  }

  /** The table behind every sample of every block: a coefficient moves by one towards the sample exactly if the
      residual is larger than what the coefficients behind it in the table have taken off. */
  lemma TableExact(o: Order, errs: seq<int>, n: nat, coefs: seq<int>, k: nat)
    requires o.Legal() && o.Adaptive() && k < |coefs| == o.num < n < |errs| && Fits(errs[n], 32)
    requires AllFit(Decode(o, errs, n, coefs).outs, 26)
    ensures
      var st := Decode(o, errs, n, coefs);
      var w, rising := st.outs[n - 1 - o.num..], errs[n] > 0;
      Decode(o, errs, n + 1, coefs).coefs[k]
      == if Abs(errs[n]) > Cost(w, o.quant, rising, k, o.num - 1)
         then Signed(st.coefs[k] + Nudge(st.outs[n - 1 - k] - st.outs[n - 1 - o.num], rising), 16)
         else st.coefs[k]
  {
    hide Decode, AdaptFrom, Cost, Fits, Nudge, DecodeSample, Signed;
    var st := Decode(o, errs, n, coefs);
    DecodeSucc(o, errs, n, coefs);
    var w := Window(o, st.outs);
    assert w[o.num - k] == st.outs[n - 1 - k];
    assert Ordinary(w);
    if errs[n] != 0 {
      UpdateExact(w, st.coefs, o.quant, errs[n], o.num - 1, errs[n] > 0, k);
    }
  }

  // ----- the warm-up -----

  function Total(errs: seq<int>, n: nat): int
    requires n <= |errs|
  {
    if n == 0 then 0 else Total(errs, n - 1) + errs[n - 1]
  }

  /** Order 31, and the first samples of the adaptive orders: the samples are the running sums of the residuals. */
  lemma {:induction false} RunningSums(o: Order, errs: seq<int>, n: nat, coefs: seq<int>)
    requires o.Legal() && o.num != 0 && |coefs| == o.num && n < |errs| && (o.Adaptive() ==> n <= o.num)
    ensures Decode(o, errs, n + 1, coefs).outs[n] == if n == 0 then errs[0] else Signed(Total(errs, n + 1), o.size)
  {
    hide Signed, SignExtended32, Wrap32, NextCoefs, Decode;
    if n == 0 {
      FirstSample(o, errs, coefs);
    } else {
      RunningSums(o, errs, n - 1, coefs);
      DecodeSucc(o, errs, n, coefs);
      var last := Decode(o, errs, n, coefs).outs[n - 1];
      assert Total(errs, 1) == Total(errs, 0) + errs[0];
      LastCongruent(last, Total(errs, n), n - 1, o.size);
      AddedIn(last, Total(errs, n), errs[n], o.size);
    }
  }

  lemma LastCongruent(last: int, total: int, n: nat, size: nat)
    requires size >= 1 && last == (if n == 0 then total else Signed(total, size))
    ensures Congruent(last, total, size)
  {
    if n == 0 {
      CongruentRefl(total, size);
    } else {
      SignedCongruent(total, size);
    }
  }

  /** Order 0: the samples are the residuals. */
  lemma {:induction false} PlainResiduals(o: Order, errs: seq<int>, n: nat, coefs: seq<int>)
    requires o.Legal() && o.num == 0 && coefs == [] && n <= |errs|
    ensures Decode(o, errs, n, coefs).outs == errs[..n]
  {
    if n > 0 {
      PlainResiduals(o, errs, n - 1, coefs);
    }
  }
}
