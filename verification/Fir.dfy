/** The sign-adaptive FIR predictor of alac.c: its decoder in place on arrays, the decoder's meaning as a function,
    the mirror-image specification encoder, and the proof that the two stay in lock-step. */
module Fir {
  import opened Words

  /** predictor_coef_num == 31 means: each sample is the previous one plus a small difference. */
  const DELTA_ORDER := 31

  // ----- C operators -----

  /** The SIGN_EXTENDED32 macro: shift the low n bits to the top of an int32_t, and arithmetically back. */
  function SignExtended32(v: int, n: nat): int
    requires 1 <= n <= 32
  {
    Wrap32(v * Pow2(32 - n)) / Pow2(32 - n)
  }

  lemma SignExtendedIsSigned(v: int, n: nat)
    requires 1 <= n <= 32
    ensures SignExtended32(v, n) == Signed(v, n)
  {
    hide Signed, Pow2;
    var p, m := Pow2(32 - n), Pow2(n);
    SignedCongruent(v * p, 32);
    var c: int :| Signed(v * p, 32) == v * p + c * Pow2(32);
    ShiftBack(v, c, n);
    var w := v + c * m;
    DivModUnique(w * p, p, w, 0);
    HalfRange(w, n);
    CongruentBy(w, v, n, c);
    CongruentSym(w, v, n);
    SignedUnique(v, w, n);
  }

  lemma ShiftBack(v: int, c: int, n: nat)
    requires n <= 32
    ensures v * Pow2(32 - n) + c * Pow2(32) == (v + c * Pow2(n)) * Pow2(32 - n)
  {
    hide Pow2;
    Pow2Add(n, 32 - n);
    Distribute(v, c, Pow2(n), Pow2(32 - n));
  }

  lemma Distribute(v: int, c: int, m: int, p: int)
    ensures (v + c * m) * p == v * p + c * (m * p)
  {
  }

  lemma HalfRange(w: int, n: nat)
    requires 1 <= n <= 32 && -Pow2(31) <= w * Pow2(32 - n) < Pow2(31)
    ensures Fits(w, n)
  {
    Pow2Add(n - 1, 32 - n);
    CancelRange(w, Pow2(n - 1), Pow2(32 - n));
  }

  lemma CancelRange(w: int, h: int, p: int)
    requires p >= 1 && -(h * p) <= w * p < h * p
    ensures -h <= w < h
  {
    if w >= h {
      MulMonotone(h, w, p);
    }
    if w < -h {
      MulLess(w, -h, p);
    }
  }

  function SignOnly(v: int): int {
    if v < 0 then -1 else if v > 0 then 1 else 0
  }

  // ----- one sample -----

  datatype Order = Order(num: nat, quant: nat, size: nat) {

    /** What the header can carry and the shifts allow: five bits of order, a quantisation of at least 1. */
    predicate Legal() {
      num <= 31 && 1 <= size <= 32 && (1 <= num <= 30 ==> 1 <= quant <= 31)
    }

    predicate Adaptive() {
      1 <= num <= 30
    }
  }

  /** One product of the prediction's inner loop. */
  function Term(sample: int, oldest: int, coef: int): int {
    Wrap32(Wrap32(sample - oldest) * coef)
  }

  /** The weighted sum over the newest j of num earlier samples, each relative to the oldest, in 32-bit arithmetic. */
  function WeightedSum(w: seq<int>, coefs: seq<int>, j: nat): int
    requires |w| == |coefs| + 1 && j <= |coefs|
  {
    if j == 0 then 0
    else
      Wrap32(WeightedSum(w, coefs, j - 1) + Term(w[|coefs| - (j - 1)], w[0], coefs[j - 1]))
  }

  function Prediction(w: seq<int>, coefs: seq<int>, quant: nat): int
    requires |w| == |coefs| + 1 && quant >= 1
  {
    Wrap32(Wrap32(Pow2(quant - 1) + WeightedSum(w, coefs, |coefs|)) / Pow2(quant) + w[0])
  }

  /** How much of the error one coefficient step accounts for. */
  function Spent(val: int, sign: int, quant: nat, weight: int): int {
    val * sign / Pow2(quant) * weight
  }

  /** One direction of the coefficient update: move coefficients, oldest sample first, until the error is used up. */
  function AdaptFrom(w: seq<int>, coefs: seq<int>, quant: nat, err: int, n: int, rising: bool): (r: seq<int>)
    requires |w| == |coefs| + 1 && n < |coefs|
    ensures |r| == |coefs|
    ensures forall k :: 0 <= k < |r| && k > n ==> r[k] == coefs[k]
    decreases n
  {
    if n < 0 || (if rising then err <= 0 else err >= 0) then coefs
    else
      var val := Wrap32(w[0] - w[|coefs| - n]);
      var sign := if rising then SignOnly(val) else -SignOnly(val);
      var coefs' := coefs[n := Signed(coefs[n] - sign, 16)];
      var err' := Wrap32(err - Spent(val, sign, quant, |coefs| - n));
      AdaptFrom(w, coefs', quant, err', n - 1, rising)
  }

  function Adapt(w: seq<int>, coefs: seq<int>, quant: nat, err: int): (r: seq<int>)
    requires |w| == |coefs| + 1
    ensures |r| == |coefs|
  {
    if err > 0 then AdaptFrom(w, coefs, quant, err, |coefs| - 1, true)
    else if err < 0 then AdaptFrom(w, coefs, quant, err, |coefs| - 1, false)
    else coefs
  }

  /** What the decoder adds a residual to, given the samples so far: nothing, the previous sample, or a prediction. */
  function Base(o: Order, outs: seq<int>, coefs: seq<int>): int
    requires o.Legal() && |coefs| == o.num && outs != []
  {
    if o.Adaptive() && |outs| > o.num
    then Prediction(Window(o, outs), coefs, o.quant)
    else outs[|outs| - 1]
  }

  function Window(o: Order, outs: seq<int>): (w: seq<int>)
    requires |outs| > o.num
    ensures |w| == o.num + 1
  {
    outs[|outs| - o.num - 1..]
  }

  /** The decoder's next sample. */
  function DecodeSample(o: Order, outs: seq<int>, coefs: seq<int>, err: int): int
    requires o.Legal() && |coefs| == o.num
  {
    if outs == [] || o.num == 0 then err
    else SignExtended32(Wrap32(Base(o, outs, coefs) + err), o.size)
  }

  /** The coefficient table behind a sample: only the adaptive part rewrites it. */
  function NextCoefs(o: Order, outs: seq<int>, coefs: seq<int>, err: int): (r: seq<int>)
    requires o.Legal() && |coefs| == o.num
    ensures |r| == o.num
  {
    if o.Adaptive() && |outs| > o.num then Adapt(Window(o, outs), coefs, o.quant, err) else coefs
  }

  // ----- whole blocks -----

  datatype State = State(outs: seq<int>, coefs: seq<int>)

  /** The decoder after its first n residuals. */
  function Decode(o: Order, errs: seq<int>, n: nat, coefs: seq<int>): (r: State)
    requires o.Legal() && |coefs| == o.num && n <= |errs|
    ensures |r.outs| == n && |r.coefs| == o.num
  {
    if n == 0 then State([], coefs)
    else
      var st := Decode(o, errs, n - 1, coefs);
      State(st.outs + [DecodeSample(o, st.outs, st.coefs, errs[n - 1])],
            NextCoefs(o, st.outs, st.coefs, errs[n - 1]))
  }

  /** The specification encoder's next residual: the difference to the same base, in the read size. */
  function EncodeSample(o: Order, samples: seq<int>, coefs: seq<int>, x: int): int
    requires o.Legal() && |coefs| == o.num
  {
    if samples == [] || o.num == 0 then x
    else Signed(x - Base(o, samples, coefs), o.size)
  }

  datatype Encoded = Encoded(errs: seq<int>, coefs: seq<int>)

  /** The specification encoder after the first n samples. */
  function Encode(o: Order, samples: seq<int>, n: nat, coefs: seq<int>): (r: Encoded)
    requires o.Legal() && |coefs| == o.num && n <= |samples|
    ensures |r.errs| == n && |r.coefs| == o.num
  {
    if n == 0 then Encoded([], coefs)
    else
      var st := Encode(o, samples, n - 1, coefs);
      var err := EncodeSample(o, samples[..n - 1], st.coefs, samples[n - 1]);
      Encoded(st.errs + [err], NextCoefs(o, samples[..n - 1], st.coefs, err))
  }

  /** Whatever the prediction was, adding the coded difference in the read size gives the sample back. */
  lemma ResidualRestores(base: int, x: int, size: nat)
    requires 1 <= size <= 32 && Fits(x, size)
    ensures SignExtended32(Wrap32(base + Signed(x - base, size)), size) == x
  {
    var e := Signed(x - base, size);
    SignExtendedIsSigned(Wrap32(base + e), size);
    SignedThroughWider(base + e, 32, size);
    SignedCongruent(x - base, size);
    CongruentRefl(base, size);
    CongruentSum(base, base, e, x - base, size);
    SignedUnique(base + e, x, size);
  }

  lemma {:induction false} EncodePrefix(o: Order, samples: seq<int>, n: nat, m: nat, coefs: seq<int>)
    requires o.Legal() && |coefs| == o.num && n <= m <= |samples|
    ensures Encode(o, samples, n, coefs).errs == Encode(o, samples, m, coefs).errs[..n]
    decreases m
  {
    if n < m {
      EncodePrefix(o, samples, n, m - 1, coefs);
    }
  }

  lemma SampleRestored(o: Order, before: seq<int>, coefs: seq<int>, x: int)
    requires o.Legal() && |coefs| == o.num && Fits(x, o.size)
    ensures DecodeSample(o, before, coefs, EncodeSample(o, before, coefs, x)) == x
  {
    hide Signed, SignExtended32, Wrap32, Base;
    if before != [] && o.num != 0 {
      ResidualRestores(Base(o, before, coefs), x, o.size);
    }
  }

  /** Lock-step: after every sample the decoder has reproduced the samples and holds the encoder's coefficient table. */
  lemma {:induction false} LockStep(o: Order, samples: seq<int>, errs: seq<int>, n: nat, coefs: seq<int>)
    requires o.Legal() && |coefs| == o.num && n <= |samples| && n <= |errs|
    requires AllFit(samples, o.size)
    requires Encode(o, samples, n, coefs).errs == errs[..n]
    ensures Decode(o, errs, n, coefs).outs == samples[..n]
    ensures Decode(o, errs, n, coefs).coefs == Encode(o, samples, n, coefs).coefs
  {
    hide DecodeSample, EncodeSample, NextCoefs, Fits;
    if n > 0 {
      EncodePrefix(o, samples, n - 1, n, coefs);
      assert errs[..n][..n - 1] == errs[..n - 1];
      LockStep(o, samples, errs, n - 1, coefs);
      var before, c := samples[..n - 1], Encode(o, samples, n - 1, coefs).coefs;
      assert errs[n - 1] == EncodeSample(o, before, c, samples[n - 1]);
      SampleRestored(o, before, c, samples[n - 1]);
      assert samples[..n] == before + [samples[n - 1]];
    }
  }

  /** Every residual fits the read size, as the entropy coder needs. */
  lemma {:induction false} ResidualsFit(o: Order, samples: seq<int>, n: nat, coefs: seq<int>)
    requires o.Legal() && |coefs| == o.num && n <= |samples| && AllFit(samples, o.size)
    ensures AllFit(Encode(o, samples, n, coefs).errs, o.size)
  {
    if n > 0 {
      ResidualsFit(o, samples, n - 1, coefs);
    }
  }

  /** The decoder's first n samples depend on the first n residuals only. */
  lemma {:induction false} DecodeLocal(o: Order, errs: seq<int>, errs': seq<int>, n: nat, coefs: seq<int>)
    requires o.Legal() && |coefs| == o.num && n <= |errs| && n <= |errs'| && errs[..n] == errs'[..n]
    ensures Decode(o, errs, n, coefs) == Decode(o, errs', n, coefs)
  {
    hide DecodeSample, NextCoefs;
    if n > 0 {
      assert errs[..n - 1] == errs[..n][..n - 1] == errs'[..n][..n - 1] == errs'[..n - 1];
      assert errs[n - 1] == errs[..n][n - 1] == errs'[..n][n - 1] == errs'[n - 1];
      DecodeLocal(o, errs, errs', n - 1, coefs);
    }
  }

  lemma {:induction false} DecodePrefix(o: Order, errs: seq<int>, n: nat, m: nat, coefs: seq<int>)
    requires o.Legal() && |coefs| == o.num && n <= m <= |errs|
    ensures Decode(o, errs, n, coefs).outs == Decode(o, errs, m, coefs).outs[..n]
    decreases m
  {
    if n < m {
      DecodePrefix(o, errs, n, m - 1, coefs);
    }
  }

  // ----- how far coefficients move -----

  ghost predicate MovedByAtMostOne(before: int, after: int) {
    after == before || after == Signed(before - 1, 16) || after == Signed(before + 1, 16)
  }

  /** One sample moves each coefficient by at most one (as an int16_t). */
  lemma {:induction false} AdaptMoves(w: seq<int>, coefs: seq<int>, quant: nat, err: int, n: int, rising: bool, k: nat)
    requires |w| == |coefs| + 1 && n < |coefs| && k < |coefs| && Fits(coefs[k], 16)
    ensures MovedByAtMostOne(coefs[k], AdaptFrom(w, coefs, quant, err, n, rising)[k])
    decreases n
  {
    hide Wrap32, Spent, Signed, Fits;
    if n < 0 || (if rising then err <= 0 else err >= 0) {
    } else {
      var val := Wrap32(w[0] - w[|coefs| - n]);
      var sign := if rising then SignOnly(val) else -SignOnly(val);
      var coefs' := coefs[n := Signed(coefs[n] - sign, 16)];
      var err' := Wrap32(err - Spent(val, sign, quant, |coefs| - n));
      if k == n {
        CongruentRefl(coefs[k], 16);
        SignedUnique(coefs[k], coefs[k], 16);
      } else {
        AdaptMoves(w, coefs', quant, err', n - 1, rising, k);
      }
    }
  }

  lemma CoefficientsMove(o: Order, outs: seq<int>, coefs: seq<int>, err: int, k: nat)
    requires o.Legal() && |coefs| == o.num && k < o.num && Fits(coefs[k], 16)
    ensures MovedByAtMostOne(coefs[k], NextCoefs(o, outs, coefs, err)[k])
  {
    hide AdaptFrom, Signed, Fits;
    if o.Adaptive() && |outs| > o.num && err != 0 {
      AdaptMoves(Window(o, outs), coefs, o.quant, err, o.num - 1, err > 0, k);
    }
  }


  // ----- in place -----

  /** Where nothing adapts, the table stays as it was. */
  lemma {:induction false} NoAdaptation(o: Order, errs: seq<int>, n: nat, coefs: seq<int>)
    requires o.Legal() && |coefs| == o.num && n <= |errs|
    requires o.Adaptive() ==> n <= o.num + 1
    ensures Decode(o, errs, n, coefs).coefs == coefs
  {
    if n > 0 {
      NoAdaptation(o, errs, n - 1, coefs);
    }
  }

  /** The loop over the coefficient table for one sample, oldest sample first; the source writes it once per sign. */
  method AdaptTable(out: array<int>, base: nat, table: array<int>, num: nat, quant: nat, err: int, rising: bool)
    requires out != table && 1 <= num <= table.Length && base + num < out.Length
    modifies table
    ensures table[..num]
         == AdaptFrom(out[base..base + num + 1], old(table[..num]), quant, err, num - 1, rising)
  {
    hide Wrap32, Spent, Signed;
    ghost var w, coefs := out[base..base + num + 1], table[..num];
    var errorVal := err;
    var n := num - 1;
    while n >= 0 && (if rising then errorVal > 0 else errorVal < 0)
      invariant -1 <= n < num
      invariant AdaptFrom(w, table[..num], quant, errorVal, n, rising)
             == AdaptFrom(w, coefs, quant, err, num - 1, rising)
    {
      var val := Wrap32(out[base] - out[base + num - n]);
      var sign := if rising then SignOnly(val) else -SignOnly(val);
      assert val == Wrap32(w[0] - w[num - n]);
      ghost var before := table[..num];
      table[n] := Signed(table[n] - sign, 16);
      assert table[..num] == before[n := Signed(before[n] - sign, 16)];
      errorVal := Wrap32(errorVal - Spent(val, sign, quant, num - n));
      n := n - 1;
    }
  }

  /** The inner product and rounding of one prediction. */
  method Predict(out: array<int>, base: nat, table: array<int>, num: nat, quant: nat) returns (outval: int)
    requires num <= table.Length && base + num < out.Length && quant >= 1
    ensures outval == Prediction(out[base..base + num + 1], table[..num], quant)
  {
    hide Wrap32, Term;
    ghost var w, coefs := out[base..base + num + 1], table[..num];
    var sum := 0;
    var j := 0;
    while j < num
      invariant 0 <= j <= num
      invariant sum == WeightedSum(w, coefs, j)
    {
      assert w[num - j] == out[base + num - j] && w[0] == out[base] && coefs[j] == table[j];
      sum := Wrap32(sum + Term(out[base + num - j], out[base], table[j]));
      j := j + 1;
    }
    outval := Wrap32(Wrap32(Pow2(quant - 1) + sum) / Pow2(quant) + out[base]);
  }

  lemma DecodeSucc(o: Order, errs: seq<int>, n: nat, coefs: seq<int>)
    requires o.Legal() && |coefs| == o.num && n < |errs|
    ensures var st := Decode(o, errs, n, coefs);
      Decode(o, errs, n + 1, coefs) == State(st.outs + [DecodeSample(o, st.outs, st.coefs, errs[n])],
                                             NextCoefs(o, st.outs, st.coefs, errs[n]))
  {
    hide DecodeSample, NextCoefs;
  }

  lemma FirstSample(o: Order, errs: seq<int>, coefs: seq<int>)
    requires o.Legal() && |coefs| == o.num && errs != []
    ensures Decode(o, errs, 1, coefs).outs == [errs[0]]
  {
    assert Decode(o, errs, 0, coefs) == State([], coefs);
  }

  /** Order 0: the residuals are the samples. */
  method CopyRest(error: array<int>, out: array<int>, outputSize: nat, ghost o: Order)
    requires o.Legal() && o.num == 0 && error != out
    requires 1 <= outputSize <= error.Length && outputSize <= out.Length
    requires out[..1] == Decode(o, error[..], 1, []).outs
    modifies out
    ensures out[..outputSize] == Decode(o, error[..], outputSize, []).outs
  {
    hide Decode, Wrap32, SignExtended32;
    ghost var errs := error[..];
    var i := 1;
    while i < outputSize
      invariant 1 <= i <= outputSize
      invariant out[..i] == Decode(o, errs, i, []).outs
    {
      DecodeSucc(o, errs, i, []);
      out[i] := error[i];
      assert out[..i + 1] == out[..i] + [error[i]];
      i := i + 1;
    }
  }

  /** Samples built on the previous one: the whole of order 31, and the warm-up of the adaptive orders. */
  method DeltaUpTo(error: array<int>, out: array<int>, last: nat, o: Order, ghost coefs: seq<int>)
    requires o.Legal() && |coefs| == o.num && o.num != 0 && (o.Adaptive() ==> last <= o.num) && error != out
    requires last < error.Length && last < out.Length
    requires out[..1] == Decode(o, error[..], 1, coefs).outs
    modifies out
    ensures out[..last + 1] == Decode(o, error[..], last + 1, coefs).outs
  {
    hide Decode, Wrap32, SignExtended32;
    ghost var errs := error[..];
    var i := 0;
    while i < last
      invariant 0 <= i <= last
      invariant out[..i + 1] == Decode(o, errs, i + 1, coefs).outs
    {
      DecodeSucc(o, errs, i + 1, coefs);
      ghost var outs := out[..i + 1];
      assert outs[|outs| - 1] == out[i];
      out[i + 1] := SignExtended32(Wrap32(out[i] + error[i + 1]), o.size);
      assert out[..i + 2] == outs + [out[i + 1]];
      i := i + 1;
    }
  }

  /** One turn of the general case: predict, correct, adapt. */
  method AdaptiveSample(error: array<int>, out: array<int>, i: nat, o: Order, table: array<int>)
    requires o.Legal() && o.Adaptive() && o.num <= table.Length
    requires error != out && error != table && out != table
    requires o.num < i < error.Length && i < out.Length
    modifies out, table
    ensures out[..i] == old(out[..i])
    ensures out[i] == DecodeSample(o, old(out[..i]), old(table[..o.num]), error[i])
    ensures table[..o.num] == NextCoefs(o, old(out[..i]), old(table[..o.num]), error[i])
  {
    hide Wrap32, SignExtended32, AdaptFrom, Prediction;
    var base := i - o.num - 1;
    ghost var w := Window(o, out[..i]);
    assert w == out[base..base + o.num + 1];
    var errorVal := error[i];
    var outval := Predict(out, base, table, o.num, o.quant);
    out[i] := SignExtended32(Wrap32(outval + errorVal), o.size);
    assert out[base..base + o.num + 1] == w;
    if errorVal > 0 {
      AdaptTable(out, base, table, o.num, o.quant, errorVal, true);
    } else if errorVal < 0 {
      AdaptTable(out, base, table, o.num, o.quant, errorVal, false);
    }
  }

  /** The general case. */
  method AdaptiveRest(error: array<int>, out: array<int>, outputSize: nat, o: Order, table: array<int>,
                      ghost coefs: seq<int>)
    requires o.Legal() && o.Adaptive() && |coefs| == o.num <= table.Length
    requires error != out && error != table && out != table
    requires o.num < outputSize <= error.Length && outputSize <= out.Length
    requires out[..o.num + 1] == Decode(o, error[..], o.num + 1, coefs).outs
    requires table[..o.num] == Decode(o, error[..], o.num + 1, coefs).coefs
    modifies out, table
    ensures out[..outputSize] == Decode(o, error[..], outputSize, coefs).outs
    ensures table[..o.num] == Decode(o, error[..], outputSize, coefs).coefs
  {
    hide Decode, DecodeSample, NextCoefs;
    ghost var errs := error[..];
    var i := o.num + 1;
    while i < outputSize
      invariant o.num + 1 <= i <= outputSize
      invariant out[..i] == Decode(o, errs, i, coefs).outs
      invariant table[..o.num] == Decode(o, errs, i, coefs).coefs
    {
      DecodeSucc(o, errs, i, coefs);
      ghost var outs := out[..i];
      AdaptiveSample(error, out, i, o, table);
      assert out[..i + 1] == outs + [out[i]];
      i := i + 1;
    }
  }

  /** Orders 1 to 30: warm-up, then the general case if the block is long enough to reach it. */
  method AdaptiveOrder(error: array<int>, out: array<int>, outputSize: nat, o: Order, table: array<int>,
                       ghost coefs: seq<int>)
    requires o.Legal() && o.Adaptive() && o.num <= table.Length && table[..o.num] == coefs
    requires error != out && error != table && out != table
    requires 1 <= outputSize <= error.Length && outputSize <= out.Length && o.num < error.Length && o.num < out.Length
    requires out[..1] == Decode(o, error[..], 1, coefs).outs
    modifies out, table
    ensures out[..outputSize] == Decode(o, error[..], outputSize, coefs).outs
    ensures table[..o.num] == Decode(o, error[..], outputSize, coefs).coefs
  {
    hide Decode;
    DeltaUpTo(error, out, o.num, o, coefs);
    NoAdaptation(o, error[..], o.num + 1, coefs);
    if o.num < outputSize {
      AdaptiveRest(error, out, outputSize, o, table, coefs);
    } else {
      DecodePrefix(o, error[..], outputSize, o.num + 1, coefs);
      NoAdaptation(o, error[..], outputSize, coefs);
      assert out[..o.num + 1][..outputSize] == out[..outputSize];
    }
  }

  /** predictor_decompress_fir_adapt: fills buffer_out from error_buffer and rewrites the coefficient table. */
  method PredictorDecompressFirAdapt(error: array<int>, out: array<int>, outputSize: nat, size: nat,
                                     table: array<int>, num: nat, quant: nat)
    requires Order(num, quant, size).Legal()
    requires error != out && error != table && out != table
    requires 1 <= outputSize <= error.Length && outputSize <= out.Length && num <= table.Length
    requires 1 <= num <= 30 ==> num < error.Length && num < out.Length
    modifies out, table
    ensures out[..outputSize] == Decode(Order(num, quant, size), error[..], outputSize, old(table[..num])).outs
    ensures table[..num] == Decode(Order(num, quant, size), error[..], outputSize, old(table[..num])).coefs
  {
    var o := Order(num, quant, size);
    ghost var errs, coefs := error[..], table[..num];
    out[0] := error[0];
    hide Decode;
    FirstSample(o, errs, coefs);
    assert out[..1] == [errs[0]];
    if num == 0 {
      CopyRest(error, out, outputSize, o);
      NoAdaptation(o, errs, outputSize, coefs);
    } else if num == DELTA_ORDER {
      DeltaUpTo(error, out, outputSize - 1, o, coefs);
      NoAdaptation(o, errs, outputSize, coefs);
    } else {
      AdaptiveOrder(error, out, outputSize, o, table, coefs);
    }
  }
}
