/** What the predictor's coefficient update is for: the next prediction from the same samples moves towards the one that
    was missed. */
module FirAdaptation {
  import opened Words
  import opened Fir

  /** The prediction's weighted sum over the first j coefficients, without wrap-around. */
  function ExactSum(w: seq<int>, coefs: seq<int>, j: nat): int
    requires |w| == |coefs| + 1 && j <= |coefs|
  {
    if j == 0 then 0 else ExactSum(w, coefs, j - 1) + (w[|coefs| - (j - 1)] - w[0]) * coefs[j - 1]
  }

  /** Differences of these samples fit in 32 bits. */
  ghost predicate Samples(w: seq<int>) {
    forall i :: 0 <= i < |w| ==> Fits(w[i], 31)
  }

  /** A step of one does not take these coefficients out of 16 bits. */
  predicate Movable(c: int) {
    -0x8000 < c < 0x7FFF
  }

  function Times(x: int, y: int): int {
    x * y
  }

  /** How much the change of coefficient k adds to the sum. */
  function Gain(w: seq<int>, before: seq<int>, after: seq<int>, k: nat): int
    requires |w| == |before| + 1 && |after| == |before| && k < |before|
  {
    Times(w[|before| - k] - w[0], after[k] - before[k])
  }

  /** Up if rising, and down otherwise. */
  predicate Ahead(gain: int, rising: bool) {
    if rising then gain >= 0 else gain <= 0
  }

  lemma DifferenceFits(a: int, b: int)
    requires Fits(a, 31) && Fits(b, 31)
    ensures Wrap32(a - b) == a - b
  {
    Pow2Values();
    assert Pow2(31) == 2 * Pow2(30);
    WrapOfInt32(a - b);
  }

  lemma StepFits(c: int, sign: int)
    requires Movable(c) && -1 <= sign <= 1
    ensures Signed(c - sign, 16) == c - sign
  {
    Pow2Values();
    SignedOfFit(c - sign, 16);
  }

  /** A step of a coefficient against the sign of its difference, or with it. */
  lemma StepMoves(difference: int, rising: bool)
    ensures
      var sign := if rising then SignOnly(-difference) else -SignOnly(-difference);
      && Ahead(Times(difference, -sign), rising)
      && (difference != 0 ==> Times(difference, -sign) != 0)
  {
  }

  lemma UpdateUnfold(w: seq<int>, coefs: seq<int>, quant: nat, err: int, n: nat, rising: bool)
    returns (err': int, sign: int)
    requires |w| == |coefs| + 1 && n < |coefs|
    requires if rising then err > 0 else err < 0
    ensures
      var val := Wrap32(w[0] - w[|coefs| - n]);
      sign == if rising then SignOnly(val) else -SignOnly(val)
    ensures AdaptFrom(w, coefs, quant, err, n, rising)
            == AdaptFrom(w, coefs[n := Signed(coefs[n] - sign, 16)], quant, err', n - 1, rising)
  {
    hide Wrap32, Signed, Spent, SignOnly;
    var val := Wrap32(w[0] - w[|coefs| - n]);
    sign := if rising then SignOnly(val) else -SignOnly(val);
    err' := Wrap32(err - Spent(val, sign, quant, |coefs| - n));
  }

  /** One turn of the update loop changes one coefficient, and goes on to the next. */
  lemma UpdateTurn(w: seq<int>, coefs: seq<int>, quant: nat, err: int, n: nat, rising: bool) returns (err': int, c: int)
    requires |w| == |coefs| + 1 && n < |coefs| && Samples(w) && Movable(coefs[n])
    requires if rising then err > 0 else err < 0
    ensures AdaptFrom(w, coefs, quant, err, n, rising) == AdaptFrom(w, coefs[n := c], quant, err', n - 1, rising)
    ensures Ahead(Times(w[|coefs| - n] - w[0], c - coefs[n]), rising)
    ensures w[|coefs| - n] != w[0] ==> Times(w[|coefs| - n] - w[0], c - coefs[n]) != 0
  {
    assert Fits(w[0], 31) && Fits(w[|coefs| - n], 31);
    hide Wrap32, Signed, Fits, Ahead, AdaptFrom, Times, Movable;
    var sign: int;
    err', sign := UpdateUnfold(w, coefs, quant, err, n, rising);
    DifferenceFits(w[0], w[|coefs| - n]);
    StepFits(coefs[n], sign);
    c := coefs[n] - sign;
    StepMoves(w[|coefs| - n] - w[0], rising);
    assert c - coefs[n] == -sign;
  }

  lemma UpdateEnds(w: seq<int>, coefs: seq<int>, quant: nat, err: int, n: int, rising: bool)
    requires |w| == |coefs| + 1 && n < |coefs| && (n < 0 || if rising then err <= 0 else err >= 0)
    ensures AdaptFrom(w, coefs, quant, err, n, rising) == coefs
  {
  }

  lemma NoGain(w: seq<int>, coefs: seq<int>, rising: bool, k: nat)
    requires |w| == |coefs| + 1 && k < |coefs|
    ensures Gain(w, coefs, coefs, k) == 0 && Ahead(0, rising)
  {
  }

  lemma {:induction false} UpdateMoves(w: seq<int>, coefs: seq<int>, quant: nat, err: int, n: int, rising: bool, k: nat)
    requires |w| == |coefs| + 1 && n < |coefs| && k < |coefs| && Samples(w)
    requires forall i :: 0 <= i <= n ==> Movable(coefs[i])
    ensures Ahead(Gain(w, coefs, AdaptFrom(w, coefs, quant, err, n, rising), k), rising)
    decreases n
  {
    hide AdaptFrom, Ahead, Movable, Samples, Times;
    if n < 0 || (if rising then err <= 0 else err >= 0) {
      UpdateEnds(w, coefs, quant, err, n, rising);
      NoGain(w, coefs, rising, k);
    } else {
      var err', c := UpdateTurn(w, coefs, quant, err, n, rising);
      var next := coefs[n := c];
      assert forall i :: 0 <= i < n ==> next[i] == coefs[i];
      UpdateMoves(w, next, quant, err', n - 1, rising, k);
      var after := AdaptFrom(w, next, quant, err', n - 1, rising);
      if k == n {
        assert after[k] == c;
      } else {
        assert next[k] == coefs[k];
      }
    }
  }

  lemma {:induction false} SumGains(w: seq<int>, before: seq<int>, after: seq<int>, j: nat)
    requires |w| == |before| + 1 && |after| == |before| && 0 < j <= |before|
    ensures ExactSum(w, after, j) - ExactSum(w, before, j)
            == ExactSum(w, after, j - 1) - ExactSum(w, before, j - 1) + Gain(w, before, after, j - 1)
  {
    var d := w[|before| - (j - 1)] - w[0];
    Distributes(d, after[j - 1], before[j - 1]);
  }

  lemma Distributes(d: int, x: int, y: int)
    ensures d * (x - y) == d * x - d * y
  {
  }

  lemma {:induction false} SumMoves(w: seq<int>, before: seq<int>, after: seq<int>, rising: bool, j: nat)
    requires |w| == |before| + 1 && |after| == |before| && j <= |before|
    requires forall k: nat :: k < |before| ==> Ahead(Gain(w, before, after, k), rising)
    ensures Ahead(ExactSum(w, after, j) - ExactSum(w, before, j), rising)
  {
    if j > 0 {
      hide Gain, ExactSum;
      SumMoves(w, before, after, rising, j - 1);
      SumGains(w, before, after, j);
    }
  }

  /** The sum moves by at least what one of its terms does. */
  lemma {:induction false} SumMovesBy(w: seq<int>, before: seq<int>, after: seq<int>, rising: bool, j: nat, k: nat)
    requires |w| == |before| + 1 && |after| == |before| && k < j <= |before|
    requires forall i: nat :: i < |before| ==> Ahead(Gain(w, before, after, i), rising)
    ensures Ahead(ExactSum(w, after, j) - ExactSum(w, before, j) - Gain(w, before, after, k), rising)
  {
    hide Gain, ExactSum;
    SumGains(w, before, after, j);
    if k == j - 1 {
      SumMoves(w, before, after, rising, j - 1);
    } else {
      SumMovesBy(w, before, after, rising, j - 1, k);
    }
  }

  /** The first coefficient an update looks at is the one of the oldest difference, and it moves unless that is zero. */
  lemma FirstStep(w: seq<int>, coefs: seq<int>, quant: nat, err: int)
    requires |w| == |coefs| + 1 && coefs != [] && Samples(w) && err != 0 && Movable(coefs[|coefs| - 1])
    requires w[1] != w[0]
    ensures Gain(w, coefs, Adapt(w, coefs, quant, err), |coefs| - 1) != 0
  {
    hide AdaptFrom, Ahead, Movable, Fits, Times;
    var err', c := UpdateTurn(w, coefs, quant, err, |coefs| - 1, err > 0);
  }

  /** After a sample above the prediction the same window would give a sum that is no lower, after a sample below it one
      that is no higher; and it does change if the two oldest samples of the window differ. */
  lemma TowardsTheSample(w: seq<int>, coefs: seq<int>, quant: nat, err: int)
    requires |w| == |coefs| + 1 && coefs != [] && Samples(w)
    requires forall i :: 0 <= i < |coefs| ==> Movable(coefs[i])
    ensures
      var before := ExactSum(w, coefs, |coefs|);
      var after := ExactSum(w, Adapt(w, coefs, quant, err), |coefs|);
      && (err == 0 ==> after == before)
      && (err > 0 ==> after >= before && (w[1] != w[0] ==> after > before))
      && (err < 0 ==> after <= before && (w[1] != w[0] ==> after < before))
  {
    hide AdaptFrom, Gain, ExactSum, Movable, Fits;
    if err != 0 {
      var n, after := |coefs|, Adapt(w, coefs, quant, err);
      forall k: nat | k < n
        ensures Ahead(Gain(w, coefs, after, k), err > 0)
      {
        UpdateMoves(w, coefs, quant, err, n - 1, err > 0, k);
      }
      if w[1] != w[0] {
        FirstStep(w, coefs, quant, err);
      }
      assert Ahead(Gain(w, coefs, after, n - 1), err > 0);
      SumMovesBy(w, coefs, after, err > 0, n, n - 1);
    }
  }
}
