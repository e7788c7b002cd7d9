/** The widths and multipliers of the Rice code, fixed without the decoder's formulas, and bit strings decoded by
    hand. */
module RiceExact {
  import opened Words
  import opened Wrappers
  import opened Rice

  // ----- widths -----

  lemma LeadingZerosOf(x: int, l: nat)
    requires 1 <= x && l <= 16 && Pow2(l) <= x < Pow2(l + 1)
    ensures CountLeadingZeros(x) == 31 - l
  {
    Log2Between(x, l, l + 1);
  }

  /** The width of a run length for every history that a run can follow. It is not monotone: 3 comes back twice. */
  lemma ZeroRunWidths(history: nat)
    requires 1 <= history < 128
    ensures history == 1 ==> ZeroRunK(history) == 7
    ensures 2 <= history <= 3 ==> ZeroRunK(history) == 6
    ensures 4 <= history <= 7 ==> ZeroRunK(history) == 5
    ensures 8 <= history <= 15 ==> ZeroRunK(history) == 4
    ensures 16 <= history <= 31 ==> ZeroRunK(history) == 3
    ensures 32 <= history <= 47 ==> ZeroRunK(history) == 2
    ensures 48 <= history <= 63 ==> ZeroRunK(history) == 3
    ensures 64 <= history <= 111 ==> ZeroRunK(history) == 2
    ensures 112 <= history <= 127 ==> ZeroRunK(history) == 3
  {
    hide CountLeadingZeros;
    Pow2Values();
    assert Pow2(3) == 8 && Pow2(4) == 16;
    assert Pow2(5) == 2 * Pow2(4) && Pow2(6) == 2 * Pow2(5);
    var l :=
      if history < 2 then 0 else if history < 4 then 1 else if history < 8 then 2 else if history < 16 then 3
      else if history < 32 then 4 else if history < 64 then 5 else 6;
    LeadingZerosOf(history, l);
  }

  /** The width of a residual is the largest one, up to the k-modifier, whose power does not exceed the mean. */
  lemma MainWidth(history: nat, kModifier: nat)
    requires history <= HISTORY_MAX && kModifier >= 1
    ensures
      var k, mean := MainK(history, kModifier), history / 512 + 3;
      1 <= k <= kModifier && Pow2(k) <= mean && (k < kModifier ==> mean < Pow2(k + 1))
  {
    var mean := history / 512 + 3;
    Log2Ranges(mean);
    if kModifier <= Log2(mean) {
      Pow2Monotone(kModifier, Log2(mean));
    }
  }

  // ----- the masked multiplier -----

  /** The bitwise and of two words of equal length. */
  function And(a: Bits, b: Bits): (r: Bits)
    requires |a| == |b|
    ensures |r| == |a|
  {
    if a == [] then [] else And(a[..|a| - 1], b[..|b| - 1]) + [a[|a| - 1] && b[|b| - 1]]
  }

  lemma LastBits(a: Bits, b: Bits, x: bool, y: bool)
    requires |a| == |b|
    ensures Num(And(a + [x], b + [y])) == 2 * Num(And(a, b)) + (if x && y then 1 else 0)
  {
    assert (a + [x])[..|a|] == a && (b + [y])[..|b|] == b;
    var r := And(a, b);
    assert (r + [x && y])[..|r|] == r;
  }

  /** The multiplier is 2^k - 1 with the modifier's mask laid over it, as n-bit words. */
  lemma {:induction false} MultiplierIsMasked(k: nat, maskWidth: nat, n: nat)
    requires k <= n && maskWidth <= n
    ensures Num(And(BitsOf(n, Pow2(k) - 1), BitsOf(n, Pow2(maskWidth) - 1))) == Multiplier(k, maskWidth)
    decreases n
  {
    hide And, Num, BitsOf;
    if n == 0 {
      NoBits();
    } else {
      var k', m' := if k == 0 then 0 else k - 1, if maskWidth == 0 then 0 else maskWidth - 1;
      MultiplierIsMasked(k', m', n - 1);
      LowBit(n, k);
      LowBit(n, maskWidth);
      LastBits(BitsOf(n - 1, Pow2(k') - 1), BitsOf(n - 1, Pow2(m') - 1), k > 0, maskWidth > 0);
    }
  }

  lemma NoBits()
    ensures Num(And(BitsOf(0, 0), BitsOf(0, 0))) == 0
  {
  }

  lemma LowBit(n: nat, k: nat)
    requires k <= n && n > 0
    ensures BitsOf(n, Pow2(k) - 1) == BitsOf(n - 1, Pow2(if k == 0 then 0 else k - 1) - 1) + [k > 0]
  {
    if k > 0 {
      DivModUnique(Pow2(k) - 1, 2, Pow2(k - 1) - 1, 1);
    }
  }

  // ----- signs -----

  /** An even number stands for its half, an odd one for the negative of its half, rounded up. */
  lemma SignInLowBit(d: int)
    requires d >= 0
    ensures d % 2 == 0 ==> 2 * Unzigzag(d) == d
    ensures d % 2 == 1 ==> 2 * Unzigzag(d) == -d - 1
  {
    DivModIdentity(d, 2);
    DivModIdentity(d + 1, 2);
  }

  // ----- blocks decoded by hand -----

  lemma CountOnesStep(s: Bits, pos: nat, x: nat)
    requires x <= RICE_THRESHOLD && pos < |s|
    ensures CountOnes(s, pos, x) == if s[pos] then CountOnes(s, pos + 1, x + 1) else Some((x, pos + 1))
  {
  }

  /** The codes of width 1 are unary: 0 and 10. */
  lemma UnaryCodes(s: Bits, pos: nat, size: nat)
    requires pos < |s| && (s[pos] ==> pos + 1 < |s| && !s[pos + 1])
    ensures DecodeValue(s, pos, size, 1, 32) == if s[pos] then Some((1, pos + 2)) else Some((0, pos + 1))
  {
    hide CountOnes;
    CountOnesStep(s, pos, 0);
    if s[pos] {
      CountOnesStep(s, pos + 1, 1);
    }
  }

  lemma TwoBits(s: Bits, pos: nat)
    requires pos + 2 <= |s|
    ensures ReadNum(s, pos, 2) == Some(((if s[pos] then 2 else 0) + (if s[pos + 1] then 1 else 0), pos + 2))
  {
    assert Num(s[pos..pos + 1]) == if s[pos] then 1 else 0;
    assert s[pos..pos + 2][..1] == s[pos..pos + 1];
  }

  lemma ThreeBits(s: Bits, pos: nat)
    requires pos + 3 <= |s|
    ensures ReadNum(s, pos, 3)
            == Some(((if s[pos] then 4 else 0) + (if s[pos + 1] then 2 else 0) + (if s[pos + 2] then 1 else 0),
                     pos + 3))
  {
    TwoBits(s, pos);
    assert s[pos..pos + 3][..2] == s[pos..pos + 2];
  }

  lemma WidthOne(history: nat)
    requires history < 512
    ensures MainK(history, 14) == 1
  {
    MainWidth(history, 14);
    assert Pow2(2) == 4;
    Pow2Reflects(MainK(history, 14), 2);
  }

  lemma WidthTwo(history: nat)
    requires 512 <= history < 2560
    ensures MainK(history, 14) == 2
  {
    MainWidth(history, 14);
    assert Pow2(2) == 4 && Pow2(3) == 8;
    Pow2Reflects(MainK(history, 14), 3);
    Pow2Reflects(2, MainK(history, 14) + 1);
  }

  /** Seven bits, six residuals: -1; then, with the history at 50, a run of four zeros whose length is read with width
      3; then -1, one less than its code says because it follows a run. */
  lemma RunByHand(s: Bits, pos: nat)
    requires pos + 7 <= |s|
    requires s[pos] && !s[pos + 1] && !s[pos + 2] && s[pos + 3] && !s[pos + 4] && s[pos + 5] && !s[pos + 6]
    ensures DecodeBlock(s, pos, 6, 10, 0, Params(16, 10, 14, 40)) == Some(([-1, 0, 0, 0, 0, -1], pos + 7))
  {
    hide DecodeBlock, MainK, ZeroRunK, CountOnes, ReadNum, DecodeValue;
    var p := Params(16, 10, 14, 40);
    WidthOne(10);
    UnaryCodes(s, pos, 16);
    RunLengthByHand(s, pos + 2);
    ZeroRunWidths(50);
    WidthOne(0);
    UnaryCodes(s, pos + 6, 16);
    DecodeNothing(s, pos + 7, 40, 0, p);
    PlainStep(s, pos + 6, 0, pos + 7, 1, 0, 1, p, [], pos + 7);
    assert [Unzigzag(1)] + [] == [-1];
    RunStep(s, pos, 1, pos + 2, 4, pos + 6, 6, 10, 0, p, [-1], pos + 7);
    assert [Unzigzag(1)] + Zeros(4) + [-1] == [-1, 0, 0, 0, 0, -1];
  }

  lemma RunLengthByHand(s: Bits, pos: nat)
    requires pos + 4 <= |s| && !s[pos] && s[pos + 1] && !s[pos + 2] && s[pos + 3]
    ensures DecodeValue(s, pos, 16, 3, 14) == Some((4, pos + 4))
  {
    hide CountOnes, ReadNum;
    CountOnesStep(s, pos, 0);
    ThreeBits(s, pos + 1);
    ShortForm(s, pos, 0, pos + 1, 4, 16, 3, 14);
  }

  /** An escape of 16 bits lifts the history to 985, so that the codes behind it have width 2: a long one with remainder
      1, and a short one that leaves the bit behind it unread. */
  lemma EscapeByHand(s: Bits, pos: nat)
    requires At(s, pos, Ones(9) + BitsOf(16, 20)) && pos + 33 < |s|
    requires s[pos + 25] && !s[pos + 26] && s[pos + 27] && !s[pos + 28]
    requires s[pos + 29] && s[pos + 30] && !s[pos + 31] && !s[pos + 32]
    ensures DecodeBlock(s, pos, 3, 200, 0, Params(16, 200, 14, 40)) == Some(([10, 2, 3], pos + 33))
  {
    hide DecodeBlock, MainK, ZeroRunK, CountOnes, ReadNum, At, Ones, BitsOf, DecodeValue;
    var p := Params(16, 200, 14, 40);
    Pow2Values();
    WidthOne(200);
    EscapeRoundTrip(s, pos, 20, 16, 1, 32);
    WidthTwo(985);
    LongByHand(s, pos + 25);
    WidthTwo(1069);
    ShortByHand(s, pos + 29);
    DecodeNothing(s, pos + 33, NextHistory(1069, 6, 40), 0, p);
    PlainStep(s, pos + 29, 6, pos + 33, 1, 1069, 0, p, [], pos + 33);
    assert [Unzigzag(6)] + [] == [3] && [Unzigzag(4)] + [3] == [2, 3] && [Unzigzag(20)] + [2, 3] == [10, 2, 3];
    PlainStep(s, pos + 25, 4, pos + 29, 2, 985, 0, p, [3], pos + 33);
    PlainStep(s, pos, 20, pos + 25, 3, 200, 0, p, [2, 3], pos + 33);
  }

  lemma LongByHand(s: Bits, pos: nat)
    requires pos + 4 <= |s| && s[pos] && !s[pos + 1] && s[pos + 2] && !s[pos + 3]
    ensures DecodeValue(s, pos, 16, 2, 32) == Some((4, pos + 4))
  {
    hide CountOnes, ReadNum;
    CountOnesStep(s, pos, 0);
    CountOnesStep(s, pos + 1, 1);
    TwoBits(s, pos + 2);
    ShortForm(s, pos, 1, pos + 2, 1, 16, 2, 32);
  }

  lemma ShortByHand(s: Bits, pos: nat)
    requires pos + 5 <= |s| && s[pos] && s[pos + 1] && !s[pos + 2] && !s[pos + 3]
    ensures DecodeValue(s, pos, 16, 2, 32) == Some((6, pos + 4))
  {
    hide CountOnes, ReadNum;
    CountOnesStep(s, pos, 0);
    CountOnesStep(s, pos + 1, 1);
    CountOnesStep(s, pos + 2, 2);
    TwoBits(s, pos + 3);
    ShortForm(s, pos, 2, pos + 3, 0, 16, 2, 32);
  }

  lemma FourBitsOfOne(s: Bits, pos: nat)
    requires pos + 4 <= |s| && !s[pos] && !s[pos + 1] && !s[pos + 2] && s[pos + 3]
    ensures ReadNum(s, pos, 4) == Some((1, pos + 4))
  {
    ThreeBits(s, pos);
    assert s[pos..pos + 4][..3] == s[pos..pos + 3];
  }

  /** No zeros: the short form of a run length of width 4. */
  lemma EmptyRunByHand(s: Bits, pos: nat)
    requires pos + 5 <= |s| && !s[pos] && !s[pos + 1] && !s[pos + 2] && !s[pos + 3] && s[pos + 4]
    ensures DecodeValue(s, pos, 16, 4, 14) == Some((0, pos + 4))
  {
    hide CountOnes, ReadNum;
    CountOnesStep(s, pos, 0);
    FourBitsOfOne(s, pos + 1);
    ShortForm(s, pos, 0, pos + 1, 0, 16, 4, 14);
  }

  lemma OneZeroByHand(s: Bits, pos: nat)
    requires pos + 3 <= |s| && !s[pos] && s[pos + 1] && !s[pos + 2]
    ensures DecodeValue(s, pos, 16, 2, 14) == Some((1, pos + 3))
  {
    hide CountOnes, ReadNum;
    CountOnesStep(s, pos, 0);
    TwoBits(s, pos + 1);
    ShortForm(s, pos, 0, pos + 1, 1, 16, 2, 14);
  }

  /** Ten bits, three residuals: 0, with an empty run of width 4 behind it; 1; and a run of one, of width 2. */
  lemma ShortRunsByHand(s: Bits, pos: nat)
    requires pos + 10 <= |s|
    requires !s[pos] && !s[pos + 1] && !s[pos + 2] && !s[pos + 3] && !s[pos + 4]
    requires s[pos + 5] && !s[pos + 6] && !s[pos + 7] && s[pos + 8] && !s[pos + 9]
    ensures DecodeBlock(s, pos, 3, 10, 0, Params(16, 10, 14, 40)) == Some(([0, 1, 0], pos + 10))
  {
    hide DecodeBlock, MainK, ZeroRunK, CountOnes, ReadNum, DecodeValue;
    var p := Params(16, 10, 14, 40);
    WidthOne(10);
    UnaryCodes(s, pos, 16);
    ZeroRunWidths(10);
    EmptyRunByHand(s, pos + 1);
    WidthOne(0);
    UnaryCodes(s, pos + 5, 16);
    ZeroRunWidths(80);
    OneZeroByHand(s, pos + 7);
    DecodeNothing(s, pos + 10, 0, 1, p);
    RunStep(s, pos + 5, 1, pos + 7, 1, pos + 10, 2, 0, 1, p, [], pos + 10);
    assert [Unzigzag(2)] + Zeros(1) + [] == [1, 0];
    RunStep(s, pos, 0, pos + 1, 0, pos + 5, 3, 10, 0, p, [1, 0], pos + 10);
    assert [Unzigzag(0)] + Zeros(0) + [1, 0] == [0, 1, 0];
  }

  lemma Unary(s: Bits, pos: nat, q: nat)
    requires q <= RICE_THRESHOLD && At(s, pos, Ones(q) + [false])
    ensures DecodeValue(s, pos, 17, 1, 32) == Some((q, pos + q + 1))
  {
    hide At, CountOnes, Ones, DecodeValue;
    AtConcat(s, pos, Ones(q), [false]);
    CountOnesOf(s, pos, 0, q);
    UnaryForm(s, pos, q, pos + q + 1, 17, 32);
  }

  /** A block of a single residual, of either sign. */
  lemma OneResidualByHand(s: Bits, pos: nat, q: nat, e: int)
    requires q <= RICE_THRESHOLD && At(s, pos, Ones(q) + [false])
    requires q == 2 * e || q == -2 * e - 1
    ensures DecodeBlock(s, pos, 1, 10, 0, Params(17, 10, 14, 40)) == Some(([e], pos + q + 1))
  {
    hide DecodeBlock, MainK, DecodeValue, At, Unzigzag;
    var p := Params(17, 10, 14, 40);
    WidthOne(10);
    Unary(s, pos, q);
    NextHistoryRange(10, 0, q, 40);
    DecodeNothing(s, pos + q + 1, NextHistory(10, q, 40), 0, p);
    PlainStep(s, pos, q, pos + q + 1, 1, 10, 0, p, [], pos + q + 1);
    SignInLowBit(q);
    assert [Unzigzag(q)] + [] == [e];
  }
}
