/** The largest multiplier for which history * rice_historymult fits an int32_t on every stream, for every read size and
    k-modifier, and a short block that overflows beyond it. */
module RiceLimit {
  import opened Words
  import opened Wrappers
  import opened Rice

  /** Everything a header can ask for; the multiplier is at most 7 * 255 / 4. */
  predicate Wide(p: Params) {
    1 <= p.size <= 31 && 1 <= p.initialHistory <= 255 && 1 <= p.kModifier <= 30 && 1 <= p.historyMult <= 511
  }

  // ----- the loop's variables on a stream -----

  /** The decoder at the head of its loop: where it reads, how many residuals are due, and its adaptive state. */
  datatype Head = Head(pos: nat, left: nat, history: nat, signModifier: nat)

  predicate HeadOk(h: Head) {
    StateOk(h.history, h.signModifier) && (h.signModifier == 1 ==> h.history == 0)
  }

  /** One iteration; None if no residual is due, the bits run out or a zero run overruns the block. */
  function NextHead(s: Bits, p: Params, h: Head): (r: Option<Head>)
    requires Wide(p) && HeadOk(h)
    ensures r.Some? ==> HeadOk(r.value)
  {
    if h.left == 0 then None
    else
      var (code, pos1) :- DecodeValue(s, h.pos, p.size, MainK(h.history, p.kModifier), 32);
      NextHistoryRange(h.history, h.signModifier, code, p.historyMult);
      var next := NextHistory(h.history, code + h.signModifier, p.historyMult);
      if next < 128 && h.left > 1 then
        var (run, pos2) :- DecodeValue(s, pos1, 16, ZeroRunK(next), p.kModifier);
        if run > h.left - 1 then None else Some(Head(pos2, h.left - 1 - run, 0, 1))
      else
        Some(Head(pos1, h.left - 1, next, 0))
  }

  /** After n iterations. */
  function HeadAfter(s: Bits, p: Params, h: Head, n: nat): (r: Option<Head>)
    requires Wide(p) && HeadOk(h)
    ensures r.Some? ==> HeadOk(r.value)
    decreases n
  {
    if n == 0 then Some(h)
    else
      var next :- NextHead(s, p, h);
      HeadAfter(s, p, next, n - 1)
  }

  function Start(p: Params, count: nat): Head {
    Head(0, count, p.initialHistory, 0)
  }

  /** The n-th iteration for a block of count residuals reads its residual and then multiplies a history too large. */
  predicate Overflows(s: Bits, p: Params, count: nat, n: nat)
    requires Wide(p)
  {
    var h := HeadAfter(s, p, Start(p, count), n);
    && h.Some? && h.value.left > 0
    && DecodeValue(s, h.value.pos, p.size, MainK(h.value.history, p.kModifier), 32).Some?
    && h.value.history * p.historyMult >= 0x8000_0000
  }

  ghost predicate NeverOverflows(p: Params)
    requires Wide(p)
  {
    forall s, count, n :: !Overflows(s, p, count, n)
  }

  /** The iteration is the one the decoder's meaning is made of. */
  lemma IterationIsTurn(s: Bits, p: Params, h: Head)
    requires p.Legal() && Wide(p) && HeadOk(h) && h.left >= 1
    requires DecodeBlock(s, h.pos, h.left, h.history, h.signModifier, p).Some?
    ensures
      var next := NextHead(s, p, h);
      && next.Some?
      && DecodeBlock(s, next.value.pos, next.value.left, next.value.history, next.value.signModifier, p).Some?
      && DecodeBlock(s, next.value.pos, next.value.left, next.value.history, next.value.signModifier, p).value.1
         == DecodeBlock(s, h.pos, h.left, h.history, h.signModifier, p).value.1
  {
    hide NextHistory, MainK, ZeroRunK, DecodeValue, Unzigzag, Zeros;
  }

  // ----- the largest codes -----

  function Capped(c: int): int {
    if c > 0xFFFF then 0xFFFF else c
  }

  /** The largest code below the cap that can be read in a read size and a remainder width: all ones in an escape, or
      eight multipliers and the largest remainder. */
  function LargestAt(size: nat, k: nat): (c: int)
    requires k >= 1
  {
    Capped(if Pow2(size) - 1 >= 9 * Pow2(k) - 10 then Pow2(size) - 1 else 9 * Pow2(k) - 10)
  }

  lemma LargestRange(size: nat, k: nat)
    requires k >= 1
    ensures 8 <= LargestAt(size, k) <= 0xFFFF
  {
    Pow2Monotone(1, k);
    assert Pow2(1) == 2;
  }

  /** The largest code that ever enters the history. */
  function LargestCode(p: Params): (c: nat)
    requires Wide(p)
    ensures 8 <= c <= 0xFFFF
  {
    LargestRange(p.size, p.kModifier);
    LargestAt(p.size, p.kModifier)
  }

  lemma LargestMonotone(size: nat, j: nat, k: nat)
    requires 1 <= j <= k
    ensures LargestAt(size, j) <= LargestAt(size, k)
  {
    Pow2Monotone(j, k);
  }

  lemma MainKIs(history: nat, kModifier: nat)
    requires history <= HISTORY_MAX && kModifier >= 1
    ensures
      var log := Log2(history / 512 + 3);
      MainK(history, kModifier) == if log < kModifier then log else kModifier
  {
  }

  lemma LargestAtHead(p: Params, history: nat)
    requires Wide(p) && history <= HISTORY_MAX
    ensures LargestAt(p.size, MainK(history, p.kModifier)) <= LargestCode(p)
  {
    MainKIs(history, p.kModifier);
    LargestMonotone(p.size, MainK(history, p.kModifier), p.kModifier);
  }

  /** No code read is larger, unless it is beyond the cap. */
  lemma CodeAtMost(s: Bits, pos: nat, size: nat, k: nat)
    requires 1 <= k <= 32 && DecodeValue(s, pos, size, k, 32).Some?
    ensures Capped(DecodeValue(s, pos, size, k, 32).value.0) <= LargestAt(size, k)
  {
    hide ReadNum, CountOnes;
    var (x, p) := CountOnes(s, pos, 0).value;
    if x > RICE_THRESHOLD {
      ReadNumBound(s, p, size);
    } else if k > 1 {
      ReadNumBound(s, p, k);
      MulMonotone(x, 8, Multiplier(k, 32));
    } else {
      assert Pow2(1) == 2;
    }
  }

  // ----- never beyond the largest code -----

  lemma DecayBelow(history: nat, c: nat, mult: nat)
    requires history <= 512 * c && 1 <= mult <= 512
    ensures history - history * mult / 512 <= 512 * c - c * mult
  {
    var gap := 512 * c - history;
    assert history * mult == 512 * (c * mult) - gap * mult;
    MulMonotone(mult, 512, gap);
    assert history * mult / 512 >= c * mult - gap;
  }

  /** A ceiling for the history: 512 times the largest code, or times 511 if that is more. */
  function Ceiling(p: Params): (c: nat)
    requires Wide(p)
  {
    LargestRange(p.size, p.kModifier);
    if LargestCode(p) < 511 then 511 else LargestCode(p)
  }

  lemma PlainBelow(history: nat, d: nat, c: nat, mult: nat)
    requires history <= 512 * c && d <= c && 1 <= mult <= 511
    ensures history + d * mult - history * mult / 512 <= 512 * c
  {
    DecayBelow(history, c, mult);
    MulMonotone(d, c, mult);
  }

  lemma RestartBelow(d: nat, c: nat, mult: nat)
    requires 511 <= c && d <= c + 1 && 1 <= mult <= 511
    ensures d * mult <= 512 * c
  {
    MulMonotone(d, c + 1, mult);
    MulMonotone(mult, 511, c + 1);
  }

  lemma NextBelow(p: Params, history: nat, signModifier: nat, code: nat)
    requires Wide(p) && StateOk(history, signModifier) && (signModifier == 1 ==> history == 0)
    requires history <= 512 * Ceiling(p) && Capped(code) <= LargestCode(p)
    ensures NextHistory(history, code + signModifier, p.historyMult) <= 512 * Ceiling(p)
  {
    LargestRange(p.size, p.kModifier);
    var c, d := Ceiling(p), code + signModifier;
    assert c >= 511 && (d <= 0xFFFF ==> d <= c + signModifier);
    hide LargestAt, LargestCode, Ceiling;
    if signModifier == 0 && d <= 0xFFFF {
      PlainBelow(history, d, c, p.historyMult);
    } else if d <= 0xFFFF {
      RestartBelow(d, c, p.historyMult);
      assert history * p.historyMult == 0;
    }
  }

  lemma {:induction false} StaysBelow(s: Bits, p: Params, h: Head, n: nat)
    requires Wide(p) && HeadOk(h) && h.history <= 512 * Ceiling(p) && HeadAfter(s, p, h, n).Some?
    ensures HeadAfter(s, p, h, n).value.history <= 512 * Ceiling(p)
    decreases n
  {
    hide Ceiling, NextHistory, LargestCode, LargestAt, MainK, ZeroRunK, DecodeValue;
    if n > 0 {
      var k := MainK(h.history, p.kModifier);
      var (code, _) := DecodeValue(s, h.pos, p.size, k, 32).value;
      CodeAtMost(s, h.pos, p.size, k);
      LargestAtHead(p, h.history);
      NextBelow(p, h.history, h.signModifier, code);
      StaysBelow(s, p, NextHead(s, p, h).value, n - 1);
    }
  }

  lemma ProductBy(history: nat, c: nat, mult: nat)
    requires history <= 512 * c && c * mult < 0x40_0000
    ensures history * mult < 0x8000_0000
  {
    MulMonotone(history, 512 * c, mult);
    Reassociate(512, c, mult);
  }

  lemma Reassociate(a: int, b: int, c: int)
    ensures a * b * c == a * (b * c)
  {
  }

  lemma ProductBelow(p: Params, history: nat)
    requires Wide(p) && history <= 512 * Ceiling(p) && LargestCode(p) * p.historyMult < 0x40_0000
    ensures history * p.historyMult < 0x8000_0000
  {
    if LargestCode(p) < 511 {
      MulMonotone(p.historyMult, 511, 511);
    }
    var c, m := Ceiling(p), p.historyMult;
    assert c * m < 0x40_0000;
    hide *;
    ProductBy(history, c, m);
  }

  // ----- all the way up -----

  /** A history on the way up, under a multiplier that is large enough for it to matter. */
  predicate Rising(p: Params, history: nat) {
    Wide(p) && p.historyMult >= 65 && 1 <= history <= 512 * LargestCode(p)
  }

  /** How far the history is from the top. */
  function Gap(p: Params, history: nat): (g: nat)
    requires Rising(p, history)
    ensures g < 0x200_0000
  {
    512 * LargestCode(p) - history
  }

  /** The largest code that can be read now. */
  function CodeNow(p: Params, history: nat): (c: nat)
    requires Rising(p, history)
    ensures history <= HISTORY_MAX && c <= LargestCode(p)
  {
    LargestRange(p.size, MainK(history, p.kModifier));
    LargestAtHead(p, history);
    LargestAt(p.size, MainK(history, p.kModifier))
  }

  /** Once the largest code can be read, it takes an eighth off the gap, and more than nothing. */
  lemma GapShrinks(history: nat, c: nat, mult: nat)
    requires history <= 512 * c && 65 <= mult <= 511
    ensures
      var next := history + c * mult - history * mult / 512;
      && history <= next <= 512 * c
      && 8 * (512 * c - next) <= 7 * (512 * c - history)
  {
    var gap := 512 * c - history;
    DecayBelow(history, c, mult);
    assert history * mult == 512 * (c * mult) - gap * mult;
    MulMonotone(65, mult, gap);
    FloorBelow(history * mult, c * mult, 65 * gap);
  }

  lemma FloorBelow(x: int, a: int, b: int)
    requires x <= 512 * a - b
    ensures 512 * (x / 512) <= 512 * a - b
  {
  }

  /** Before that, the codes in reach are so much larger than the history that it nearly grows by half. */
  lemma GrowsFast(p: Params, history: nat)
    requires Rising(p, history) && CodeNow(p, history) < LargestCode(p)
    ensures
      var next := NextHistory(history, CodeNow(p, history), p.historyMult);
      256 * next >= 256 * history + 113 * history + 256 * 200 && next <= 512 * LargestCode(p)
  {
    var c, d, m := CodeNow(p, history), history / 512, p.historyMult;
    LargestRange(p.size, MainK(history, p.kModifier));
    var log := Log2(d + 3);
    MainKIs(history, p.kModifier);
    assert MainK(history, p.kModifier) == log;
    SmallLog(d);
    assert 2 * c >= 9 * (d + 4) - 20;
    PlainBelow(history, c, LargestCode(p), m);
    hide Pow2, LargestAt, LargestCode, MainK, Log2, CodeNow;
    Push(history, c, m);
  }

  /** The remainder width follows the history, and the code is more than four times it. */
  lemma SmallLog(d: nat)
    ensures Log2(d + 3) >= 1 && 2 * Pow2(Log2(d + 3)) >= d + 4
  {
    assert Pow2(Log2(d + 3) + 1) == 2 * Pow2(Log2(d + 3));
    Pow2Reflects(1, Log2(d + 3) + 1);
    assert Pow2(1) == 2;
  }

  lemma Push(history: nat, c: nat, mult: nat)
    requires c >= 8 && 2 * c >= 9 * (history / 512 + 4) - 20 && 65 <= mult <= 511
    ensures 256 * (history + c * mult - history * mult / 512) >= 256 * history + 113 * history + 256 * 200
  {
    var d1 := history / 512 + 1;
    assert history <= 512 * d1;
    MulMonotone(history, 512 * d1, mult);
    Reassociate(512, d1, mult);
    FloorBelow(history * mult, d1 * mult, 0);
    MulMonotone(65, mult, c - d1);
    Distribute(c, d1, mult);
  }

  lemma Distribute(c: int, d: int, mult: int)
    ensures c * mult == d * mult + mult * (c - d)
  {
  }

  lemma NextRises(p: Params, history: nat)
    requires Rising(p, history)
    ensures
      var next := NextHistory(history, CodeNow(p, history), p.historyMult);
      && 128 <= next && history <= next && Rising(p, next)
      && (CodeNow(p, history) == LargestCode(p) ==> 8 * Gap(p, next) <= 7 * Gap(p, history))
      && (CodeNow(p, history) < LargestCode(p) ==> 256 * next >= 369 * history)
  {
    hide CodeNow, LargestCode;
    if CodeNow(p, history) < LargestCode(p) {
      GrowsFast(p, history);
    } else {
      GapShrinks(history, LargestCode(p), p.historyMult);
    }
  }

  /** The history after the largest code. */
  function Pushed(p: Params, history: nat): (h: nat)
    requires Rising(p, history)
    ensures Rising(p, h) && history <= h && 128 <= h
  {
    NextRises(p, history);
    NextHistory(history, CodeNow(p, history), p.historyMult)
  }

  /** The history after n of them. */
  function PushedBy(p: Params, history: nat, n: nat): (h: nat)
    requires Rising(p, history)
    ensures Rising(p, h) && history <= h
    decreases n
  {
    if n == 0 then history else PushedBy(p, Pushed(p, history), n - 1)
  }

  lemma {:induction false} PushedBySum(p: Params, history: nat, a: nat, b: nat)
    requires Rising(p, history)
    ensures PushedBy(p, history, a + b) == PushedBy(p, PushedBy(p, history, a), b)
    decreases a
  {
    hide Rising, Pushed;
    if a > 0 {
      PushedBySum(p, Pushed(p, history), a - 1, b);
    }
  }

  lemma PushedByOne(p: Params, history: nat)
    requires Rising(p, history)
    ensures PushedBy(p, history, 1) == Pushed(p, history)
  {
    hide Rising, Pushed;
    assert PushedBy(p, Pushed(p, history), 0) == Pushed(p, history);
  }

  // ----- how soon -----

  lemma Log2Monotone(x: int, y: int)
    requires 1 <= x <= y
    ensures Log2(x) <= Log2(y)
  {
    Pow2Reflects(Log2(x), Log2(y) + 1);
  }

  lemma CodeNowGrows(p: Params, low: nat, high: nat)
    requires Rising(p, low) && Rising(p, high) && low <= high
    ensures CodeNow(p, low) <= CodeNow(p, high)
  {
    hide LargestCode, LargestAt;
    MainKIs(low, p.kModifier);
    MainKIs(high, p.kModifier);
    Log2Monotone(low / 512 + 3, high / 512 + 3);
    LargestMonotone(p.size, MainK(low, p.kModifier), MainK(high, p.kModifier));
  }

  /** The largest code can be read, and from now on always. */
  predicate Reached(p: Params, history: nat) {
    Rising(p, history) && CodeNow(p, history) == LargestCode(p)
  }

  lemma ReachedStays(p: Params, history: nat)
    requires Reached(p, history)
    ensures Reached(p, Pushed(p, history)) && 8 * Gap(p, Pushed(p, history)) <= 7 * Gap(p, history)
  {
    hide Rising, CodeNow, LargestCode, Gap;
    NextRises(p, history);
    CodeNowGrows(p, history, Pushed(p, history));
  }

  /** Six codes more than halve the gap. */
  lemma SixCodes(p: Params, history: nat)
    requires Rising(p, history) && Reached(p, history)
    ensures Reached(p, PushedBy(p, history, 6)) && 2 * Gap(p, PushedBy(p, history, 6)) <= Gap(p, history)
  {
    hide Reached, Rising, Gap, Pushed, PushedBy;
    var h := history;
    PushedByNone(p, h);
    for i := 0 to 6
      invariant Rising(p, h) && Reached(p, h) && h == PushedBy(p, history, i)
      invariant i == 0 ==> h == history
      invariant i == 1 ==> 8 * Gap(p, h) <= 7 * Gap(p, history)
      invariant i == 2 ==> 64 * Gap(p, h) <= 49 * Gap(p, history)
      invariant i == 3 ==> 512 * Gap(p, h) <= 343 * Gap(p, history)
      invariant i == 4 ==> 4096 * Gap(p, h) <= 2401 * Gap(p, history)
      invariant i == 5 ==> 32768 * Gap(p, h) <= 16807 * Gap(p, history)
      invariant i == 6 ==> 262144 * Gap(p, h) <= 117649 * Gap(p, history)
    {
      ReachedStays(p, h);
      PushedBySum(p, history, i, 1);
      PushedByOne(p, h);
      h := Pushed(p, h);
    }
  }

  lemma PushedByNone(p: Params, history: nat)
    requires Rising(p, history)
    ensures PushedBy(p, history, 0) == history
  {
  }

  lemma {:induction false} GapCloses(p: Params, history: nat, j: nat) returns (n: nat)
    requires Rising(p, history) && Reached(p, history) && Gap(p, history) < Pow2(j)
    ensures n <= 6 * j && Gap(p, PushedBy(p, history, n)) == 0
    decreases j
  {
    hide Reached, Rising, Gap, PushedBy;
    if j == 0 {
      n := 0;
      PushedByNone(p, history);
    } else {
      SixCodes(p, history);
      var rest := GapCloses(p, PushedBy(p, history, 6), j - 1);
      PushedBySum(p, history, 6, rest);
      n := 6 + rest;
    }
  }

  lemma Doubles(p: Params, history: nat, j: nat)
    requires Rising(p, history) && !Reached(p, history) && !Reached(p, Pushed(p, history))
    requires history * Pow2(j) >= 0x200_0000
    ensures j >= 1 && Pushed(p, Pushed(p, history)) * Pow2(j - 1) >= 0x200_0000
  {
    var h1 := Pushed(p, history);
    assert history <= HISTORY_MAX;
    NextRises(p, history);
    NextRises(p, h1);
    hide Pow2, CodeNow, LargestCode, NextHistory;
    Doubled(history, Pushed(p, h1), j);
  }

  lemma {:induction false} TopReached(p: Params, history: nat, j: nat) returns (n: nat)
    requires Rising(p, history) && history * Pow2(j) >= 0x200_0000
    ensures n <= 2 * j + 150 && Gap(p, PushedBy(p, history, n)) == 0
    decreases j
  {
    PowerOf25();
    hide Pow2, Reached, Rising, Gap, PushedBy, Pushed;
    var h1 := Pushed(p, history);
    PushedByOne(p, history);
    if Reached(p, history) {
      n := GapCloses(p, history, 25);
    } else if Reached(p, h1) {
      var rest := GapCloses(p, h1, 25);
      PushedBySum(p, history, 1, rest);
      n := 1 + rest;
      Doubles1(p, history, j);
    } else {
      Doubles(p, history, j);
      PushedByOne(p, h1);
      var rest := TopReached(p, Pushed(p, h1), j - 1);
      PushedBySum(p, h1, 1, rest);
      PushedBySum(p, history, 1, 1 + rest);
      n := 2 + rest;
    }
  }

  /** Something is left to double as long as the largest code is out of reach. */
  lemma Doubles1(p: Params, history: nat, j: nat)
    requires Rising(p, history) && history * Pow2(j) >= 0x200_0000
    ensures j >= 1
  {
    assert history <= 512 * 0xFFFF;
    assert Pow2(0) == 1;
  }

  lemma PowerOf25()
    ensures Pow2(25) == 0x200_0000
  {
    Pow2Values();
    Pow2Add(24, 1);
    assert Pow2(1) == 2;
  }

  lemma Doubled(low: nat, high: nat, j: nat)
    requires 2 * low <= high && low <= HISTORY_MAX && low * Pow2(j) >= 0x200_0000
    ensures j >= 1 && high * Pow2(j - 1) >= 0x200_0000
  {
    if j > 0 {
      assert low * Pow2(j) == 2 * low * Pow2(j - 1);
      MulMonotone(2 * low, high, Pow2(j - 1));
    }
  }

  // ----- the block that overflows -----

  function CodeBits(p: Params, history: nat, code: nat): (b: Bits)
    requires Wide(p) && history <= HISTORY_MAX
  {
    EncodeValue(code, p.size, MainK(history, p.kModifier), 32)
  }

  /** n largest codes, a zero and one bit more. */
  function PushBits(p: Params, history: nat, n: nat): (b: Bits)
    requires Rising(p, history)
    ensures b != []
    decreases n
  {
    assert history <= 512 * 0xFFFF;
    if n == 0 then CodeBits(p, history, 0) + [false]
    else CodeBits(p, history, CodeNow(p, history)) + PushBits(p, Pushed(p, history), n - 1)
  }

  /** The largest code fits its form: eight multipliers at most, or the read size. */
  lemma LargestFits(size: nat, k: nat)
    requires 1 <= k <= 32
    ensures
      var c := LargestAt(size, k);
      c >= 0 && (c / Multiplier(k, 32) > RICE_THRESHOLD ==> c < Pow2(size))
  {
    LargestRange(size, k);
    Pow2Monotone(1, k);
    assert Pow2(1) == 2;
    var c, m := LargestAt(size, k), Multiplier(k, 32);
    DivModIdentity(c, m);
    hide Pow2;
    if c / m > RICE_THRESHOLD {
      MulMonotone(9, c / m, m);
    }
  }

  lemma CodeRead(s: Bits, pos: nat, p: Params, history: nat, code: nat, rest: Bits)
    requires Rising(p, history) && (code == 0 || code == CodeNow(p, history)) && rest != []
    requires history <= HISTORY_MAX && At(s, pos, CodeBits(p, history, code) + rest)
    ensures DecodeValue(s, pos, p.size, MainK(history, p.kModifier), 32)
         == Some((code, pos + |CodeBits(p, history, code)|))
    ensures At(s, pos + |CodeBits(p, history, code)|, rest)
  {
    hide DecodeValue, EncodeValue, LargestAt, At;
    var k := MainK(history, p.kModifier);
    AtConcat(s, pos, CodeBits(p, history, code), rest);
    AtRoom(s, pos + |CodeBits(p, history, code)|, rest);
    LargestFits(p.size, k);
    ZeroIsShort(k);
    ValueRoundTrip(s, pos, code, p.size, k, 32);
  }

  lemma ZeroIsShort(k: nat)
    requires 1 <= k <= 32
    ensures 0 / Multiplier(k, 32) == 0
  {
  }

  lemma AtRoom(s: Bits, pos: nat, e: Bits)
    requires At(s, pos, e)
    ensures pos + |e| <= |s|
  {
  }

  /** The decoder reads these bits turn by turn, and its history goes up with them. */
  lemma {:induction false} PushesRead(s: Bits, p: Params, h: Head, n: nat)
    requires Rising(p, h.history) && h.signModifier == 0 && HeadOk(h) && h.left == n + 1
    requires At(s, h.pos, PushBits(p, h.history, n))
    ensures
      var end := HeadAfter(s, p, h, n);
      && end.Some? && end.value.left == 1 && end.value.history == PushedBy(p, h.history, n)
      && DecodeValue(s, end.value.pos, p.size, MainK(end.value.history, p.kModifier), 32).Some?
    decreases n
  {
    hide At, DecodeValue, CodeBits, MainK, NextHistory;
    assert h.history <= 512 * 0xFFFF;
    if n == 0 {
      CodeRead(s, h.pos, p, h.history, 0, [false]);
    } else {
      var code, up := CodeNow(p, h.history), Pushed(p, h.history);
      CodeRead(s, h.pos, p, h.history, code, PushBits(p, up, n - 1));
      var next := Head(h.pos + |CodeBits(p, h.history, code)|, n, up, 0);
      assert up == NextHistory(h.history, code, p.historyMult);
      assert NextHead(s, p, h) == Some(next);
      PushesRead(s, p, next, n - 1);
    }
  }

  /** Beyond the limit, a block of at most 201 residuals that overflows in its last iteration. */
  lemma OverflowingBlock(p: Params) returns (s: Bits, count: nat)
    requires Wide(p) && LargestCode(p) * p.historyMult >= 0x40_0000
    ensures 1 <= count <= 201 && Overflows(s, p, count, count - 1)
  {
    hide *;
    StartRises(p, 25);
    var n := TopReached(p, p.initialHistory, 25);
    PushesOverflow(p, n);
    s, count := PushBits(p, p.initialHistory, n), n + 1;
  }

  lemma PushesOverflow(p: Params, n: nat)
    requires Wide(p) && LargestCode(p) * p.historyMult >= 0x40_0000
    requires Rising(p, p.initialHistory) && Gap(p, PushedBy(p, p.initialHistory, n)) == 0
    ensures Overflows(PushBits(p, p.initialHistory, n), p, n + 1, n)
  {
    hide Rising, Gap, LargestCode, PushBits, PushedBy, HeadAfter, DecodeValue, MainK, At;
    var s := PushBits(p, p.initialHistory, n);
    AtAll(s);
    PushesRead(s, p, Start(p, n + 1), n);
    TopOverflows(p, PushedBy(p, p.initialHistory, n));
  }

  lemma StartRises(p: Params, j: nat)
    requires Wide(p) && LargestCode(p) * p.historyMult >= 0x40_0000 && j == 25
    ensures Rising(p, p.initialHistory) && p.initialHistory * Pow2(j) >= 0x200_0000
  {
    PowerOf25();
    hide LargestCode, Pow2;
    if p.historyMult <= 64 {
      MulMonotone(p.historyMult, 64, LargestCode(p));
    }
  }

  lemma TopOverflows(p: Params, history: nat)
    requires Rising(p, history) && Gap(p, history) == 0 && LargestCode(p) * p.historyMult >= 0x40_0000
    ensures history * p.historyMult >= 0x8000_0000
  {
    hide LargestCode;
    Reassociate(512, LargestCode(p), p.historyMult);
  }

  lemma AtAll(s: Bits)
    ensures At(s, 0, s)
  {
  }

  // ----- the limit -----

  /** For every read size, k-modifier and initial history: the product fits on every stream exactly if the multiplier
      times the largest code that can be read is below 2^22. */
  lemma MultiplierLimit(p: Params)
    requires Wide(p)
    ensures NeverOverflows(p) <==> LargestCode(p) * p.historyMult < 0x40_0000
  {
    if LargestCode(p) * p.historyMult < 0x40_0000 {
      forall s, count, n ensures !Overflows(s, p, count, n) {
        if HeadAfter(s, p, Start(p, count), n).Some? {
          StaysBelow(s, p, Start(p, count), n);
          ProductBelow(p, HeadAfter(s, p, Start(p, count), n).value.history);
        }
      }
    } else {
      var s, count := OverflowingBlock(p);
      assert Overflows(s, p, count, count - 1);
    }
  }

  /** From a read size of 16 on, or with remainders of 13 bits, the limit is a multiplier of 64. */
  lemma UsualLimit(p: Params)
    requires Wide(p) && (p.size >= 16 || p.kModifier >= 13)
    ensures NeverOverflows(p) <==> p.historyMult <= 64
  {
    Pow2Values();
    if p.size >= 16 {
      Pow2Monotone(16, p.size);
    } else {
      Pow2Monotone(13, p.kModifier);
      Pow2Add(8, 5);
      assert Pow2(5) == 32;
    }
    assert LargestCode(p) == 0xFFFF;
    hide NeverOverflows, LargestCode;
    MultiplierLimit(p);
  }
}
