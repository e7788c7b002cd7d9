/** The adaptive Rice code of alac.c as functions of the bits in the frame: the decoder's meaning, the matching
    specification encoder, and the proofs that one undoes the other and that the history stays in range. */
module Rice {
  import opened Words
  import opened Wrappers

  const RICE_THRESHOLD := 8

  /** The largest history the update rule can produce. */
  const HISTORY_MAX := 512 * 0xFFFF

  // ----- single values -----

  /** n bits, most significant first, and the position behind them. */
  function ReadNum(s: Bits, pos: nat, n: nat): Option<(nat, nat)> {
    if pos + n <= |s| then Some((Num(s[pos..pos + n]), pos + n)) else None
  }

  function CountOnes(s: Bits, pos: nat, x: nat): (r: Option<(nat, nat)>)
    requires x <= RICE_THRESHOLD + 1
    ensures r.Some? ==> x <= r.value.0 <= RICE_THRESHOLD + 1
    decreases RICE_THRESHOLD + 1 - x
  {
    if x > RICE_THRESHOLD then Some((x, pos))
    else if pos >= |s| then None
    else if s[pos] then CountOnes(s, pos + 1, x + 1)
    else Some((x, pos + 1))
  }

  lemma CountOnesTurn(s: Bits, pos: nat, x: nat)
    requires x <= RICE_THRESHOLD && CountOnes(s, pos, x).Some?
    ensures pos < |s|
    ensures CountOnes(s, pos, x) == if s[pos] then CountOnes(s, pos + 1, x + 1) else Some((x, pos + 1))
  {
  }

  lemma CountOnesFull(s: Bits, pos: nat)
    ensures CountOnes(s, pos, RICE_THRESHOLD + 1) == Some((RICE_THRESHOLD + 1, pos))
  {
  }

  /** (2^k - 1) & (2^maskWidth - 1): both operands are runs of ones. */
  function Multiplier(k: nat, maskWidth: nat): (m: int)
    ensures k >= 1 && maskWidth >= 1 ==> m >= 1
  {
    Pow2(if k <= maskWidth then k else maskWidth) - 1
  }

  /** What entropy_decode_value returns and where it leaves the reader; None if the bits run out. */
  function DecodeValue(s: Bits, pos: nat, size: nat, k: nat, maskWidth: nat): Option<(nat, nat)>
    requires k >= 1 && maskWidth >= 1
  {
    var (x, p) :- CountOnes(s, pos, 0);
    if x > RICE_THRESHOLD then ReadNum(s, p, size)
    else if k == 1 then Some((x, p))
    else
      var (extra, p') :- ReadNum(s, p, k);
      var scaled := x * Multiplier(k, maskWidth);
      if extra > 1 then Some((scaled + extra - 1, p')) else Some((scaled, p' - 1))
  }

  lemma ReadNumBound(s: Bits, p: nat, n: nat)
    requires ReadNum(s, p, n).Some?
    ensures ReadNum(s, p, n).value.0 < Pow2(n)
  {
    NumBound(s[p..p + n]);
  }

  /** A value below the escape is at most eight multipliers and a remainder; an escaped one fills its width. */
  lemma DecodedValueBound(s: Bits, pos: nat, size: nat, k: nat, maskWidth: nat)
    requires k >= 1 && maskWidth >= 1
    requires DecodeValue(s, pos, size, k, maskWidth).Some?
    ensures var v := DecodeValue(s, pos, size, k, maskWidth).value.0;
      v < Pow2(size) || v <= RICE_THRESHOLD || v < 9 * Pow2(k)
  {
    hide ReadNum, CountOnes, Multiplier;
    var (x, p) := CountOnes(s, pos, 0).value;
    if x > RICE_THRESHOLD {
      ReadNumBound(s, p, size);
    } else if k > 1 {
      ReadNumBound(s, p, k);
      MultiplierBound(x, k, maskWidth);
    }
  }

  /** A zero-run length never exceeds 16 bits, so the test of it against 0xFFFF is never true. */
  lemma ZeroRunBound(s: Bits, pos: nat, k: nat, maskWidth: nat)
    requires 2 <= k <= 7 && maskWidth >= 1
    requires DecodeValue(s, pos, 16, k, maskWidth).Some?
    ensures DecodeValue(s, pos, 16, k, maskWidth).value.0 <= 0xFFFF
  {
    hide DecodeValue;
    DecodedValueBound(s, pos, 16, k, maskWidth);
    Pow2Monotone(k, 7);
    Pow2Values();
  }

  lemma MultiplierBound(x: nat, k: nat, maskWidth: nat)
    requires x <= RICE_THRESHOLD
    ensures x * Multiplier(k, maskWidth) <= 8 * Pow2(k)
  {
    Pow2Monotone(if k <= maskWidth then k else maskWidth, k);
    MulMonotone(x, 8, Multiplier(k, maskWidth));
  }

  function Ones(n: nat): (s: Bits)
    ensures |s| == n
  {
    if n == 0 then [] else [true] + Ones(n - 1)
  }

  /** The specification encoder for one value: quotient in unary, remainder in k - 1 or k bits, or an escape. */
  function EncodeValue(v: nat, size: nat, k: nat, maskWidth: nat): Bits
    requires k >= 1 && maskWidth >= 1
  {
    var m := Multiplier(k, maskWidth);
    var q, r := v / m, v % m;
    if q > RICE_THRESHOLD then Ones(RICE_THRESHOLD + 1) + BitsOf(size, v)
    else Ones(q) + ([false] + Remainder(r, k))
  }

  function Remainder(r: nat, k: nat): Bits
    requires k >= 1
  {
    if k == 1 then [] else if r == 0 then BitsOf(k - 1, 0) else BitsOf(k, r + 1)
  }

  lemma {:induction false} CountOnesOf(s: Bits, pos: nat, x: nat, q: nat)
    requires x + q <= RICE_THRESHOLD + 1
    requires At(s, pos, Ones(q))
    requires x + q <= RICE_THRESHOLD ==> At(s, pos + q, [false])
    ensures CountOnes(s, pos, x) == Some((x + q, if x + q <= RICE_THRESHOLD then pos + q + 1 else pos + q))
    decreases q
  {
    hide At;
    if q == 0 {
      if x <= RICE_THRESHOLD {
        assert [false] == [false] + [];
        AtHead(s, pos, false, []);
      }
    } else {
      AtHead(s, pos, true, Ones(q - 1));
      CountOnesOf(s, pos + 1, x + 1, q - 1);
    }
  }

  lemma ReadNumOf(s: Bits, pos: nat, n: nat, v: nat)
    requires v < Pow2(n) && At(s, pos, BitsOf(n, v))
    ensures ReadNum(s, pos, n) == Some((v, pos + n))
  {
    NumBitsOf(n, v);
  }

  lemma ZerosThenBit(s: Bits, pos: nat, n: nat)
    requires At(s, pos, BitsOf(n, 0)) && pos + n < |s|
    ensures Num(s[pos..pos + n + 1]) <= 1
  {
    hide Num, BitsOf;
    var zeros, last := BitsOf(n, 0), s[pos + n..pos + n + 1];
    assert s[pos..pos + n + 1] == zeros + last;
    NumBitsOf(n, 0);
    NumConcat(zeros, last);
    NumBound(last);
    assert Pow2(1) == 2;
  }

  /** The remainder is found again, with the look-ahead bit of the short form handed back. */
  lemma RemainderRoundTrip(s: Bits, pos: nat, r: nat, k: nat)
    requires k >= 2 && r + 1 < Pow2(k)
    requires At(s, pos, Remainder(r, k)) && pos + |Remainder(r, k)| < |s|
    ensures ReadNum(s, pos, k).Some?
    ensures var extra := ReadNum(s, pos, k).value.0;
            if r == 0 then extra <= 1 && pos + |Remainder(r, k)| == pos + k - 1
            else extra == r + 1 && pos + |Remainder(r, k)| == pos + k
  {
    hide Num, BitsOf, At, Pow2;
    if r == 0 {
      ZerosThenBit(s, pos, k - 1);
    } else {
      ReadNumOf(s, pos, k, r + 1);
    }
  }

  lemma EscapeRoundTrip(s: Bits, pos: nat, v: nat, size: nat, k: nat, maskWidth: nat)
    requires k >= 1 && maskWidth >= 1 && v < Pow2(size)
    requires At(s, pos, Ones(RICE_THRESHOLD + 1) + BitsOf(size, v))
    ensures DecodeValue(s, pos, size, k, maskWidth) == Some((v, pos + RICE_THRESHOLD + 1 + size))
  {
    AtConcat(s, pos, Ones(RICE_THRESHOLD + 1), BitsOf(size, v));
    CountOnesOf(s, pos, 0, RICE_THRESHOLD + 1);
    ReadNumOf(s, pos + RICE_THRESHOLD + 1, size, v);
  }

  lemma ShortForm(s: Bits, pos: nat, q: nat, p: nat, r: nat, size: nat, k: nat, maskWidth: nat)
    requires k >= 2 && maskWidth >= 1 && q <= RICE_THRESHOLD
    requires CountOnes(s, pos, 0) == Some((q, p))
    requires ReadNum(s, p, k).Some?
    requires if r == 0 then ReadNum(s, p, k).value.0 <= 1 else ReadNum(s, p, k).value.0 == r + 1
    ensures DecodeValue(s, pos, size, k, maskWidth)
         == Some((q * Multiplier(k, maskWidth) + r, if r == 0 then p + k - 1 else p + k))
  {
  }

  lemma UnaryForm(s: Bits, pos: nat, q: nat, p: nat, size: nat, maskWidth: nat)
    requires maskWidth >= 1 && q <= RICE_THRESHOLD
    requires CountOnes(s, pos, 0) == Some((q, p))
    ensures DecodeValue(s, pos, size, 1, maskWidth) == Some((q, p))
    ensures Multiplier(1, maskWidth) == 1
    ensures Remainder(0, 1) == []
  {
    assert Pow2(1) == 2;
  }

  lemma QuotientRoundTrip(s: Bits, pos: nat, q: nat, r: nat, size: nat, k: nat, maskWidth: nat)
    requires k >= 1 && maskWidth >= 1 && q <= RICE_THRESHOLD && r < Multiplier(k, maskWidth)
    requires At(s, pos, Ones(q) + ([false] + Remainder(r, k)))
    requires pos + q + 1 + |Remainder(r, k)| < |s|
    ensures DecodeValue(s, pos, size, k, maskWidth)
         == Some((q * Multiplier(k, maskWidth) + r, pos + q + 1 + |Remainder(r, k)|))
  {
    hide DecodeValue, CountOnes, ReadNum, Ones, Remainder, At;
    AtConcat(s, pos, Ones(q), [false] + Remainder(r, k));
    AtConcat(s, pos + q, [false], Remainder(r, k));
    CountOnesOf(s, pos, 0, q);
    if k == 1 {
      UnaryForm(s, pos, q, pos + q + 1, size, maskWidth);
    } else {
      Pow2Monotone(if k <= maskWidth then k else maskWidth, k);
      RemainderRoundTrip(s, pos + q + 1, r, k);
      ShortForm(s, pos, q, pos + q + 1, r, size, k, maskWidth);
    }
  }

  /** A value, short or escaped, comes back exactly and nothing behind it is consumed. Only an escaped one has to fit
      the read size. */
  lemma ValueRoundTrip(s: Bits, pos: nat, v: nat, size: nat, k: nat, maskWidth: nat)
    requires k >= 1 && maskWidth >= 1
    requires v / Multiplier(k, maskWidth) > RICE_THRESHOLD ==> v < Pow2(size)
    requires At(s, pos, EncodeValue(v, size, k, maskWidth))
    requires pos + |EncodeValue(v, size, k, maskWidth)| < |s|
    ensures DecodeValue(s, pos, size, k, maskWidth)
         == Some((v, pos + |EncodeValue(v, size, k, maskWidth)|))
  {
    hide DecodeValue, Multiplier, Remainder, At, BitsOf, Ones;
    var m := Multiplier(k, maskWidth);
    DivModIdentity(v, m);
    if v / m > RICE_THRESHOLD {
      EscapeRoundTrip(s, pos, v, size, k, maskWidth);
    } else {
      QuotientRoundTrip(s, pos, v / m, v % m, size, k, maskWidth);
    }
  }

  // ----- parameters and history -----

  datatype Params = Params(size: nat, initialHistory: nat, kModifier: nat, historyMult: nat) {

    /** Header values the decoder can run on: no shift out of range, no zero handed to count_leading_zeros,
        no overflow of history * rice_historymult. */
    predicate Legal() {
      1 <= size <= 32 && 1 <= initialHistory <= 255 && 1 <= kModifier <= 30 && 1 <= historyMult <= 64
    }
  }

  function Log2(x: int): (l: nat)
    requires x >= 1
    ensures Pow2(l) <= x < Pow2(l + 1)
  {
    if x == 1 then 0 else Log2(x / 2) + 1
  }

  /** __builtin_clz on a 32-bit int; undefined at 0. */
  function CountLeadingZeros(x: int): int
    requires x >= 1
  {
    31 - Log2(x)
  }

  lemma Pow2Reflects(a: nat, b: nat)
    ensures Pow2(a) < Pow2(b) ==> a < b
  {
    if b <= a {
      Pow2Monotone(b, a);
    }
  }

  lemma Log2Between(x: int, lo: nat, hi: nat)
    requires x >= 1 && Pow2(lo) <= x < Pow2(hi)
    ensures lo <= Log2(x) < hi
  {
    Pow2Reflects(lo, Log2(x) + 1);
    Pow2Reflects(Log2(x), hi);
  }

  lemma Log2Ranges(x: int)
    requires 1 <= x < 0x2_0000
    ensures x >= 3 ==> 1 <= Log2(x) <= 16
    ensures x < 32 ==> Log2(x) <= 4
    ensures 32 <= x < 64 ==> Log2(x) == 5
    ensures 64 <= x < 128 ==> Log2(x) == 6
  {
    Pow2Values();
    assert Pow2(0) == 1 && Pow2(1) == 2 && Pow2(5) == 32 && Pow2(6) == 64;
    Log2Between(x, 0, 17);
    if x >= 3 { Log2Between(x, 1, 17); }
    if x < 32 { Log2Between(x, 0, 5); }
    if 32 <= x < 64 { Log2Between(x, 5, 6); }
    if 64 <= x < 128 { Log2Between(x, 6, 7); }
  }

  /** The width of the next residual's remainder. */
  function MainK(history: nat, kModifier: nat): (r: int)
    requires history <= HISTORY_MAX
    ensures kModifier >= 1 ==> 1 <= r <= 16
  {
    Log2Ranges(history / 512 + 3);
    var k := 31 - kModifier - CountLeadingZeros(history / 512 + 3);
    if k < 0 then k + kModifier else kModifier
  }

  /** The width of a zero-run length's remainder. */
  function ZeroRunK(history: nat): (r: int)
    requires 1 <= history < 128
    ensures 2 <= r <= 7
  {
    Log2Ranges(history);
    CountLeadingZeros(history) + (history + 16) / 64 - 24
  }

  function NextHistory(history: nat, decoded: nat, mult: nat): int {
    if decoded > 0xFFFF then 0xFFFF else history + decoded * mult - history * mult / 512
  }

  /** What every iteration starts from: a zero history only ever follows a zero run, whose next code is offset by
      one. */
  predicate StateOk(history: int, signModifier: int) {
    0 <= history <= HISTORY_MAX && 0 <= signModifier <= 1 && (history == 0 ==> signModifier == 1)
  }

  lemma DecayBounds(history: nat, mult: nat)
    requires history <= HISTORY_MAX && 1 <= mult <= 512
    ensures history - history * mult / 512 <= HISTORY_MAX - 0xFFFF * mult
    ensures history >= 1 && mult <= 511 ==> history - history * mult / 512 >= 1
  {
    var gap := HISTORY_MAX - history;
    assert history * mult == 512 * (0xFFFF * mult) - gap * mult;
    assert gap * mult <= gap * 512 by {
      MulMonotone(mult, 512, gap);
    }
    assert history * mult / 512 >= 0xFFFF * mult - gap;
    if history >= 1 && mult <= 511 {
      MulMonotone(mult, 511, history);
    }
  }

  /** The history update keeps the range and never reaches 0, so count_leading_zeros is always given a positive
      number. */
  lemma NextHistoryRange(history: nat, signModifier: nat, code: nat, mult: nat)
    requires StateOk(history, signModifier) && 1 <= mult <= 511
    ensures 1 <= NextHistory(history, code + signModifier, mult) <= HISTORY_MAX
  {
    var d := code + signModifier;
    if d <= 0xFFFF {
      DecayBounds(history, mult);
      MulMonotone(d, 0xFFFF, mult);
      MulMonotone(0, d, mult);
      if history == 0 {
        MulMonotone(1, d, mult);
      }
    }
  }

  // ----- a block of residuals -----

  function Zigzag(e: int): nat {
    if e >= 0 then 2 * e else -2 * e - 1
  }

  /** finalValue of a decodedValue: half, rounded up, with the sign taken from the low bit. */
  function Unzigzag(d: nat): int {
    if d % 2 == 1 then -((d + 1) / 2) else (d + 1) / 2
  }

  function Zeros(n: nat): (z: seq<int>)
    ensures |z| == n && forall i :: 0 <= i < n ==> z[i] == 0
  {
    seq(n, _ => 0)
  }

  /** The residuals that entropy_rice_decode puts into its buffer from this point on, and where it leaves the reader;
      None if the bits run out or a zero run would overrun the buffer. */
  function DecodeBlock(s: Bits, pos: nat, count: nat, history: nat, signModifier: nat, p: Params)
    : (r: Option<(seq<int>, nat)>)
    requires p.Legal() && StateOk(history, signModifier)
    ensures r.Some? ==> |r.value.0| == count
    decreases count
  {
    if count == 0 then Some(([], pos)) else
    var (code, pos1) :- DecodeValue(s, pos, p.size, MainK(history, p.kModifier), 32);
    var d := code + signModifier;
    var e := Unzigzag(d);
    NextHistoryRange(history, signModifier, code, p.historyMult);
    var h := NextHistory(history, d, p.historyMult);
    if h < 128 && count > 1 then
      var (run, pos2) :- DecodeValue(s, pos1, 16, ZeroRunK(h), p.kModifier);
      if run > count - 1 then None else
      var (rest, end) :- DecodeBlock(s, pos2, count - 1 - run, 0, 1, p);
      Some(([e] + Zeros(run) + rest, end))
    else
      var (rest, end) :- DecodeBlock(s, pos1, count - 1, h, 0, p);
      Some(([e] + rest, end))
  }

  /** What a turn of the decoder's loop can rely on: a residual is there, and the history stays in range. */
  lemma TurnStarts(s: Bits, pos: nat, count: nat, history: nat, signModifier: nat, p: Params)
    requires p.Legal() && StateOk(history, signModifier) && count >= 1
    requires DecodeBlock(s, pos, count, history, signModifier, p).Some?
    ensures DecodeValue(s, pos, p.size, MainK(history, p.kModifier), 32).Some?
    ensures var code := DecodeValue(s, pos, p.size, MainK(history, p.kModifier), 32).value.0;
      1 <= NextHistory(history, code + signModifier, p.historyMult) <= HISTORY_MAX
  {
    hide NextHistory, MainK, ZeroRunK, DecodeValue, Unzigzag, Zeros;
    var code := DecodeValue(s, pos, p.size, MainK(history, p.kModifier), 32).value.0;
    NextHistoryRange(history, signModifier, code, p.historyMult);
  }

  lemma PlainTurn(s: Bits, pos: nat, code: nat, pos1: nat, count: nat, history: nat, signModifier: nat, p: Params)
    requires p.Legal() && StateOk(history, signModifier) && count >= 1
    requires DecodeBlock(s, pos, count, history, signModifier, p).Some?
    requires DecodeValue(s, pos, p.size, MainK(history, p.kModifier), 32) == Some((code, pos1))
    requires StateOk(NextHistory(history, code + signModifier, p.historyMult), 0)
    requires NextHistory(history, code + signModifier, p.historyMult) >= 128 || count == 1
    ensures var rest := DecodeBlock(s, pos1, count - 1, NextHistory(history, code + signModifier, p.historyMult), 0, p);
      && rest.Some?
      && DecodeBlock(s, pos, count, history, signModifier, p)
         == Some(([Unzigzag(code + signModifier)] + rest.value.0, rest.value.1))
  {
    hide NextHistory, MainK, DecodeValue, Unzigzag, StateOk;
  }

  lemma RunTurn(s: Bits, pos: nat, code: nat, pos1: nat, count: nat, history: nat, signModifier: nat, p: Params)
    requires p.Legal() && StateOk(history, signModifier) && count > 1
    requires DecodeBlock(s, pos, count, history, signModifier, p).Some?
    requires DecodeValue(s, pos, p.size, MainK(history, p.kModifier), 32) == Some((code, pos1))
    requires 1 <= NextHistory(history, code + signModifier, p.historyMult) < 128
    ensures var run := DecodeValue(s, pos1, 16, ZeroRunK(NextHistory(history, code + signModifier, p.historyMult)),
                                   p.kModifier);
      && run.Some? && run.value.0 < count
      && var rest := DecodeBlock(s, run.value.1, count - 1 - run.value.0, 0, 1, p);
         && rest.Some?
         && DecodeBlock(s, pos, count, history, signModifier, p)
            == Some(([Unzigzag(code + signModifier)] + Zeros(run.value.0) + rest.value.0, rest.value.1))
  {
    hide NextHistory, MainK, ZeroRunK, DecodeValue, Unzigzag, StateOk, Zeros;
  }

  lemma DecodeNothing(s: Bits, pos: nat, history: nat, signModifier: nat, p: Params)
    requires p.Legal() && StateOk(history, signModifier)
    ensures DecodeBlock(s, pos, 0, history, signModifier, p) == Some(([], pos))
  {
  }

  function LeadingZeros(xs: seq<int>): (n: nat)
    ensures n <= |xs|
    ensures forall i :: 0 <= i < n ==> xs[i] == 0
    ensures n < |xs| ==> xs[n] != 0
  {
    if xs == [] || xs[0] != 0 then 0 else LeadingZeros(xs[1..]) + 1
  }

  /** After a zero run the next residual is not zero, because runs are maximal. */
  predicate Codable(xs: seq<int>, signModifier: int) {
    signModifier == 1 && xs != [] ==> xs[0] != 0
  }

  /** The specification encoder for a block. */
  function EncodeBlock(xs: seq<int>, history: nat, signModifier: nat, p: Params): Bits
    requires p.Legal() && StateOk(history, signModifier) && Codable(xs, signModifier)
    decreases |xs|
  {
    if xs == [] then [] else
    var d := Zigzag(xs[0]);
    NextHistoryRange(history, signModifier, d - signModifier, p.historyMult);
    var h := NextHistory(history, d, p.historyMult);
    var head := EncodeValue(d - signModifier, p.size, MainK(history, p.kModifier), 32);
    if h < 128 && |xs| > 1 then
      var run := LeadingZeros(xs[1..]);
      head + (EncodeValue(run, 16, ZeroRunK(h), p.kModifier) + EncodeBlock(xs[1 + run..], 0, 1, p))
    else
      head + EncodeBlock(xs[1..], h, 0, p)
  }

  lemma ZigzagRoundTrip(e: int)
    ensures Unzigzag(Zigzag(e)) == e
    ensures e != 0 ==> Zigzag(e) >= 1
  {
    if e >= 0 {
      DivModUnique(2 * e, 2, e, 0);
      DivModUnique(2 * e + 1, 2, e, 1);
    } else {
      DivModUnique(-2 * e - 1, 2, -e - 1, 1);
      DivModUnique(-2 * e, 2, -e, 0);
    }
  }

  lemma ZigzagFits(e: int, size: nat)
    requires size >= 1 && Fits(e, size)
    ensures Zigzag(e) < Pow2(size)
  {
  }

  lemma SplitRun(xs: seq<int>, run: nat)
    requires xs != [] && run == LeadingZeros(xs[1..])
    ensures xs == [xs[0]] + Zeros(run) + xs[1 + run..]
    ensures Codable(xs[1 + run..], 1)
  {
    hide LeadingZeros, Zeros;
    var ys := xs[1..];
    assert xs[1 + run..] == ys[run..];
    assert ys == Zeros(run) + ys[run..];
    assert xs == [xs[0]] + ys;
  }

  /** One decoder iteration that no zero run follows. */
  lemma PlainStep(s: Bits, pos: nat, code: nat, pos1: nat, count: nat, history: nat, signModifier: nat, p: Params,
                  rest: seq<int>, end: nat)
    requires p.Legal() && StateOk(history, signModifier) && count >= 1
    requires DecodeValue(s, pos, p.size, MainK(history, p.kModifier), 32) == Some((code, pos1))
    requires StateOk(NextHistory(history, code + signModifier, p.historyMult), 0)
    requires NextHistory(history, code + signModifier, p.historyMult) >= 128 || count == 1
    requires DecodeBlock(s, pos1, count - 1, NextHistory(history, code + signModifier, p.historyMult), 0, p)
          == Some((rest, end))
    ensures DecodeBlock(s, pos, count, history, signModifier, p)
         == Some(([Unzigzag(code + signModifier)] + rest, end))
  {
    hide NextHistory, MainK, DecodeValue, Unzigzag, StateOk;
  }

  /** One decoder iteration together with the zero run behind it. */
  lemma RunStep(s: Bits, pos: nat, code: nat, pos1: nat, run: nat, pos2: nat, count: nat,
                history: nat, signModifier: nat, p: Params, rest: seq<int>, end: nat)
    requires p.Legal() && StateOk(history, signModifier) && run < count && count > 1
    requires DecodeValue(s, pos, p.size, MainK(history, p.kModifier), 32) == Some((code, pos1))
    requires 1 <= NextHistory(history, code + signModifier, p.historyMult) < 128
    requires DecodeValue(s, pos1, 16, ZeroRunK(NextHistory(history, code + signModifier, p.historyMult)), p.kModifier)
          == Some((run, pos2))
    requires DecodeBlock(s, pos2, count - 1 - run, 0, 1, p) == Some((rest, end))
    ensures DecodeBlock(s, pos, count, history, signModifier, p)
         == Some(([Unzigzag(code + signModifier)] + Zeros(run) + rest, end))
  {
    hide NextHistory, MainK, ZeroRunK, DecodeValue, Unzigzag, StateOk, Zeros;
  }

  /** The state the encoder and the decoder share after the first residual of xs. */
  function HistoryAfter(xs: seq<int>, history: nat, signModifier: nat, p: Params): (h: nat)
    requires p.Legal() && StateOk(history, signModifier) && Codable(xs, signModifier) && xs != []
    ensures 1 <= h <= HISTORY_MAX
  {
    ZigzagRoundTrip(xs[0]);
    NextHistoryRange(history, signModifier, Zigzag(xs[0]) - signModifier, p.historyMult);
    NextHistory(history, Zigzag(xs[0]), p.historyMult)
  }

  function EncodeHead(xs: seq<int>, history: nat, signModifier: nat, p: Params): Bits
    requires p.Legal() && StateOk(history, signModifier) && Codable(xs, signModifier) && xs != []
  {
    ZigzagRoundTrip(xs[0]);
    EncodeValue(Zigzag(xs[0]) - signModifier, p.size, MainK(history, p.kModifier), 32)
  }

  function EncodeRun(run: nat, h: nat, p: Params): Bits
    requires p.Legal() && 1 <= h < 128
  {
    EncodeValue(run, 16, ZeroRunK(h), p.kModifier)
  }

  lemma EncodingSplits(xs: seq<int>, history: nat, signModifier: nat, p: Params)
    requires p.Legal() && StateOk(history, signModifier) && Codable(xs, signModifier) && xs != []
    ensures var h := HistoryAfter(xs, history, signModifier, p);
      var head := EncodeHead(xs, history, signModifier, p);
      var run := LeadingZeros(xs[1..]);
      EncodeBlock(xs, history, signModifier, p)
      == if h < 128 && |xs| > 1
         then head + (EncodeRun(run, h, p) + EncodeBlock(xs[1 + run..], 0, 1, p))
         else head + EncodeBlock(xs[1..], h, 0, p)
  {
    hide EncodeValue, MainK, ZeroRunK, NextHistory, Zigzag;
  }

  lemma HeadRoundTrip(s: Bits, pos: nat, xs: seq<int>, history: nat, signModifier: nat, p: Params)
    requires p.Legal() && StateOk(history, signModifier) && Codable(xs, signModifier) && xs != []
    requires Fits(xs[0], p.size)
    requires At(s, pos, EncodeHead(xs, history, signModifier, p))
    requires pos + |EncodeHead(xs, history, signModifier, p)| < |s|
    ensures Zigzag(xs[0]) >= signModifier
    ensures DecodeValue(s, pos, p.size, MainK(history, p.kModifier), 32)
         == Some((Zigzag(xs[0]) - signModifier, pos + |EncodeHead(xs, history, signModifier, p)|))
  {
    hide DecodeValue, EncodeValue, MainK;
    ZigzagRoundTrip(xs[0]);
    ZigzagFits(xs[0], p.size);
    ValueRoundTrip(s, pos, Zigzag(xs[0]) - signModifier, p.size, MainK(history, p.kModifier), 32);
  }

  lemma RunRoundTrip(s: Bits, pos: nat, run: nat, h: nat, p: Params)
    requires p.Legal() && 1 <= h < 128 && run <= 0xFFFF
    requires At(s, pos, EncodeRun(run, h, p)) && pos + |EncodeRun(run, h, p)| < |s|
    ensures DecodeValue(s, pos, 16, ZeroRunK(h), p.kModifier) == Some((run, pos + |EncodeRun(run, h, p)|))
  {
    hide DecodeValue, EncodeValue, ZeroRunK;
    Pow2Values();
    ValueRoundTrip(s, pos, run, 16, ZeroRunK(h), p.kModifier);
  }

  /** The adaptive decoder undoes the adaptive encoder on every block of up to 65535 residuals that fit the read size,
      whatever (nonempty) bits follow, and stops exactly behind the encoding. */
  lemma {:induction false} BlockRoundTrip(s: Bits, pos: nat, xs: seq<int>, history: nat, signModifier: nat, p: Params)
    requires p.Legal() && StateOk(history, signModifier) && Codable(xs, signModifier)
    requires AllFit(xs, p.size) && |xs| <= 0xFFFF
    requires At(s, pos, EncodeBlock(xs, history, signModifier, p))
    requires pos + |EncodeBlock(xs, history, signModifier, p)| < |s|
    ensures DecodeBlock(s, pos, |xs|, history, signModifier, p)
         == Some((xs, pos + |EncodeBlock(xs, history, signModifier, p)|))
    decreases |xs|
  {
    if xs != [] {
      hide *;
      NonemptyRoundTrip(s, pos, xs, history, signModifier, p);
    }
  }

  lemma {:induction false} NonemptyRoundTrip(s: Bits, pos: nat, xs: seq<int>, history: nat, signModifier: nat,
                                             p: Params)
    requires p.Legal() && StateOk(history, signModifier) && Codable(xs, signModifier) && xs != []
    requires AllFit(xs, p.size) && |xs| <= 0xFFFF
    requires At(s, pos, EncodeBlock(xs, history, signModifier, p))
    requires pos + |EncodeBlock(xs, history, signModifier, p)| < |s|
    ensures DecodeBlock(s, pos, |xs|, history, signModifier, p)
         == Some((xs, pos + |EncodeBlock(xs, history, signModifier, p)|))
    decreases |xs|, 0
  {
    hide DecodeBlock, EncodeBlock, DecodeValue, EncodeHead, EncodeRun, MainK, ZeroRunK, NextHistory, At, Unzigzag,
      Zigzag, LeadingZeros, Fits;
    var code := Zigzag(xs[0]) - signModifier;
    var h := HistoryAfter(xs, history, signModifier, p);
    var head := EncodeHead(xs, history, signModifier, p);
    var pos1 := pos + |head|;
    var end := pos + |EncodeBlock(xs, history, signModifier, p)|;
    EncodingSplits(xs, history, signModifier, p);
    ZigzagRoundTrip(xs[0]);
    if h < 128 && |xs| > 1 {
      var run := LeadingZeros(xs[1..]);
      var zero, tail := EncodeRun(run, h, p), EncodeBlock(xs[1 + run..], 0, 1, p);
      SplitRun(xs, run);
      AtConcat(s, pos, head, zero + tail);
      AtConcat(s, pos1, zero, tail);
      HeadRoundTrip(s, pos, xs, history, signModifier, p);
      RunRoundTrip(s, pos1, run, h, p);
      BlockRoundTrip(s, pos1 + |zero|, xs[1 + run..], 0, 1, p);
      RunStep(s, pos, code, pos1, run, pos1 + |zero|, |xs|, history, signModifier, p, xs[1 + run..], end);
    } else {
      AtConcat(s, pos, head, EncodeBlock(xs[1..], h, 0, p));
      HeadRoundTrip(s, pos, xs, history, signModifier, p);
      BlockRoundTrip(s, pos1, xs[1..], h, 0, p);
      PlainStep(s, pos, code, pos1, |xs|, history, signModifier, p, xs[1..], end);
      assert xs == [xs[0]] + xs[1..];
    }
  }
}
