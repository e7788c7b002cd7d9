/** The 64-bit pseudo-random generator of common.c. */
module Random {
  import opened Words

  const MODULUS := 0x1_0000_0000_0000_0000

  type Word = w: int | 0 <= w < MODULUS

  datatype Context = Context(a: Word, b: Word, c: Word, d: Word)

  function Add(x: Word, y: Word): Word {
    (x + y) % MODULUS
  }

  function Sub(x: Word, y: Word): Word {
    (x - y) % MODULUS
  }

  /** Exclusive or of the n low bits. */
  function XorBits(x: nat, y: nat, n: nat): (r: nat)
    ensures r < Pow2(n)
  {
    if n == 0 then 0 else 2 * XorBits(x / 2, y / 2, n - 1) + (x % 2 + y % 2) % 2
  }

  lemma Modulus()
    ensures Pow2(64) == MODULUS
  {
    Pow2Values();
    Pow2Add(32, 32);
  }

  function Xor(x: Word, y: Word): Word {
    Modulus();
    XorBits(x, y, 64)
  }

  lemma Shares(q: nat, back: nat, r: nat, p: nat)
    ensures (q * back + r) * p == q * (back * p) + r * p
  {
  }

  lemma HalvesBy(x: Word, p: nat, back: nat)
    requires p > 0 && back > 0 && back * p == MODULUS
    ensures 0 <= x * p % MODULUS + x / back < MODULUS
  {
    var q, r := x / back, x % back;
    DivModIdentity(x, back);
    MulLess(r, back, p);
    Shares(q, back, r, p);
    assert r * p >= 0;
    DivModUnique(x * p, MODULUS, q, r * p);
    if q >= p {
      MulMonotone(p, q, back);
    }
  }

  /** The two halves of a rotation have no bit in common, and together they fill the word. */
  lemma Halves(x: Word, k: nat)
    requires 0 < k < 64
    ensures 0 <= x * Pow2(k) % MODULUS + x / Pow2(64 - k) < MODULUS
  {
    Modulus();
    Pow2Add(64 - k, k);
    hide Pow2;
    HalvesBy(x, Pow2(k), Pow2(64 - k));
  }

  /** The bits shifted out on the left come back on the right. */
  function Rot(x: Word, k: nat): Word
    requires 0 < k < 64
  {
    Halves(x, k);
    x * Pow2(k) % MODULUS + x / Pow2(64 - k)
  }

  function Ran(x: Context): Context {
    var e := Sub(x.a, Rot(x.b, 7));
    var a := Xor(x.b, Rot(x.c, 13));
    Context(a, Add(x.c, Rot(x.d, 37)), Add(x.d, e), Add(e, a))
  }

  /** One step back. */
  function Unran(y: Context): Context {
    var e := Sub(y.d, y.a);
    var d := Sub(y.c, e);
    var c := Sub(y.b, Rot(d, 37));
    var b := Xor(y.a, Rot(c, 13));
    Context(Add(e, Rot(b, 7)), b, c, d)
  }

  lemma AddSub(x: Word, y: Word)
    ensures Sub(Add(x, y), y) == x && Add(Sub(x, y), y) == x
  {
  }

  lemma {:induction false} XorBitsTwice(x: nat, y: nat, n: nat)
    requires x < Pow2(n)
    ensures XorBits(XorBits(x, y, n), y, n) == x
  {
    if n > 0 {
      assert x / 2 < Pow2(n - 1);
      hide Pow2, XorBits;
      XorBitsTwice(x / 2, y / 2, n - 1);
      var z := XorBits(x, y, n);
      XorDown(x, y, n);
      XorDown(z, y, n);
      XorBitBack(x % 2, y % 2);
    }
  }

  lemma XorDown(x: nat, y: nat, n: nat)
    requires n > 0
    ensures XorBits(x, y, n) / 2 == XorBits(x / 2, y / 2, n - 1) && XorBits(x, y, n) % 2 == (x % 2 + y % 2) % 2
  {
    var half, bit := XorBits(x / 2, y / 2, n - 1), (x % 2 + y % 2) % 2;
    assert XorBits(x, y, n) == half * 2 + bit;
    hide Pow2, XorBits;
    DivModUnique(half * 2 + bit, 2, half, bit);
  }

  lemma XorBitBack(a: nat, b: nat)
    requires a < 2 && b < 2
    ensures ((a + b) % 2 + b) % 2 == a
  {
  }

  lemma XorTwice(x: Word, y: Word)
    ensures Xor(Xor(x, y), y) == x
  {
    Modulus();
    XorBitsTwice(x, y, 64);
  }

  // ----- the operators, bit by bit -----

  lemma {:induction false} BitsOfNum(s: Bits)
    ensures BitsOf(|s|, Num(s)) == s
  {
    if s != [] {
      var front := s[..|s| - 1];
      BitsOfNum(front);
      assert Num(s) / 2 == Num(front);
      assert s == front + [s[|s| - 1]];
    }
  }

  lemma NumOfWord(x: Word)
    ensures Num(BitsOf(64, x)) == x
  {
    Modulus();
    NumBitsOf(64, x);
  }

  lemma SplitWord(x: nat, high: nat, low: nat, p: nat, back: nat)
    requires x == high * back + low && low < back && p > 0 && back * p == MODULUS
    ensures x * p % MODULUS + x / back == low * p + high
  {
    DivModUnique(x, back, high, low);
    Shares(high, back, low, p);
    MulLess(low, back, p);
    assert low * p >= 0;
    DivModUnique(x * p, MODULUS, high, low * p);
  }

  /** A rotation takes the k bits at the front to the back. */
  lemma RotIsRotation(x: Word, k: nat)
    requires 0 < k < 64
    ensures BitsOf(64, Rot(x, k)) == BitsOf(64, x)[k..] + BitsOf(64, x)[..k]
  {
    hide Num, BitsOf, Pow2;
    var s := BitsOf(64, x);
    var front, back := s[..k], s[k..];
    assert s == front + back;
    NumOfWord(x);
    NumConcat(front, back);
    NumBound(back);
    Modulus();
    Pow2Add(64 - k, k);
    SplitWord(x, Num(front), Num(back), Pow2(k), Pow2(64 - k));
    NumConcat(back, front);
    BitsOfNum(back + front);
  }

  /** Exclusive or: a bit is set where exactly one of the operands has it. */
  lemma {:induction false} XorIsBitwise(x: nat, y: nat, n: nat, i: nat)
    requires i < n
    ensures BitsOf(n, XorBits(x, y, n))[i] <==> BitsOf(n, x)[i] != BitsOf(n, y)[i]
    decreases n
  {
    hide Pow2;
    XorDown(x, y, n);
    if i < n - 1 {
      XorIsBitwise(x / 2, y / 2, n - 1, i);
    }
  }

  lemma RotOfBit(k: nat)
    requires 0 < k < 64
    ensures Rot(0, k) == 0 && Rot(1, k) == Pow2(k)
  {
    Modulus();
    Pow2Add(64 - k, k);
    assert Pow2(64 - k) == 2 * Pow2(63 - k);
    hide Pow2;
    SplitWord(0, 0, 0, Pow2(k), Pow2(64 - k));
    SplitWord(1, 0, 1, Pow2(k), Pow2(64 - k));
  }

  lemma {:induction false} XorWithZero(x: nat, n: nat)
    requires x < Pow2(n)
    ensures XorBits(x, 0, n) == x && XorBits(0, x, n) == x
    decreases n
  {
    if n > 0 {
      assert x / 2 < Pow2(n - 1);
      XorWithZero(x / 2, n - 1);
    }
  }

  lemma XorZero(x: Word)
    ensures Xor(x, 0) == x && Xor(0, x) == x
  {
    Modulus();
    XorWithZero(x, 64);
  }

  /** One step from each state that holds a single 1: what the constants 7, 13 and 37 turn, and where it goes. */
  lemma KnownSteps()
    ensures Ran(Context(1, 0, 0, 0)) == Context(0, 0, 1, 1)
    ensures Ran(Context(0, 1, 0, 0)) == Context(1, 0, MODULUS - 0x80, MODULUS - 0x7F)
    ensures Ran(Context(0, 0, 1, 0)) == Context(0x2000, 1, 0, 0x2000)
    ensures Ran(Context(0, 0, 0, 1)) == Context(0, 0x20_0000_0000, 1, 0)
  {
    hide Rot, Xor;
    Pow2Values();
    assert Pow2(13) == Pow2(9) * 16 && Pow2(37) == Pow2(32) * 32 by {
      Pow2Add(9, 4);
      Pow2Add(32, 5);
    }
    RotOfBit(7);
    RotOfBit(13);
    RotOfBit(37);
    XorZero(0);
    XorZero(1);
    XorZero(0x2000);
  }

  lemma RanThenUnran(x: Context)
    ensures Unran(Ran(x)) == x
  {
    hide Rot, Add, Sub, Xor;
    var y := Ran(x);
    var e := Sub(x.a, Rot(x.b, 7));
    AddSub(e, y.a);
    AddSub(x.d, e);
    AddSub(x.c, Rot(x.d, 37));
    XorTwice(x.b, Rot(x.c, 13));
    AddSub(x.a, Rot(x.b, 7));
  }

  lemma UnranThenRan(y: Context)
    ensures Ran(Unran(y)) == y
  {
    hide Rot, Add, Sub, Xor;
    var x := Unran(y);
    var e := Sub(y.d, y.a);
    AddSub(e, Rot(x.b, 7));
    XorTwice(y.a, Rot(x.c, 13));
    AddSub(y.b, Rot(x.d, 37));
    AddSub(y.c, e);
    AddSub(y.d, y.a);
  }

  function After(x: Context, n: nat): Context
    decreases n
  {
    if n == 0 then x else After(Ran(x), n - 1)
  }

  lemma AfterStep(x: Context, n: nat)
    ensures After(x, n) == if n == 0 then x else After(Ran(x), n - 1)
  {
  }

  /** No two states ever run into each other, whatever their seeds: the generator permutes its states. */
  lemma {:induction false} RunsNeverMeet(x: Context, y: Context, n: nat)
    requires After(x, n) == After(y, n)
    ensures x == y
    decreases n
  {
    if n > 0 {
      hide Ran, Unran;
      RunsNeverMeet(Ran(x), Ran(y), n - 1);
      RanThenUnran(x);
      RanThenUnran(y);
    }
  }

  /** Every state is reached from some state in n steps. */
  lemma {:induction false} EveryStateReached(y: Context, n: nat) returns (x: Context)
    ensures After(x, n) == y
    decreases n
  {
    x := y;
    if n > 0 {
      hide Ran, Unran;
      var before := EveryStateReached(y, n - 1);
      x := Unran(before);
      UnranThenRan(before);
    }
  }

  /** r64i: the value drawn, without its lowest bit, so that it is never negative. */
  function R64i(x: Context): (r: nat) {
    Ran(x).d / 2
  }

  /** The next n values. */
  function Draws(x: Context, n: nat): (r: seq<nat>)
    ensures |r| == n
    decreases n
  {
    if n == 0 then [] else [R64i(x)] + Draws(Ran(x), n - 1)
  }

  lemma {:induction false} AfterSnoc(x: Context, n: nat)
    ensures After(x, n + 1) == Ran(After(x, n))
    ensures Draws(x, n + 1) == Draws(x, n) + [R64i(After(x, n))]
    decreases n
  {
    hide Ran, R64i;
    if n > 0 {
      AfterSnoc(Ran(x), n - 1);
    } else {
      assert Draws(x, 1) == [R64i(x)] + Draws(Ran(x), 0);
    }
  }

  class Generator {
    var a: Word
    var b: Word
    var c: Word
    var d: Word

    function Value(): Context
      reads this
    {
      Context(a, b, c, d)
    }

    method Ranval() returns (r: Word)
      modifies this
      ensures Value() == Ran(old(Value())) && r == d
    {
      hide Rot, Add, Sub, Xor;
      var e := Sub(a, Rot(b, 7));
      a := Xor(b, Rot(c, 13));
      b := Add(c, Rot(d, 37));
      c := Add(d, e);
      d := Add(e, a);
      r := d;
    }

    /** Values that are drawn and dropped. */
    method Skip(n: nat)
      modifies this
      ensures Value() == After(old(Value()), n)
    {
      hide *;
      ghost var start := Value();
      AfterStep(start, 0);
      for i := 0 to n
        invariant Value() == After(start, i)
      {
        AfterSnoc(start, i);
        var _ := Ranval();
      }
    }

    /** Twenty values are drawn and dropped. */
    constructor Raninit(seed: Word)
      ensures Value() == After(Context(0xf1ea5eed, seed, seed, seed), 20)
    {
      a := 0xf1ea5eed;
      b, c, d := seed, seed, seed;
      new;
      hide *;
      assert Value() == Context(0xf1ea5eed, seed, seed, seed);
      Skip(20);
    }

    method NextR64i() returns (r: nat)
      modifies this
      ensures Value() == Ran(old(Value())) && r == R64i(old(Value()))
    {
      var v := Ranval();
      r := v / 2;
    }
  }
}
