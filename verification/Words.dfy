/** Fixed-width machine words and big-endian bit strings, as the decoder's C code uses them. */
module Words {

  type Byte = b: int | 0 <= b < 256

  type Bits = seq<bool>

  function Pow2(n: nat): (p: int)
    ensures p >= 1
  {
    if n == 0 then 1 else 2 * Pow2(n - 1)
  }

  lemma {:induction false} Pow2Add(a: nat, b: nat)
    ensures Pow2(a + b) == Pow2(a) * Pow2(b)
  {
    if b == 0 {
    } else {
      Pow2Add(a, b - 1);
      calc {
        Pow2(a + b);
        2 * Pow2(a + (b - 1));
        2 * (Pow2(a) * Pow2(b - 1));
        Pow2(a) * (2 * Pow2(b - 1));
      }
    }
  }

  lemma {:induction false} Pow2Monotone(a: nat, b: nat)
    requires a <= b
    ensures Pow2(a) <= Pow2(b)
    decreases b
  {
    if a < b {
      Pow2Monotone(a, b - 1);
    }
  }

  /** The powers the decoder's masks and shifts name literally. */
  lemma Pow2Values()
    ensures Pow2(7) == 128 && Pow2(8) == 256 && Pow2(9) == 512
    ensures Pow2(15) == 0x8000 && Pow2(16) == 0x1_0000 && Pow2(17) == 0x2_0000
    ensures Pow2(23) == 0x80_0000 && Pow2(24) == 0x100_0000
    ensures Pow2(31) == 0x8000_0000 && Pow2(32) == 0x1_0000_0000
  {
    assert Pow2(4) == 16;
    Pow2Add(4, 4);
    Pow2Add(8, 8);
    Pow2Add(16, 16);
    Pow2Add(16, 8);
  }

  lemma DivModUnique(x: int, m: int, q: int, r: int)
    requires m > 0 && x == q * m + r && 0 <= r < m
    ensures x / m == q && x % m == r
  {
    var q', r' := x / m, x % m;
    assert x == q' * m + r';
    if q' < q {
      MulLess(q', q, m);
    } else if q < q' {
      MulLess(q, q', m);
    }
  }

  lemma DivModIdentity(x: int, m: int)
    requires m > 0
    ensures x == x / m * m + x % m && 0 <= x % m < m
    ensures x >= 0 ==> x / m >= 0
  {
  }

  lemma DivTwice(x: int, a: int, b: int)
    requires a > 0 && b > 0
    ensures x / a / b == x / (a * b)
  {
    DivModIdentity(x, a);
    DivModIdentity(x / a, b);
    var q, r := x / a / b, x / a % b;
    assert x == q * (a * b) + (r * a + x % a);
    MulLess(r, b, a);
    assert r * a >= 0;
    DivModUnique(x, a * b, q, r * a + x % a);
  }

  lemma MulLess(a: int, b: int, m: int)
    requires m > 0 && a < b
    ensures a * m + m <= b * m
  {
    var d := b - a - 1;
    assert d * m >= 0;
    assert b * m == a * m + d * m + m;
  }

  lemma MulMonotone(a: int, b: int, m: int)
    requires a <= b && 0 <= m
    ensures a * m <= b * m
  {
  }

  // ----- two's-complement words -----

  /** The n-bit two's-complement number congruent to v: what remains when v is stored in n bits. */
  function Signed(v: int, n: nat): (r: int)
    requires n >= 1
    ensures -Pow2(n - 1) <= r < Pow2(n - 1)
  {
    (v + Pow2(n - 1)) % Pow2(n) - Pow2(n - 1)
  }

  /** An int32_t, as the compiled code computes it. */
  function Wrap32(v: int): (r: int)
    ensures -0x8000_0000 <= r < 0x8000_0000
  {
    Pow2Values();
    Signed(v, 32)
  }

  predicate Fits(v: int, n: nat)
    requires n >= 1
  {
    -Pow2(n - 1) <= v < Pow2(n - 1)
  }

  predicate AllFit(xs: seq<int>, n: nat)
    requires n >= 1
  {
    forall i :: 0 <= i < |xs| ==> Fits(xs[i], n)
  }

  ghost predicate Congruent(a: int, b: int, n: nat) {
    exists c: int :: a == b + c * Pow2(n)
  }

  lemma CongruentBy(a: int, b: int, n: nat, c: int)
    requires a == b + c * Pow2(n)
    ensures Congruent(a, b, n)
  {
  }

  lemma SignedCongruent(v: int, n: nat)
    requires n >= 1
    ensures Congruent(Signed(v, n), v, n)
  {
    var q := (v + Pow2(n - 1)) / Pow2(n);
    assert v + Pow2(n - 1) == q * Pow2(n) + (v + Pow2(n - 1)) % Pow2(n);
    CongruentBy(Signed(v, n), v, n, -q);
  }

  /** The n-bit word is determined by its residue. */
  lemma SignedUnique(v: int, w: int, n: nat)
    requires n >= 1 && Congruent(v, w, n) && Fits(w, n)
    ensures Signed(v, n) == w
  {
    var c: int :| v == w + c * Pow2(n);
    DivModUnique(v + Pow2(n - 1), Pow2(n), c, w + Pow2(n - 1));
  }

  lemma SignedOfFit(v: int, n: nat)
    requires n >= 1 && Fits(v, n)
    ensures Signed(v, n) == v
  {
    CongruentBy(v, v, n, 0);
    SignedUnique(v, v, n);
  }

  /** Arithmetic that stays in range is not disturbed by being done in an int32_t. */
  lemma WrapOfInt32(v: int)
    requires -0x8000_0000 <= v < 0x8000_0000
    ensures Wrap32(v) == v
  {
    Pow2Values();
    SignedOfFit(v, 32);
  }

  lemma CongruentSum(a: int, b: int, x: int, y: int, n: nat)
    requires Congruent(a, b, n) && Congruent(x, y, n)
    ensures Congruent(a + x, b + y, n) && Congruent(a - x, b - y, n)
  {
    var c: int :| a == b + c * Pow2(n);
    var d: int :| x == y + d * Pow2(n);
    assert (c + d) * Pow2(n) == c * Pow2(n) + d * Pow2(n);
    assert (c - d) * Pow2(n) == c * Pow2(n) - d * Pow2(n);
    CongruentBy(a + x, b + y, n, c + d);
    CongruentBy(a - x, b - y, n, c - d);
  }

  lemma CongruentTrans(a: int, b: int, x: int, n: nat)
    requires Congruent(a, b, n) && Congruent(b, x, n)
    ensures Congruent(a, x, n)
  {
    var c: int :| a == b + c * Pow2(n);
    var d: int :| b == x + d * Pow2(n);
    assert (c + d) * Pow2(n) == c * Pow2(n) + d * Pow2(n);
    CongruentBy(a, x, n, c + d);
  }

  lemma CongruentRefl(a: int, n: nat)
    ensures Congruent(a, a, n)
  {
    CongruentBy(a, a, n, 0);
  }

  lemma CongruentSym(a: int, b: int, n: nat)
    requires Congruent(a, b, n)
    ensures Congruent(b, a, n)
  {
    var c: int :| a == b + c * Pow2(n);
    CongruentBy(b, a, n, -c);
  }

  lemma CongruentNarrow(a: int, b: int, m: nat, n: nat)
    requires n <= m && Congruent(a, b, m)
    ensures Congruent(a, b, n)
  {
    hide Pow2;
    var c: int :| a == b + c * Pow2(m);
    Pow2Add(m - n, n);
    var k, p := Pow2(m - n), Pow2(n);
    assert c * (k * p) == (c * k) * p;
    CongruentBy(a, b, n, c * k);
  }

  /** Equal residues make equal words. */
  lemma SignedOfCongruent(a: int, b: int, n: nat)
    requires n >= 1 && Congruent(a, b, n)
    ensures Signed(a, n) == Signed(b, n)
  {
    SignedCongruent(b, n);
    CongruentSym(Signed(b, n), b, n);
    CongruentTrans(a, b, Signed(b, n), n);
    SignedUnique(a, Signed(b, n), n);
  }

  /** Going through a wider word first loses nothing: wrap-around in 32 bits is invisible to a narrower field. */
  lemma SignedThroughWider(v: int, m: nat, n: nat)
    requires 1 <= n <= m
    ensures Signed(Signed(v, m), n) == Signed(v, n)
  {
    SignedCongruent(v, m);
    CongruentNarrow(Signed(v, m), v, m, n);
    SignedOfCongruent(Signed(v, m), v, n);
  }

  // ----- bit strings, most significant bit first -----

  function Num(s: Bits): nat {
    if s == [] then 0 else 2 * Num(s[..|s| - 1]) + (if s[|s| - 1] then 1 else 0)
  }

  function BitsOf(n: nat, v: int): (s: Bits)
    ensures |s| == n
  {
    if n == 0 then [] else BitsOf(n - 1, v / 2) + [v % 2 == 1]
  }

  lemma {:induction false} NumBound(s: Bits)
    ensures Num(s) < Pow2(|s|)
  {
    if s != [] {
      NumBound(s[..|s| - 1]);
    }
  }

  lemma {:induction false} NumBitsOf(n: nat, v: int)
    requires 0 <= v < Pow2(n)
    ensures Num(BitsOf(n, v)) == v
  {
    if n > 0 {
      NumBitsOf(n - 1, v / 2);
      assert BitsOf(n, v)[..n - 1] == BitsOf(n - 1, v / 2);
    }
  }

  lemma {:induction false} NumConcat(a: Bits, b: Bits)
    ensures Num(a + b) == Num(a) * Pow2(|b|) + Num(b)
  {
    if b == [] {
      assert a + b == a;
    } else {
      var b' := b[..|b| - 1];
      NumConcat(a, b');
      assert (a + b)[..|a + b| - 1] == a + b';
      assert Num(a) * (2 * Pow2(|b'|)) == 2 * (Num(a) * Pow2(|b'|));
    }
  }

  lemma HalveResidue(v: int, n: nat)
    requires n >= 1
    ensures v % Pow2(n) == 2 * (v / 2 % Pow2(n - 1)) + v % 2
  {
    var p, h := Pow2(n - 1), v / 2;
    var q, r := h / p, h % p;
    assert h == q * p + r;
    assert q * (2 * p) == 2 * (q * p);
    DivModUnique(v, 2 * p, q, 2 * r + v % 2);
  }

  /** Only the low n bits of v reach the string. */
  lemma {:induction false} BitsOfResidue(n: nat, v: int)
    ensures Num(BitsOf(n, v)) == v % Pow2(n)
  {
    if n > 0 {
      BitsOfResidue(n - 1, v / 2);
      assert BitsOf(n, v)[..n - 1] == BitsOf(n - 1, v / 2);
      HalveResidue(v, n);
    }
  }

  // ----- occurrences of a bit string at a position -----

  ghost predicate At(s: Bits, pos: nat, e: Bits) {
    pos + |e| <= |s| && s[pos..pos + |e|] == e
  }

  lemma AtConcat(s: Bits, pos: nat, a: Bits, b: Bits)
    ensures At(s, pos, a + b) <==> At(s, pos, a) && At(s, pos + |a|, b)
  {
    var ab := a + b;
    if At(s, pos, ab) {
      assert s[pos..pos + |a|] == s[pos..pos + |ab|][..|a|] == a;
      assert s[pos + |a|..pos + |ab|] == s[pos..pos + |ab|][|a|..] == b;
    }
    if At(s, pos, a) && At(s, pos + |a|, b) {
      assert s[pos..pos + |ab|] == s[pos..pos + |a|] + s[pos + |a|..pos + |ab|];
    }
  }

  lemma AtHead(s: Bits, pos: nat, b: bool, rest: Bits)
    requires At(s, pos, [b] + rest)
    ensures pos < |s| && s[pos] == b && At(s, pos + 1, rest)
  {
    AtConcat(s, pos, [b], rest);
    assert s[pos..pos + 1] == [b];
  }

  // ----- bytes as bits -----

  function Unpack(bytes: seq<Byte>): (s: Bits)
    ensures |s| == 8 * |bytes|
  {
    if bytes == [] then [] else BitsOf(8, bytes[0]) + Unpack(bytes[1..])
  }

  lemma {:induction false} UnpackByte(bytes: seq<Byte>, i: nat)
    requires i < |bytes|
    ensures Unpack(bytes)[8 * i..8 * i + 8] == BitsOf(8, bytes[i])
  {
    if i == 0 {
    } else {
      UnpackByte(bytes[1..], i - 1);
      assert Unpack(bytes)[8 * i..8 * i + 8] == Unpack(bytes[1..])[8 * (i - 1)..8 * (i - 1) + 8];
    }
  }

  function Word24(b0: int, b1: int, b2: int): int {
    b0 * 0x1_0000 + b1 * 0x100 + b2
  }

  lemma CutInThree(s: Bits, p: nat)
    requires p + 24 <= |s|
    ensures s[p..p + 24] == (s[p..p + 8] + s[p + 8..p + 16]) + s[p + 16..p + 24]
  {
  }

  lemma UnpackWindow(bytes: seq<Byte>, i: nat)
    requires i + 3 <= |bytes|
    ensures Num(Unpack(bytes)[8 * i..8 * i + 24]) == Word24(bytes[i], bytes[i + 1], bytes[i + 2])
  {
    CutInThree(Unpack(bytes), 8 * i);
    UnpackByte(bytes, i);
    UnpackByte(bytes, i + 1);
    UnpackByte(bytes, i + 2);
    NumThreeBytes(bytes[i], bytes[i + 1], bytes[i + 2]);
  }

  lemma NumThreeBytes(x: Byte, y: Byte, z: Byte)
    ensures Num((BitsOf(8, x) + BitsOf(8, y)) + BitsOf(8, z)) == Word24(x, y, z)
  {
    hide Num, BitsOf;
    Pow2Values();
    NumBitsOf(8, x);
    NumBitsOf(8, y);
    NumBitsOf(8, z);
    NumConcat(BitsOf(8, x), BitsOf(8, y));
    NumConcat(BitsOf(8, x) + BitsOf(8, y), BitsOf(8, z));
  }

  /** Shifting a two-part number left and keeping 24 bits drops the front part. */
  lemma ShiftAndKeep(front: nat, rest: nat, size: nat, acc: nat)
    requires rest < Pow2(size)
    ensures (front * Pow2(size) + rest) * Pow2(acc) % Pow2(size + acc) == rest * Pow2(acc)
  {
    var p, q, m := Pow2(size), Pow2(acc), Pow2(size + acc);
    Pow2Add(size, acc);
    MulLess(rest, p, q);
    assert (front * p + rest) * q == front * m + rest * q by {
      assert (front * p) * q == front * (p * q);
    }
    assert rest * q >= 0;
    DivModUnique((front * p + rest) * q, m, front, rest * q);
  }

  /** Shifting right again drops what lies behind the wanted bits. */
  lemma ShiftRight(want: nat, back: nat, size: nat, acc: nat)
    requires back < Pow2(size)
    ensures (want * Pow2(size) + back) * Pow2(acc) / Pow2(size + acc) == want
  {
    var p, q, m := Pow2(size), Pow2(acc), Pow2(size + acc);
    Pow2Add(size, acc);
    MulLess(back, p, q);
    assert (want * p + back) * q == want * m + back * q by {
      assert (want * p) * q == want * (p * q);
    }
    assert back * q >= 0;
    DivModUnique((want * p + back) * q, m, want, back * q);
  }

  /** The arithmetic at the heart of a windowed read: shift left past the bits already read, keep 24, shift right. */
  lemma WindowRead(w: Bits, acc: nat, n: nat)
    requires |w| == 24 && acc + n <= 24
    ensures Num(w) * Pow2(acc) % Pow2(24) / Pow2(24 - n) == Num(w[acc..acc + n])
  {
    hide Num, Pow2;
    var a, b, c := w[..acc], w[acc..acc + n], w[acc + n..];
    assert w == a + (b + c);
    NumConcat(a, b + c);
    NumConcat(b, c);
    NumBound(c);
    NumBound(b + c);
    ShiftAndKeep(Num(a), Num(b + c), 24 - acc, acc);
    ShiftRight(Num(b), Num(c), |c|, acc);
  }
}
