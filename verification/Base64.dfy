/** The base64 encoder of common.c, and the decoder of section 4 of RFC 4648 it is inverse to. */
module Base64 {
  import opened Words
  import opened Wrappers

  // The encoding table by the rows of the source.
  const ROW_0 := "ABCDEFGHIJKLM"
  const ROW_1 := "NOPQRSTUVWXYZ"
  const ROW_2 := "abcdefghijklm"
  const ROW_3 := "nopqrstuvwxyz"
  const ROW_4 := "0123456789+/"

  function EncodingTable(): string {
    ROW_0 + ROW_1 + ROW_2 + ROW_3 + ROW_4
  }

  const MOD_TABLE: seq<nat> := [0, 2, 1]

  // ----- the alphabet -----

  type Sextet = v: int | 0 <= v < 64

  function Digit(v: Sextet): char {
    if v < 26 then 'A' + v as char
    else if v < 52 then 'a' + (v - 26) as char
    else if v < 62 then '0' + (v - 52) as char
    else if v == 62 then '+'
    else '/'
  }

  function Value(c: char): Option<Sextet> {
    if 'A' <= c <= 'Z' then Some((c - 'A') as int)
    else if 'a' <= c <= 'z' then Some((c - 'a') as int + 26)
    else if '0' <= c <= '9' then Some((c - '0') as int + 52)
    else if c == '+' then Some(62)
    else if c == '/' then Some(63)
    else None
  }

  lemma DigitValue(v: Sextet)
    ensures Value(Digit(v)) == Some(v) && Digit(v) != '='
  {
  }

  lemma ValueDigit(c: char)
    requires Value(c).Some?
    ensures Digit(Value(c).value) == c
  {
  }

  lemma RowDigits(v: nat)
    requires v < 13
    ensures ROW_0[v] == 'A' + v as char && ROW_1[v] == 'N' + v as char
    ensures ROW_2[v] == 'a' + v as char && ROW_3[v] == 'n' + v as char
    ensures v < 10 ==> ROW_4[v] == '0' + v as char
    ensures ROW_4[10] == '+' && ROW_4[11] == '/'
  {
  }

  lemma TableRows(v: Sextet)
    ensures |EncodingTable()| == 64
    ensures EncodingTable()[v] == if v < 13 then ROW_0[v] else if v < 26 then ROW_1[v - 13]
                                 else if v < 39 then ROW_2[v - 26] else if v < 52 then ROW_3[v - 39] else ROW_4[v - 52]
  {
  }

  lemma TableIsDigit(v: Sextet)
    ensures |EncodingTable()| == 64 && EncodingTable()[v] == Digit(v)
  {
    TableRows(v);
    if v < 13 {
      RowDigits(v);
    } else if v < 26 {
      RowDigits(v - 13);
    } else if v < 39 {
      RowDigits(v - 26);
    } else if v < 52 {
      RowDigits(v - 39);
    } else {
      RowDigits(v - 52);
    }
  }

  // ----- encoding -----

  function Triple(a: Byte, b: Byte, c: Byte): (t: int)
    ensures 0 <= t < 0x100_0000
  {
    a * 0x1_0000 + b * 0x100 + c
  }

  function Group(a: Byte, b: Byte, c: Byte): (s: string)
    ensures |s| == 4
  {
    var t := Triple(a, b, c);
    [Digit(t / 0x4_0000), Digit(t / 0x1000 % 64), Digit(t / 64 % 64), Digit(t % 64)]
  }

  function Encode(data: seq<Byte>): string {
    if |data| == 0 then ""
    else if |data| == 1 then Group(data[0], 0, 0)[..2] + "=="
    else if |data| == 2 then Group(data[0], data[1], 0)[..3] + "="
    else Group(data[0], data[1], data[2]) + Encode(data[3..])
  }

  // ----- decoding -----

  /** The bytes of four digits. */
  function Bytes(p: Sextet, q: Sextet, r: Sextet, s: Sextet): (bytes: seq<Byte>)
    ensures |bytes| == 3
  {
    [p * 4 + q / 16, q % 16 * 16 + r / 4, r % 4 * 64 + s]
  }

  /** Only whole groups; padding only at the end, and then no bits set that encode nothing. */
  function Decode(s: string): Option<seq<Byte>> {
    if |s| == 0 then Some([])
    else if |s| < 4 then None
    else if |s| == 4 && s[3] == '=' then DecodeLast(s)
    else
      var p, q, r, t, rest := Value(s[0]), Value(s[1]), Value(s[2]), Value(s[3]), Decode(s[4..]);
      if p.Some? && q.Some? && r.Some? && t.Some? && rest.Some? then
        Some(Bytes(p.value, q.value, r.value, t.value) + rest.value)
      else None
  }

  function DecodeLast(s: string): Option<seq<Byte>>
    requires |s| == 4
  {
    var p, q, r := Value(s[0]), Value(s[1]), if s[2] == '=' then Some(0) else Value(s[2]);
    if p.Some? && q.Some? && r.Some? then
      var bytes := Bytes(p.value, q.value, r.value, 0);
      if s[2] == '=' then (if bytes[1] == 0 then Some(bytes[..1]) else None)
      else if bytes[2] == 0 then Some(bytes[..2])
      else None
    else None
  }

  lemma TripleDigits(a: Byte, b: Byte, c: Byte)
    ensures
      var t := Triple(a, b, c);
      && t / 0x4_0000 == a / 4
      && t / 0x1000 % 64 == a % 4 * 16 + b / 16
      && t / 64 % 64 == b % 16 * 4 + c / 64
      && t % 64 == c % 64
  {
    var t := Triple(a, b, c);
    DivModUnique(t, 0x4_0000, a / 4, a % 4 * 0x1_0000 + b * 0x100 + c);
    DivModUnique(t, 0x1000, a * 16 + b / 16, b % 16 * 0x100 + c);
    DivModUnique(a * 16 + b / 16, 64, a / 4, a % 4 * 16 + b / 16);
    DivModUnique(t, 64, a * 1024 + b * 4 + c / 64, c % 64);
    DivModUnique(a * 1024 + b * 4 + c / 64, 64, a * 16 + b / 16, b % 16 * 4 + c / 64);
  }

  lemma GroupIs(a: Byte, b: Byte, c: Byte)
    ensures Group(a, b, c) == [Digit(a / 4), Digit(a % 4 * 16 + b / 16), Digit(b % 16 * 4 + c / 64), Digit(c % 64)]
  {
    hide Triple, Digit;
    TripleDigits(a, b, c);
  }

  lemma EndsOf(a: Byte, b: Byte)
    ensures Encode([a]) == [Digit(a / 4), Digit(a % 4 * 16)] + "=="
    ensures Encode([a, b]) == [Digit(a / 4), Digit(a % 4 * 16 + b / 16), Digit(b % 16 * 4)] + "="
  {
    hide Digit, Group;
    GroupIs(a, 0, 0);
    GroupIs(a, b, 0);
  }

  lemma GroupThen(a: Byte, b: Byte, c: Byte, rest: seq<Byte>)
    ensures Encode([a, b, c] + rest)
            == [Digit(a / 4), Digit(a % 4 * 16 + b / 16), Digit(b % 16 * 4 + c / 64), Digit(c % 64)] + Encode(rest)
  {
    hide Digit, Group;
    GroupIs(a, b, c);
    assert ([a, b, c] + rest)[3..] == rest;
  }

  lemma FooDigits()
    ensures Digit(25) == 'Z' && Digit(32) == 'g' && Digit(38) == 'm' && Digit(60) == '8'
    ensures Digit(61) == '9' && Digit(47) == 'v' && Digit(24) == 'Y'
    ensures Digit(4) == 'E' && Digit(5) == 'F' && Digit(50) == 'y'
  {
  }

  /** The examples of section 10 of RFC 4648, "f" to "foobar". */
  lemma KnownEncodings()
    ensures Encode([102]) == "Zg=="
    ensures Encode([102, 111]) == "Zm8="
    ensures Encode([102, 111, 111] + []) == "Zm9v"
    ensures Encode([102, 111, 111] + [98]) == "Zm9vYg=="
    ensures Encode([102, 111, 111] + [98, 97]) == "Zm9vYmE="
    ensures Encode([102, 111, 111] + ([98, 97, 114] + [])) == "Zm9vYmFy"
  {
    hide Encode, Digit, Group;
    FooDigits();
    EndsOf(102, 111);
    EndsOf(98, 97);
    GroupThen(102, 111, 111, []);
    GroupThen(102, 111, 111, [98]);
    GroupThen(102, 111, 111, [98, 97]);
    GroupThen(98, 97, 114, []);
    GroupThen(102, 111, 111, [98, 97, 114] + []);
    NothingEncoded();
  }

  lemma NothingEncoded()
    ensures Encode([]) == ""
  {
  }

  lemma GroupBytes(a: Byte, b: Byte, c: Byte)
    ensures Bytes(a / 4, a % 4 * 16 + b / 16, b % 16 * 4 + c / 64, c % 64) == [a, b, c]
  {
    DivModUnique(a % 4 * 16 + b / 16, 16, a % 4, b / 16);
    DivModUnique(b % 16 * 4 + c / 64, 4, b % 16, c / 64);
  }

  lemma BytesGroup(p: Sextet, q: Sextet, r: Sextet, s: Sextet)
    ensures
      var bytes := Bytes(p, q, r, s);
      Group(bytes[0], bytes[1], bytes[2]) == [Digit(p), Digit(q), Digit(r), Digit(s)]
  {
    hide Digit, Group;
    var bytes := Bytes(p, q, r, s);
    GroupIs(bytes[0], bytes[1], bytes[2]);
    DivModUnique(bytes[0], 4, p, q / 16);
    DivModUnique(bytes[1], 16, q % 16, r / 4);
    DivModUnique(bytes[2], 64, r % 4, s);
  }

  // ----- the two are inverse -----

  lemma GroupValues(a: Byte, b: Byte, c: Byte)
    ensures
      var g := Group(a, b, c);
      && Value(g[0]) == Some(a / 4)
      && Value(g[1]) == Some(a % 4 * 16 + b / 16)
      && Value(g[2]) == Some(b % 16 * 4 + c / 64)
      && Value(g[3]) == Some(c % 64)
      && forall k :: 0 <= k < 4 ==> g[k] != '='
  {
    hide Digit, Group, Value;
    GroupIs(a, b, c);
    DigitValue(a / 4);
    DigitValue(a % 4 * 16 + b / 16);
    DigitValue(b % 16 * 4 + c / 64);
    DigitValue(c % 64);
  }

  lemma DecodeGroup(a: Byte, b: Byte, c: Byte, rest: string)
    requires Decode(rest).Some?
    ensures Decode(Group(a, b, c) + rest) == Some([a, b, c] + Decode(rest).value)
  {
    var s := Group(a, b, c) + rest;
    GroupValues(a, b, c);
    GroupBytes(a, b, c);
    hide Group, Value, Bytes;
    assert s[4..] == rest;
  }

  lemma DecodeOne(a: Byte)
    ensures Decode(Group(a, 0, 0)[..2] + "==") == Some([a])
  {
    var g := Group(a, 0, 0);
    GroupValues(a, 0, 0);
    GroupBytes(a, 0, 0);
    hide Group, Value, Bytes;
    var s := g[..2] + "==";
    assert s[0] == g[0] && s[1] == g[1] && s[2] == '=' && s[3] == '=';
    assert Bytes(a / 4, a % 4 * 16, 0, 0) == [a, 0, 0];
    assert [a, 0, 0][..1] == [a];
    assert DecodeLast(s) == Some([a]);
  }

  lemma DecodeTwo(a: Byte, b: Byte)
    ensures Decode(Group(a, b, 0)[..3] + "=") == Some([a, b])
  {
    var g := Group(a, b, 0);
    GroupValues(a, b, 0);
    GroupBytes(a, b, 0);
    hide Group, Value, Bytes;
    var s := g[..3] + "=";
    assert s[0] == g[0] && s[1] == g[1] && s[2] == g[2] && s[3] == '=';
    assert Bytes(a / 4, a % 4 * 16 + b / 16, b % 16 * 4, 0) == [a, b, 0];
    assert [a, b, 0][..2] == [a, b];
    assert DecodeLast(s) == Some([a, b]);
  }

  /** Decoding what was encoded gives it back. */
  lemma {:induction false} RoundTrip(data: seq<Byte>)
    ensures Decode(Encode(data)) == Some(data)
  {
    hide Decode, Group;
    if |data| == 0 {
      DecodeNone();
    } else if |data| == 1 {
      DecodeOne(data[0]);
      assert data == [data[0]];
    } else if |data| == 2 {
      DecodeTwo(data[0], data[1]);
      assert data == [data[0], data[1]];
    } else {
      RoundTrip(data[3..]);
      DecodeGroup(data[0], data[1], data[2], Encode(data[3..]));
      assert data == [data[0], data[1], data[2]] + data[3..];
    }
  }

  lemma DecodeNone()
    ensures Decode("") == Some([])
  {
  }

  lemma EncodeLast(s: string)
    requires |s| == 4 && s[3] == '=' && DecodeLast(s).Some?
    ensures Encode(DecodeLast(s).value) == s
  {
    hide Value, Digit, Group, Bytes;
    ValueDigit(s[0]);
    ValueDigit(s[1]);
    var p, q := Value(s[0]).value, Value(s[1]).value;
    var r := if s[2] == '=' then 0 else Value(s[2]).value;
    if s[2] != '=' {
      ValueDigit(s[2]);
    }
    BytesGroup(p, q, r, 0);
    BytesEnd(p, q, r);
  }

  lemma BytesEnd(p: Sextet, q: Sextet, r: Sextet)
    ensures r == 0 ==> Bytes(p, q, r, 0)[2] == 0
  {
  }

  /** Every string the decoder accepts is the encoding of what it decodes to, so the encoding is the only one. */
  lemma {:induction false} Canonical(s: string)
    requires Decode(s).Some?
    ensures Encode(Decode(s).value) == s
  {
    if |s| == 0 {
    } else if |s| == 4 && s[3] == '=' {
      EncodeLast(s);
    } else {
      hide Value, Digit, Group, Bytes;
      ValueDigit(s[0]);
      ValueDigit(s[1]);
      ValueDigit(s[2]);
      ValueDigit(s[3]);
      BytesGroup(Value(s[0]).value, Value(s[1]).value, Value(s[2]).value, Value(s[3]).value);
      Canonical(s[4..]);
      var bytes := Bytes(Value(s[0]).value, Value(s[1]).value, Value(s[2]).value, Value(s[3]).value);
      assert (bytes + Decode(s[4..]).value)[3..] == Decode(s[4..]).value;
      assert s == s[..4] + s[4..];
    }
  }

  // ----- length and padding -----

  function OutputLength(n: nat): nat {
    4 * ((n + 2) / 3)
  }

  function Short(n: nat): nat {
    (3 - n % 3) % 3
  }

  lemma ThreeFewer(n: nat)
    requires n > 2
    ensures Short(n) == Short(n - 3) && OutputLength(n) == 4 + OutputLength(n - 3)
  {
  }

  ghost predicate PaddedBy(s: string, n: nat) {
    n <= |s| && forall k :: 0 <= k < |s| ==> (s[k] == '=' <==> k >= |s| - n)
  }

  lemma PaddedAfter(g: string, more: string, n: nat)
    requires PaddedBy(g, 0) && PaddedBy(more, n)
    ensures PaddedBy(g + more, n)
  {
  }

  lemma GroupIsNotPadding(a: Byte, b: Byte, c: Byte)
    ensures PaddedBy(Group(a, b, c), 0) && PaddedBy(Group(a, b, c)[..2], 0) && PaddedBy(Group(a, b, c)[..3], 0)
  {
    GroupValues(a, b, c);
    hide Group, Value;
  }

  /** The output is a whole number of groups, and it ends in as much padding as the last group is short of bytes. */
  lemma {:induction false} Padding(data: seq<Byte>)
    ensures |Encode(data)| == OutputLength(|data|) && PaddedBy(Encode(data), Short(|data|))
  {
    if |data| > 2 {
      ThreeFewer(|data|);
      hide Group, PaddedBy, Short, OutputLength;
      GroupIsNotPadding(data[0], data[1], data[2]);
      Padding(data[3..]);
      PaddedAfter(Group(data[0], data[1], data[2]), Encode(data[3..]), Short(|data|));
    } else if |data| == 2 {
      hide Group;
      GroupIsNotPadding(data[0], data[1], 0);
      PaddedAfter(Group(data[0], data[1], 0)[..3], "=", 1);
    } else if |data| == 1 {
      hide Group;
      GroupIsNotPadding(data[0], 0, 0);
      PaddedAfter(Group(data[0], 0, 0)[..2], "==", 2);
    }
  }

  // ----- the encoder's loops -----

  /** What the main loop writes: bytes past the end count as zero, and nothing is padding yet. */
  function Unpadded(data: seq<Byte>): string {
    if |data| == 0 then ""
    else if |data| == 1 then Group(data[0], 0, 0)
    else if |data| == 2 then Group(data[0], data[1], 0)
    else Group(data[0], data[1], data[2]) + Unpadded(data[3..])
  }

  function Pad(n: nat): (s: string)
    ensures |s| == n
  {
    seq(n, _ => '=')
  }

  lemma TakeConcat(g: string, more: string, n: nat)
    requires n <= |more|
    ensures (g + more)[..|g + more| - n] == g + more[..|more| - n]
  {
  }

  lemma MoreGroups(data: seq<Byte>)
    requires |data| > 2
    ensures Encode(data) == Group(data[0], data[1], data[2]) + Encode(data[3..])
    ensures Unpadded(data) == Group(data[0], data[1], data[2]) + Unpadded(data[3..])
  {
    hide Group;
  }

  lemma LastGroup(data: seq<Byte>)
    requires |data| <= 2
    ensures |Unpadded(data)| == OutputLength(|data|) && Short(|data|) <= |Unpadded(data)|
    ensures Encode(data) == Unpadded(data)[..|Unpadded(data)| - Short(|data|)] + Pad(Short(|data|))
  {
    hide Group;
    assert Pad(2) == "==" && Pad(1) == "=";
  }

  lemma {:induction false} UnpaddedThenPad(data: seq<Byte>)
    ensures |Unpadded(data)| == OutputLength(|data|) && Short(|data|) <= |Unpadded(data)|
    ensures Encode(data) == Unpadded(data)[..|Unpadded(data)| - Short(|data|)] + Pad(Short(|data|))
  {
    hide Group, Short, Pad, OutputLength, Encode, Unpadded;
    if |data| > 2 {
      ThreeFewer(|data|);
      UnpaddedThenPad(data[3..]);
      MoreGroups(data);
      var g, more, short := Group(data[0], data[1], data[2]), Unpadded(data[3..]), Short(|data|);
      TakeConcat(g, more, short);
      Regroup(g, more[..|more| - short], Pad(short));
    } else {
      LastGroup(data);
    }
  }

  lemma UnpaddedNone()
    ensures Unpadded([]) == ""
  {
  }

  lemma UnpaddedStep(data: seq<Byte>, i: nat)
    requires i < |data|
    ensures
      var b := if i + 1 < |data| then data[i + 1] else 0;
      var c := if i + 2 < |data| then data[i + 2] else 0;
      var next := if i + 3 < |data| then i + 3 else |data|;
      Unpadded(data[i..]) == Group(data[i], b, c) + Unpadded(data[next..])
  {
    hide Group;
    var rest := data[i..];
    if |rest| > 2 {
      assert rest[3..] == data[i + 3..];
    } else {
      assert data[|data|..] == [];
    }
  }

  method NextOctet(data: seq<Byte>, i: nat) returns (octet: Byte, next: nat)
    requires i <= |data|
    ensures octet == (if i < |data| then data[i] else 0) && next == if i < |data| then i + 1 else i
  {
    octet, next := 0, i;
    if i < |data| {
      octet, next := data[i], i + 1;
    }
  }

  lemma TopSextet(t: int)
    requires 0 <= t < 0x100_0000
    ensures 0 <= t / 0x4_0000 < 64 && t / 0x4_0000 % 64 == t / 0x4_0000
  {
  }

  lemma GroupLookups(a: Byte, b: Byte, c: Byte)
    ensures |EncodingTable()| == 64
    ensures
      var t := Triple(a, b, c);
      Group(a, b, c) == [EncodingTable()[t / 0x4_0000 % 64], EncodingTable()[t / 0x1000 % 64],
                         EncodingTable()[t / 64 % 64], EncodingTable()[t % 64]]
  {
    hide Digit, EncodingTable, Triple;
    var t := Triple(a, b, c);
    TopSextet(t);
    TableIsDigit(t / 0x4_0000);
    TableIsDigit(t / 0x1000 % 64);
    TableIsDigit(t / 64 % 64);
    TableIsDigit(t % 64);
  }

  method PutGroup(encoded: array<char>, j: nat, a: Byte, b: Byte, c: Byte)
    requires j + 4 <= encoded.Length
    modifies encoded
    ensures encoded[..j + 4] == old(encoded[..j]) + Group(a, b, c)
    ensures forall k :: j + 4 <= k < encoded.Length ==> encoded[k] == old(encoded[k])
  {
    GroupLookups(a, b, c);
    hide Group, Triple, EncodingTable;
    var triple := Triple(a, b, c);
    encoded[j] := EncodingTable()[triple / 0x4_0000 % 64];
    encoded[j + 1] := EncodingTable()[triple / 0x1000 % 64];
    encoded[j + 2] := EncodingTable()[triple / 64 % 64];
    encoded[j + 3] := EncodingTable()[triple % 64];
    assert encoded[..j] == old(encoded[..j]);
  }

  /** One turn of the main loop. */
  method EncodeTriple(data: seq<Byte>, start: nat, encoded: array<char>, j: nat) returns (i: nat)
    requires start < |data| && j + |Unpadded(data[start..])| <= encoded.Length
    modifies encoded
    ensures start < i <= |data| && j + 4 + |Unpadded(data[i..])| == j + |Unpadded(data[start..])|
    ensures encoded[..j + 4] + Unpadded(data[i..]) == old(encoded[..j]) + Unpadded(data[start..])
    ensures forall k :: j + 4 <= k < encoded.Length ==> encoded[k] == old(encoded[k])
  {
    UnpaddedStep(data, start);
    hide Unpadded, Group;
    var octetA, octetB, octetC: Byte;
    octetA, i := NextOctet(data, start);
    octetB, i := NextOctet(data, i);
    octetC, i := NextOctet(data, i);
    ghost var done := encoded[..j];
    PutGroup(encoded, j, octetA, octetB, octetC);
    Regroup(done, Group(octetA, octetB, octetC), Unpadded(data[i..]));
  }

  lemma Regroup(done: string, group: string, more: string)
    ensures done + (group + more) == done + group + more
  {
  }

  method PutPadding(encoded: array<char>, length: nat, inputLength: nat)
    requires Short(inputLength) <= length <= encoded.Length
    modifies encoded
    ensures encoded[..length] == old(encoded[..length])[..length - Short(inputLength)] + Pad(Short(inputLength))
    ensures encoded[length..] == old(encoded[length..])
  {
    var short, i := MOD_TABLE[inputLength % 3], 0;
    assert short == Short(inputLength);
    hide Short;
    while i < short
      invariant 0 <= i <= short
      invariant forall k :: 0 <= k < encoded.Length ==>
                  encoded[k] == if length - i <= k < length then '=' else old(encoded[k])
    {
      encoded[length - 1 - i] := '=';
      i := i + 1;
    }
  }

  method EncodeTriples(data: seq<Byte>, encoded: array<char>)
    requires |Unpadded(data)| <= encoded.Length
    modifies encoded
    ensures encoded[..|Unpadded(data)|] == Unpadded(data)
    ensures encoded[|Unpadded(data)|..] == old(encoded[|Unpadded(data)|..])
  {
    UnpaddedNone();
    hide Unpadded;
    var i, j := 0, 0;
    assert data[0..] == data && encoded[..0] == "";
    while i < |data|
      invariant 0 <= i <= |data| && j + |Unpadded(data[i..])| == |Unpadded(data)|
      invariant encoded[..j] + Unpadded(data[i..]) == Unpadded(data)
      invariant forall k :: |Unpadded(data)| <= k < encoded.Length ==> encoded[k] == old(encoded[k])
    {
      i := EncodeTriple(data, i, encoded, j);
      j := j + 4;
    }
    assert data[i..] == [];
  }

  /** Nothing is written when the buffer is too short; otherwise the buffer starts with the encoding and keeps the
      rest. */
  method Base64EncodeSo(data: seq<Byte>, encoded: array<char>, capacity: nat) returns (ok: bool, length: nat)
    requires capacity <= encoded.Length
    modifies encoded
    ensures ok <==> OutputLength(|data|) <= capacity
    ensures ok ==> length == |Encode(data)| <= encoded.Length && encoded[..length] == Encode(data)
                   && encoded[length..] == old(encoded[length..])
    ensures !ok ==> encoded[..] == old(encoded[..]) && length == capacity
  {
    if OutputLength(|data|) > capacity {
      return false, capacity;
    }
    ok, length := true, OutputLength(|data|);
    UnpaddedThenPad(data);
    hide Unpadded, Encode, OutputLength, Short, Pad;
    EncodeTriples(data, encoded);
    PutPadding(encoded, length, |data|);
  }
}
