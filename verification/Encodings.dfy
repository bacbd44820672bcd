/** The text layers of an encrypted credentials value: hexadecimal, base64 (section 4 of RFC 4648)
    and a keystream that is combined bit by bit (section 6.5 of NIST SP 800-38A). */
module Encodings {
  import opened Options
  import opened Arithmetic

  type byte = b: int | 0 <= b < 256

  // ---- Hexadecimal ----------------------------------------------------------

  function HexDigit(v: nat): (c: char)
    requires v < 16
    ensures HexValue(c) == Some(v)
  {
    if v < 10 then '0' + v as char else 'a' + (v - 10) as char
  }

  function HexValue(c: char): (r: Option<nat>)
    ensures r.Some? ==> r.value < 16
  {
    if '0' <= c <= '9' then Some((c - '0') as nat)
    else if 'a' <= c <= 'f' then Some((c - 'a') as nat + 10)
    else if 'A' <= c <= 'F' then Some((c - 'A') as nat + 10)
    else None
  }

  /** The digits in their order. */
  const HEX_DIGITS := "0123456789abcdef"

  lemma HexDigitIs(v: nat)
    requires v < 16
    ensures HexDigit(v) == HEX_DIGITS[v]
  {
  }

  /** Upper case is read too, and nothing else is. */
  lemma HexValueIff(c: char, v: nat)
    ensures HexValue(c) == Some(v) <==>
              v < 16 && (c == HEX_DIGITS[v] || (v >= 10 && c as int == HEX_DIGITS[v] as int - 32))
  {
  }

  function HexEncode(bytes: seq<byte>): (s: string)
    ensures |s| == 2 * |bytes|
  {
    if bytes == [] then "" else [HexDigit(bytes[0] / 16), HexDigit(bytes[0] % 16)] + HexEncode(bytes[1..])
  }

  function HexDecode(s: string): (r: Option<seq<byte>>)
    ensures r.Some? ==> |s| == 2 * |r.value|
  {
    if s == "" then Some([])
    else if |s| == 1 then None
    else
      var high, low, rest := HexValue(s[0]), HexValue(s[1]), HexDecode(s[2..]);
      if high.None? || low.None? || rest.None? then None
      else Some([(16 * high.value + low.value) as byte] + rest.value)
  }

  lemma {:induction false} HexRoundTrip(bytes: seq<byte>)
    ensures HexDecode(HexEncode(bytes)) == Some(bytes)
  {
    if bytes != [] {
      HexRoundTrip(bytes[1..]);
      var s := HexEncode(bytes);
      assert s[2..] == HexEncode(bytes[1..]);
      assert 16 * (bytes[0] / 16) + bytes[0] % 16 == bytes[0];
      assert [bytes[0]] + bytes[1..] == bytes;
    }
  }

  /** Each byte is written as its two digits. */
  lemma {:induction false} HexEncodeAt(bytes: seq<byte>, i: nat)
    requires i < |bytes|
    ensures HexEncode(bytes)[2 * i] == HEX_DIGITS[bytes[i] / 16]
              && HexEncode(bytes)[2 * i + 1] == HEX_DIGITS[bytes[i] % 16]
  {
    var s, rest := HexEncode(bytes), HexEncode(bytes[1..]);
    HexDigitIs(bytes[0] / 16);
    HexDigitIs(bytes[0] % 16);
    assert s[2..] == rest;
    if i > 0 {
      HexEncodeAt(bytes[1..], i - 1);
      assert s[2 * i] == rest[2 * (i - 1)] && s[2 * i + 1] == rest[2 * (i - 1) + 1];
    }
  }

  /** Every text of pairs of digits is read, and no other. */
  lemma {:induction false} HexDecodesIff(s: string)
    ensures HexDecode(s).Some? <==> |s| % 2 == 0 && forall c <- s :: HexValue(c).Some?
  {
    if |s| >= 2 {
      HexDecodesIff(s[2..]);
      assert s == [s[0], s[1]] + s[2..];
    } else if |s| == 1 {
      assert s[0] in s;
    }
  }

  // ---- Base64 ---------------------------------------------------------------

  function Sextet(v: nat): (c: char)
    requires v < 64
    ensures SextetValue(c) == Some(v) && c != '='
  {
    if v < 26 then 'A' + v as char
    else if v < 52 then 'a' + (v - 26) as char
    else if v < 62 then '0' + (v - 52) as char
    else if v == 62 then '+'
    else '/'
  }

  function SextetValue(c: char): (r: Option<nat>)
    ensures r.Some? ==> 0 <= r.value < 64 && c != '='
  {
    if 'A' <= c <= 'Z' then Some((c - 'A') as nat)
    else if 'a' <= c <= 'z' then Some((c - 'a') as nat + 26)
    else if '0' <= c <= '9' then Some((c - '0') as nat + 52)
    else if c == '+' then Some(62)
    else if c == '/' then Some(63)
    else None
  }

  /** Table 1 of RFC 4648: capitals, small letters and digits in their order, then plus and slash. */
  lemma SextetTable(c: char, v: nat)
    requires v < 64
    ensures Sextet(v) == c <==>
              || (v < 26 && c as int == 'A' as int + v) || (26 <= v < 52 && c as int == 'a' as int + v - 26)
              || (52 <= v < 62 && c as int == '0' as int + v - 52) || (v == 62 && c == '+') || (v == 63 && c == '/')
  {
  }

  type sextet = v: int | 0 <= v < 64

  /** The four sextets of three bytes, */
  function Sextet1(x: byte): sextet { x / 4 }
  function Sextet2(x: byte, y: byte): sextet { x % 4 * 16 + y / 16 }
  function Sextet3(y: byte, z: byte): sextet { y % 16 * 4 + z / 64 }
  function Sextet4(z: byte): sextet { z % 64 }

  /** and the three bytes of four sextets. */
  function Byte1(a: sextet, b: sextet): byte { a * 4 + b / 16 }
  function Byte2(b: sextet, c: sextet): byte { b % 16 * 16 + c / 4 }
  function Byte3(c: sextet, d: sextet): byte { c % 4 * 64 + d }

  lemma BySixteen(h: nat, l: nat)
    requires l < 16
    ensures (h * 16 + l) / 16 == h && (h * 16 + l) % 16 == l
  {
  }

  lemma ByFour(h: nat, l: nat)
    requires l < 4
    ensures (h * 4 + l) / 4 == h && (h * 4 + l) % 4 == l
  {
  }

  lemma FirstByte(x: byte, y: byte)
    ensures Byte1(Sextet1(x), Sextet2(x, y)) == x && Sextet2(x, 0) % 16 == 0
  {
    BySixteen(x % 4, y / 16);
    BySixteen(x % 4, 0);
  }

  lemma SecondByte(x: byte, y: byte, z: byte)
    ensures Byte2(Sextet2(x, y), Sextet3(y, z)) == y && Sextet3(y, 0) % 4 == 0
  {
    BySixteen(x % 4, y / 16);
    ByFour(y % 16, z / 64);
    ByFour(y % 16, 0);
  }

  lemma ThirdByte(y: byte, z: byte)
    ensures Byte3(Sextet3(y, z), Sextet4(z)) == z
  {
    ByFour(y % 16, z / 64);
  }

  lemma BytesOfSextets(x: byte, y: byte, z: byte)
    ensures Byte1(Sextet1(x), Sextet2(x, y)) == x
    ensures Byte2(Sextet2(x, y), Sextet3(y, z)) == y
    ensures Byte3(Sextet3(y, z), Sextet4(z)) == z
    ensures Sextet2(x, 0) % 16 == 0 && Sextet3(y, 0) % 4 == 0
  {
    hide Sextet1, Sextet2, Sextet3, Sextet4, Byte1, Byte2, Byte3;
    FirstByte(x, y);
    SecondByte(x, y, z);
    ThirdByte(y, z);
  }

  function Base64Encode(b: seq<byte>): string {
    if b == [] then ""
    else if |b| == 1 then [Sextet(Sextet1(b[0])), Sextet(Sextet2(b[0], 0)), '=', '=']
    else if |b| == 2 then [Sextet(Sextet1(b[0])), Sextet(Sextet2(b[0], b[1])), Sextet(Sextet3(b[1], 0)), '=']
    else [Sextet(Sextet1(b[0])), Sextet(Sextet2(b[0], b[1])), Sextet(Sextet3(b[1], b[2])), Sextet(Sextet4(b[2]))]
         + Base64Encode(b[3..])
  }

  /** Padding is required and the unused bits must be zero. */
  function Base64Decode(s: string): Option<seq<byte>> {
    if s == "" then Some([])
    else if |s| < 4 then None
    else
      var a, b, c, d := SextetValue(s[0]), SextetValue(s[1]), SextetValue(s[2]), SextetValue(s[3]);
      if a.None? || b.None? then None
      else if |s| == 4 && s[2] == '=' && s[3] == '=' then
        if b.value % 16 == 0 then Some([Byte1(a.value, b.value)]) else None
      else if c.None? then None
      else if |s| == 4 && s[3] == '=' then
        if c.value % 4 == 0 then Some([Byte1(a.value, b.value), Byte2(b.value, c.value)]) else None
      else if d.None? then None
      else
        var rest := Base64Decode(s[4..]);
        if rest.None? then None
        else Some([Byte1(a.value, b.value), Byte2(b.value, c.value), Byte3(c.value, d.value)] + rest.value)
  }

  lemma {:induction false} Base64RoundTrip(b: seq<byte>)
    ensures Base64Decode(Base64Encode(b)) == Some(b)
  {
    hide Sextet, SextetValue, Sextet1, Sextet2, Sextet3, Sextet4, Byte1, Byte2, Byte3;
    if |b| == 1 {
      BytesOfSextets(b[0], 0, 0);
      assert b == [b[0]];
    } else if |b| == 2 {
      BytesOfSextets(b[0], b[1], 0);
      assert b == [b[0], b[1]];
    } else if |b| >= 3 {
      Base64RoundTrip(b[3..]);
      BytesOfSextets(b[0], b[1], b[2]);
      assert Base64Encode(b)[4..] == Base64Encode(b[3..]);
      assert b == [b[0], b[1], b[2]] + b[3..];
    }
  }

  /** Only what the encoder writes is read: no missing padding, no stray bits. */
  lemma {:induction false} Base64Canonical(s: string, b: seq<byte>)
    ensures Base64Decode(s) == Some(b) <==> s == Base64Encode(b)
  {
    if s == Base64Encode(b) {
      Base64RoundTrip(b);
    } else if Base64Decode(s) == Some(b) {
      CanonicalOnly(s, b);
    }
  }

  lemma ValueSextet(c: char)
    requires SextetValue(c).Some?
    ensures Sextet(SextetValue(c).value) == c
  {
  }

  /** Sextets and bytes determine each other. */
  lemma SextetsOfBytes(a: sextet, b: sextet, c: sextet, d: sextet)
    ensures Sextet1(Byte1(a, b)) == a && Sextet2(Byte1(a, b), Byte2(b, c)) == b
    ensures Sextet3(Byte2(b, c), Byte3(c, d)) == c && Sextet4(Byte3(c, d)) == d
    ensures c % 4 == 0 ==> Sextet3(Byte2(b, c), 0) == c
  {
  }

  lemma SextetsOfOne(a: sextet, b: sextet)
    requires b % 16 == 0
    ensures Sextet1(Byte1(a, b)) == a && Sextet2(Byte1(a, b), 0) == b
  {
  }

  /** What a group with two padding characters reads. */
  lemma LastGroup(s: string, b: seq<byte>)
    requires |s| == 4 && s[2] == '=' && s[3] == '=' && Base64Decode(s) == Some(b)
    ensures SextetValue(s[0]).Some? && SextetValue(s[1]).Some? && SextetValue(s[1]).value % 16 == 0
    ensures b == [Byte1(SextetValue(s[0]).value, SextetValue(s[1]).value)]
  {
    hide SextetValue, Byte1, Byte2, Byte3;
  }

  lemma OneByteOnly(s: string, b: seq<byte>)
    requires |s| == 4 && s[2] == '=' && s[3] == '=' && Base64Decode(s) == Some(b)
    ensures s == Base64Encode(b)
  {
    hide Base64Decode, Sextet, SextetValue, Sextet1, Sextet2, Byte1;
    LastGroup(s, b);
    ValueSextet(s[0]);
    ValueSextet(s[1]);
    var v0, v1 := SextetValue(s[0]).value, SextetValue(s[1]).value;
    SextetsOfOne(v0, v1);
    assert Base64Encode(b) == [s[0], s[1], '=', '='];
  }

  lemma TwoBytesOnly(s: string, b: seq<byte>)
    requires |s| == 4 && s[2] != '=' && s[3] == '=' && Base64Decode(s) == Some(b)
    ensures s == Base64Encode(b)
  {
    hide Sextet, SextetValue, Sextet1, Sextet2, Sextet3, Byte1, Byte2;
    ValueSextet(s[0]);
    ValueSextet(s[1]);
    ValueSextet(s[2]);
    var v0, v1, v2 := SextetValue(s[0]).value, SextetValue(s[1]).value, SextetValue(s[2]).value;
    SextetsOfBytes(v0, v1, v2, 0);
    assert b == [Byte1(v0, v1), Byte2(v1, v2)];
    assert Base64Encode(b) == [s[0], s[1], s[2], '='];
  }

  /** What a full group of four reads, before the rest. */
  lemma FullGroup(s: string, b: seq<byte>)
    requires |s| >= 4 && !(|s| == 4 && s[3] == '=') && Base64Decode(s) == Some(b)
    ensures SextetValue(s[0]).Some? && SextetValue(s[1]).Some? && SextetValue(s[2]).Some? && SextetValue(s[3]).Some?
    ensures var v0, v1, v2, v3 := SextetValue(s[0]).value, SextetValue(s[1]).value, SextetValue(s[2]).value,
              SextetValue(s[3]).value;
            && Base64Decode(s[4..]).Some?
            && b == [Byte1(v0, v1), Byte2(v1, v2), Byte3(v2, v3)] + Base64Decode(s[4..]).value
  {
    hide SextetValue, Byte1, Byte2, Byte3;
  }

  lemma ThreeBytesFirst(s: string, b: seq<byte>)
    requires |s| >= 4 && !(|s| == 4 && s[3] == '=') && Base64Decode(s) == Some(b)
    ensures |b| >= 3 && Base64Decode(s[4..]) == Some(b[3..])
    ensures s[..4] ==
              [Sextet(Sextet1(b[0])), Sextet(Sextet2(b[0], b[1])), Sextet(Sextet3(b[1], b[2])), Sextet(Sextet4(b[2]))]
  {
    hide Base64Decode, Sextet, SextetValue, Sextet1, Sextet2, Sextet3, Sextet4, Byte1, Byte2, Byte3;
    FullGroup(s, b);
    ValueSextet(s[0]);
    ValueSextet(s[1]);
    ValueSextet(s[2]);
    ValueSextet(s[3]);
    var v0, v1, v2, v3 := SextetValue(s[0]).value, SextetValue(s[1]).value, SextetValue(s[2]).value,
        SextetValue(s[3]).value;
    SextetsOfBytes(v0, v1, v2, v3);
    assert b[0] == Byte1(v0, v1) && b[1] == Byte2(v1, v2) && b[2] == Byte3(v2, v3);
    assert b[3..] == Base64Decode(s[4..]).value;
    assert s[..4] == [s[0], s[1], s[2], s[3]];
  }

  lemma {:induction false} CanonicalOnly(s: string, b: seq<byte>)
    requires Base64Decode(s) == Some(b)
    ensures s == Base64Encode(b)
  {
    if |s| == 4 && s[2] == '=' && s[3] == '=' {
      OneByteOnly(s, b);
    } else if |s| == 4 && s[3] == '=' {
      TwoBytesOnly(s, b);
    } else if s != "" {
      ThreeBytesFirst(s, b);
      CanonicalOnly(s[4..], b[3..]);
      assert s == s[..4] + s[4..];
    }
  }

  /** Base64 text has no white space for `trim` to remove. */
  lemma {:induction false} Base64Printable(b: seq<byte>)
    ensures forall c <- Base64Encode(b) :: c == '=' || SextetValue(c).Some?
  {
    if |b| >= 3 {
      Base64Printable(b[3..]);
    }
  }

  // ---- Keystream ------------------------------------------------------------

  /** Exclusive or of two bytes, bit by bit. */
  function Xor(x: nat, y: nat): nat
    decreases x + y
  {
    if x == 0 then y else if y == 0 then x
    else 2 * Xor(x / 2, y / 2) + (x % 2 + y % 2) % 2
  }

  lemma {:induction false} XorTwice(x: nat, y: nat)
    ensures Xor(Xor(x, y), y) == x
    decreases x + y
  {
    if x + y > 0 {
      XorTwice(x / 2, y / 2);
      hide Xor;
      XorHalves(x, y);
      XorHalves(Xor(x, y), y);
      BitTwice(x % 2, y % 2);
    }
  }

  lemma {:induction false} XorHalves(x: nat, y: nat)
    ensures Xor(x, y) / 2 == Xor(x / 2, y / 2) && Xor(x, y) % 2 == (x % 2 + y % 2) % 2
  {
  }

  lemma BitTwice(a: nat, b: nat)
    requires a < 2 && b < 2
    ensures ((a + b) % 2 + b) % 2 == a
  {
  }

  lemma {:induction false} XorSelf(y: nat)
    ensures Xor(y, y) == 0
  {
    if y != 0 { XorSelf(y / 2); }
  }

  lemma {:induction false} XorZero(x: nat, y: nat)
    requires Xor(x, y) == 0
    ensures x == y
    decreases x + y
  {
    if x != 0 && y != 0 {
      XorZero(x / 2, y / 2);
    }
  }

  lemma {:induction false} XorSmall(k: nat, x: nat, y: nat)
    requires x < Pow2(k) && y < Pow2(k)
    ensures Xor(x, y) < Pow2(k)
  {
    if k > 0 && x != 0 && y != 0 {
      XorSmall(k - 1, x / 2, y / 2);
    }
  }

  function XorByte(x: byte, y: byte): byte {
    assert Pow2(8) == 256;
    XorSmall(8, x, y);
    Xor(x, y)
  }

  /** Combines the data with a keystream. */
  function ApplyKeystream(data: seq<byte>, stream: nat -> byte): (r: seq<byte>)
    ensures |r| == |data|
  {
    seq<byte>(|data|, i requires 0 <= i < |data| => XorByte(data[i], stream(i)))
  }

  /** The bit of `x` with weight two to the `k`. */
  function Bit(x: nat, k: nat): nat {
    x / Pow2(k) % 2
  }

  /** Bit by bit, exclusive or is one exactly where the numbers differ. */
  lemma {:induction false} XorBit(x: nat, y: nat, k: nat)
    ensures Bit(Xor(x, y), k) == if Bit(x, k) == Bit(y, k) then 0 else 1
  {
    hide Xor;
    XorHalves(x, y);
    if k > 0 {
      XorBit(x / 2, y / 2, k - 1);
      HalfBit(x, k);
      HalfBit(y, k);
      HalfBit(Xor(x, y), k);
    }
  }

  lemma HalfBit(x: nat, k: nat)
    requires k > 0
    ensures Bit(x, k) == Bit(x / 2, k - 1)
  {
    HalfTwice(x, Pow2(k - 1));
  }

  lemma HalfTwice(x: nat, p: nat)
    requires p > 0
    ensures x / (2 * p) == x / 2 / p
  {
    var q, r := x / 2 / p, x / 2 % p;
    assert x / 2 == p * q + r;
    assert x == 2 * (p * q + r) + x % 2;
    assert x == 2 * p * q + (2 * r + x % 2) by { assert 2 * (p * q) == 2 * p * q; }
    QuotientIs(x, 2 * p, q, 2 * r + x % 2);
  }

  lemma QuotientIs(x: nat, n: nat, q: nat, r: nat)
    requires n > 0 && x == n * q + r && r < n
    ensures x / n == q
  {
    var d := x / n - q;
    assert n * (x / n) + x % n == n * q + r;
    assert n * d == r - x % n by { assert n * d == n * (x / n) - n * q; }
    SmallMultiple(n, d);
  }

  /** Every bit of the data is flipped exactly where the keystream has a one. */
  lemma KeystreamBit(data: seq<byte>, stream: nat -> byte, i: nat, k: nat)
    requires i < |data|
    ensures Bit(ApplyKeystream(data, stream)[i], k) == if Bit(data[i], k) == Bit(stream(i), k) then 0 else 1
  {
    XorBit(data[i], stream(i), k);
  }

  /** The same keystream applied twice gives the data back. */
  lemma KeystreamTwice(data: seq<byte>, stream: nat -> byte)
    ensures ApplyKeystream(ApplyKeystream(data, stream), stream) == data
  {
    forall i | 0 <= i < |data| ensures XorByte(XorByte(data[i], stream(i)), stream(i)) == data[i] {
      XorTwice(data[i], stream(i));
    }
  }
}
