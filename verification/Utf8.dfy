/** UTF-8 as `TextEncoder` and the default `TextDecoder` have it (WHATWG Encoding Standard, section 8.1):
    ill-formed input decodes to U+FFFD and a leading byte order mark is dropped. A string is a sequence
    of Unicode scalar values. */
module Utf8 {
  import opened Bytes

  const REPLACEMENT: char := '\U{FFFD}'
  const BOM: char := '\U{FEFF}'

  function EncodeChar(c: char): (bs: seq<byte>)
    ensures 1 <= |bs| <= 4
  {
    var n := c as int;
    if n < 0x80 then [n as byte]
    else if n < 0x800 then [(0xC0 + n / 64) as byte, (0x80 + n % 64) as byte]
    else if n < 0x1_0000 then [(0xE0 + n / 4096) as byte, (0x80 + n / 64 % 64) as byte, (0x80 + n % 64) as byte]
    else [(0xF0 + n / 262144) as byte, (0x80 + n / 4096 % 64) as byte, (0x80 + n / 64 % 64) as byte, (0x80 + n % 64) as byte]
  }

  function Encode(s: string): seq<byte> {
    if s == "" then [] else EncodeChar(s[0]) + Encode(s[1..])
  }

  predicate Tail(b: byte) { 0x80 <= b <= 0xBF }

  /** The first character of a byte string, and how many bytes it takes. */
  function DecodeChar(bs: seq<byte>): (r: (char, nat))
    requires bs != []
    ensures 1 <= r.1 <= |bs|
  {
    var b := bs[0] as int;
    if b < 0x80 then (b as char, 1)
    else if 0xC2 <= b <= 0xDF then
      if |bs| < 2 || !Tail(bs[1]) then (REPLACEMENT, 1)
      else (((b - 0xC0) * 64 + (bs[1] as int - 0x80)) as char, 2)
    else if 0xE0 <= b <= 0xEF then
      var lower: byte := if b == 0xE0 then 0xA0 else 0x80;
      var upper: byte := if b == 0xED then 0x9F else 0xBF;
      if |bs| < 2 || !(lower <= bs[1] <= upper) then (REPLACEMENT, 1)
      else if |bs| < 3 || !Tail(bs[2]) then (REPLACEMENT, 2)
      else (((b - 0xE0) * 4096 + (bs[1] as int - 0x80) * 64 + (bs[2] as int - 0x80)) as char, 3)
    else if 0xF0 <= b <= 0xF4 then
      var lower: byte := if b == 0xF0 then 0x90 else 0x80;
      var upper: byte := if b == 0xF4 then 0x8F else 0xBF;
      if |bs| < 2 || !(lower <= bs[1] <= upper) then (REPLACEMENT, 1)
      else if |bs| < 3 || !Tail(bs[2]) then (REPLACEMENT, 2)
      else if |bs| < 4 || !Tail(bs[3]) then (REPLACEMENT, 3)
      else
        (((b - 0xF0) * 262144 + (bs[1] as int - 0x80) * 4096 + (bs[2] as int - 0x80) * 64 + (bs[3] as int - 0x80)) as char, 4)
    else (REPLACEMENT, 1)
  }

  function DecodeAll(bs: seq<byte>): string
    decreases |bs|
  {
    if bs == [] then "" else
    var (c, n) := DecodeChar(bs);
    [c] + DecodeAll(bs[n..])
  }

  /** `new TextDecoder().decode(bs)`. */
  function Decode(bs: seq<byte>): string {
    if |bs| >= 3 && bs[..3] == [0xEF, 0xBB, 0xBF] then DecodeAll(bs[3..]) else DecodeAll(bs)
  }

  lemma DecodeTwo(n: nat, rest: seq<byte>)
    requires 0x80 <= n < 0x800
    ensures DecodeChar([(0xC0 + n / 64) as byte, (0x80 + n % 64) as byte] + rest) == (n as char, 2)
  {
  }

  lemma DecodeThree(n: nat, rest: seq<byte>)
    requires 0x800 <= n < 0x1_0000 && !(0xD800 <= n < 0xE000)
    ensures DecodeChar([(0xE0 + n / 4096) as byte, (0x80 + n / 64 % 64) as byte, (0x80 + n % 64) as byte] + rest) == (n as char, 3)
  {
    var a, b, c := n / 4096, n / 64 % 64, n % 64;
    assert n == a * 4096 + b * 64 + c;
    DecodeThreeParts(a, b, c, rest);
  }

  lemma DecodeThreeParts(a: nat, b: nat, c: nat, rest: seq<byte>)
    requires a < 16 && b < 64 && c < 64 && (a == 0 ==> b >= 32) && (a == 13 ==> b < 32)
    ensures DecodeChar([(0xE0 + a) as byte, (0x80 + b) as byte, (0x80 + c) as byte] + rest) == ((a * 4096 + b * 64 + c) as char, 3)
  {
    var bs := [(0xE0 + a) as byte, (0x80 + b) as byte, (0x80 + c) as byte] + rest;
    assert bs[0] == (0xE0 + a) as byte && bs[1] == (0x80 + b) as byte && bs[2] == (0x80 + c) as byte;
  }

  lemma DecodeFour(n: nat, rest: seq<byte>)
    requires 0x1_0000 <= n < 0x11_0000
    ensures DecodeChar([(0xF0 + n / 262144) as byte, (0x80 + n / 4096 % 64) as byte, (0x80 + n / 64 % 64) as byte, (0x80 + n % 64) as byte] + rest)
            == (n as char, 4)
  {
    hide DecodeChar;
    FourDigits(n);
    DecodeFourParts(n / 262144, n / 4096 % 64, n / 64 % 64, n % 64, rest);
  }

  lemma FourDigits(n: nat)
    requires 0x1_0000 <= n < 0x11_0000
    ensures var (a, b, c, d) := (n / 262144, n / 4096 % 64, n / 64 % 64, n % 64);
            n == a * 262144 + b * 4096 + c * 64 + d && a <= 4 && b < 64 && c < 64 && (a == 0 ==> b >= 16) && (a == 4 ==> b < 16)
  {
    var x, y := n / 64, n / 4096;
    assert n == 64 * x + n % 64 && x == 64 * (x / 64) + x % 64 && x / 64 == y;
    assert y == 64 * (y / 64) + y % 64 && y / 64 == n / 262144;
  }

  lemma DecodeFourParts(a: nat, b: nat, c: nat, d: nat, rest: seq<byte>)
    requires a <= 4 && b < 64 && c < 64 && d < 64 && (a == 0 ==> b >= 16) && (a == 4 ==> b < 16)
    ensures DecodeChar([(0xF0 + a) as byte, (0x80 + b) as byte, (0x80 + c) as byte, (0x80 + d) as byte] + rest)
            == ((a * 262144 + b * 4096 + c * 64 + d) as char, 4)
  {
    var bs := [(0xF0 + a) as byte, (0x80 + b) as byte, (0x80 + c) as byte, (0x80 + d) as byte] + rest;
    assert bs[0] == (0xF0 + a) as byte && bs[1] == (0x80 + b) as byte && bs[2] == (0x80 + c) as byte && bs[3] == (0x80 + d) as byte;
  }

  lemma DecodeCharRoundTrip(c: char, rest: seq<byte>)
    ensures DecodeChar(EncodeChar(c) + rest) == (c, |EncodeChar(c)|)
  {
    var n := c as int;
    if 0x80 <= n < 0x800 {
      DecodeTwo(n, rest);
    } else if 0x800 <= n < 0x1_0000 {
      DecodeThree(n, rest);
    } else if 0x1_0000 <= n {
      DecodeFour(n, rest);
    }
  }

  lemma {:induction false} DecodeAllRoundTrip(s: string)
    ensures DecodeAll(Encode(s)) == s
  {
    if s != "" {
      DecodeCharRoundTrip(s[0], Encode(s[1..]));
      assert Encode(s)[|EncodeChar(s[0])|..] == Encode(s[1..]);
      DecodeAllRoundTrip(s[1..]);
    }
  }

  predicate LeadingBom(s: string) { s != "" && s[0] == BOM }

  /** What a string is once encoded and decoded: a leading U+FEFF is lost. */
  function Kept(s: string): string { if LeadingBom(s) then s[1..] else s }

  lemma BomPrefix(s: string)
    ensures |Encode(s)| >= 3 && Encode(s)[..3] == [0xEF, 0xBB, 0xBF] <==> LeadingBom(s)
  {
    var bs := Encode(s);
    if s != "" {
      DecodeCharRoundTrip(s[0], Encode(s[1..]));
      assert EncodeChar(BOM) == [0xEF, 0xBB, 0xBF];
      if s[0] == BOM {
        assert bs[..3] == EncodeChar(BOM);
      }
    }
    if |bs| >= 3 && bs[..3] == [0xEF, 0xBB, 0xBF] {
      assert bs[0] == bs[..3][0] && bs[1] == bs[..3][1] && bs[2] == bs[..3][2];
      assert DecodeChar(bs).0 == BOM;
    }
  }

  /** Decoding undoes encoding, except that a leading U+FEFF is lost. */
  lemma RoundTrip(s: string)
    ensures Decode(Encode(s)) == Kept(s)
    ensures Decode(Encode(s)) == s <==> !LeadingBom(s)
  {
    BomPrefix(s);
    DecodeAllRoundTrip(s);
    if LeadingBom(s) {
      assert EncodeChar(BOM) == [0xEF, 0xBB, 0xBF];
      assert Encode(s)[3..] == Encode(s[1..]);
      DecodeAllRoundTrip(s[1..]);
    }
  }

  lemma EncodeInjective(s: string, t: string)
    requires Encode(s) == Encode(t)
    ensures s == t
  {
    DecodeAllRoundTrip(s);
    DecodeAllRoundTrip(t);
  }
}
