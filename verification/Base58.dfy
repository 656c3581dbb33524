/** base58btc (src/agentIdentity.ts): byte strings and texts over the alphabet correspond one to one. */
module Base58 {
  import opened Prelude
  import opened Bytes

  // ---------------------------------------------------------------------------
  // Positional notation
  // ---------------------------------------------------------------------------

  predicate Below(ds: seq<nat>, b: nat) { forall d | d in ds :: d < b }

  /** The number a digit sequence writes in base `b`, most significant digit first. */
  function Value(ds: seq<nat>, b: nat): nat {
    if ds == [] then 0 else Value(ds[..|ds| - 1], b) * b + ds[|ds| - 1]
  }

  /** The digits of a number, without leading zeros; zero has none. */
  function Digits(n: nat, b: nat): (ds: seq<nat>)
    requires b >= 2
    ensures Below(ds, b) && (ds != [] ==> ds[0] != 0) && (n != 0 ==> ds != [])
    decreases n
  {
    if n == 0 then []
    else
      DivSmaller(n, b);
      Digits(n / b, b) + [n % b]
  }

  lemma DivSmaller(n: nat, b: nat)
    requires n > 0 && b >= 2
    ensures n / b < n && (n < b ==> n / b == 0 && n % b == n) && (n >= b ==> n / b > 0)
  {
    assert n == b * (n / b) + n % b;
    if n / b >= n {
      MulMonotone(n / b, 2, b);
      assert false;
    }
    if n >= b && n / b == 0 {
      assert false;
    }
  }

  function LeadingZeros(ds: seq<nat>): (z: nat)
    ensures z <= |ds| && (z < |ds| ==> ds[z] != 0) && forall i | 0 <= i < z :: ds[i] == 0
  {
    if ds == [] || ds[0] != 0 then 0 else 1 + LeadingZeros(ds[1..])
  }

  function Zeros(z: nat): (ds: seq<nat>)
    ensures |ds| == z && forall i | 0 <= i < z :: ds[i] == 0
  {
    if z == 0 then [] else [0] + Zeros(z - 1)
  }

  lemma ValueStep(ds: seq<nat>, d: nat, b: nat)
    ensures Value(ds + [d], b) == Value(ds, b) * b + d
  {
    assert (ds + [d])[..|ds|] == ds;
  }

  /** Appending a digit to a number that has some appends it to the digits. */
  lemma DigitsStep(v: nat, d: nat, b: nat)
    requires b >= 2 && d < b && v * b + d > 0
    ensures Digits(v * b + d, b) == Digits(v, b) + [d]
  {
    ModUnique(v * b + d, b, v, d);
  }

  lemma Split(n: nat, b: nat)
    requires b >= 2
    ensures n == (n / b) * b + n % b && n % b < b
  {
  }

  lemma {:induction false} DigitsValue(n: nat, b: nat)
    requires b >= 2
    ensures Value(Digits(n, b), b) == n
    decreases n
  {
    if n > 0 {
      hide Value;
      DivSmaller(n, b);
      DigitsValue(n / b, b);
      ValueStep(Digits(n / b, b), n % b, b);
      Split(n, b);
    } else {
      assert Value([], b) == 0;
    }
  }

  /** Writing out the value of a digit sequence gives it back without its leading zeros. */
  lemma {:induction false} ValueDigits(ds: seq<nat>, b: nat)
    requires b >= 2 && Below(ds, b)
    ensures Digits(Value(ds, b), b) == ds[LeadingZeros(ds)..]
  {
    if ds == [] {
      assert Digits(0, b) == [];
    } else {
      var init, last := ds[..|ds| - 1], ds[|ds| - 1];
      assert last in ds && forall d | d in init :: d in ds;
      ValueDigits(init, b);
      hide Value;
      hide Digits;
      assert ds == init + [last];
      ValueStep(init, last, b);
      LastDigit(init, last, b);
    }
  }

  lemma LastDigit(init: seq<nat>, last: nat, b: nat)
    requires b >= 2 && last < b && Digits(Value(init, b), b) == init[LeadingZeros(init)..]
    ensures Digits(Value(init, b) * b + last, b) == (init + [last])[LeadingZeros(init + [last])..]
  {
    var ds, v := init + [last], Value(init, b);
    hide Value;
    assert ds[..|init|] == init;
    if LeadingZeros(init) < |init| {
      assert Digits(v, b) != [] && Digits(0, b) == [];
      LeadingZerosOfPrefix(ds, |init|);
      hide Digits;
      assert v * b + last > 0 by { MulMonotone(b, 1, v); }
      DigitsStep(v, last, b);
      assert ds[LeadingZeros(ds)..] == init[LeadingZeros(init)..] + [last];
    } else {
      ZeroHasNone(v, b);
      AllZeroBut(ds);
      if last > 0 {
        DigitsStep(0, last, b);
      }
    }
  }

  lemma ZeroHasNone(v: nat, b: nat)
    requires b >= 2 && Digits(v, b) == []
    ensures v == 0
  {
  }

  lemma {:induction false} LeadingZerosOfPrefix(ds: seq<nat>, k: nat)
    requires k <= |ds| && LeadingZeros(ds[..k]) < k
    ensures LeadingZeros(ds) == LeadingZeros(ds[..k])
  {
    if ds[0] == 0 {
      assert ds[..k][1..] == ds[1..][..k - 1];
      LeadingZerosOfPrefix(ds[1..], k - 1);
    }
  }

  lemma {:induction false} AllZeroBut(ds: seq<nat>)
    requires ds != [] && LeadingZeros(ds[..|ds| - 1]) == |ds| - 1
    ensures ds[LeadingZeros(ds)..] == if ds[|ds| - 1] == 0 then [] else [ds[|ds| - 1]]
  {
    hide LeadingZeros;
    var n := |ds| - 1;
    forall i | 0 <= i < n
      ensures ds[i] == 0
    {
      assert ds[..n][i] == 0;
    }
    CountsZeros(ds, if ds[n] == 0 then n + 1 else n);
  }

  /** Leading zeros do not count, and exactly the zeros put in front are found again. */
  lemma {:induction false} ZerosInFront(z: nat, ds: seq<nat>, b: nat)
    requires b >= 2
    ensures Value(Zeros(z) + ds, b) == Value(ds, b)
    ensures ds == [] || ds[0] != 0 ==> LeadingZeros(Zeros(z) + ds) == z && (Zeros(z) + ds)[z..] == ds
    decreases z, |ds|
  {
    var all := Zeros(z) + ds;
    if ds != [] {
      assert all[..|all| - 1] == Zeros(z) + ds[..|ds| - 1];
      ZerosInFront(z, ds[..|ds| - 1], b);
    } else if z > 0 {
      ZerosValue(z, b);
      assert all == Zeros(z);
    }
    if ds == [] || ds[0] != 0 {
      assert forall i | 0 <= i < z :: all[i] == 0;
      assert z < |all| ==> all[z] == ds[0];
    }
  }

  lemma {:induction false} ZerosValue(z: nat, b: nat)
    ensures Value(Zeros(z), b) == 0
  {
    if z > 0 {
      assert Zeros(z)[..z - 1] == Zeros(z - 1);
      ZerosValue(z - 1, b);
    }
  }

  lemma SplitZeros(ds: seq<nat>)
    ensures Zeros(LeadingZeros(ds)) + ds[LeadingZeros(ds)..] == ds
  {
  }

  // ---------------------------------------------------------------------------
  // Bytes and characters as digits
  // ---------------------------------------------------------------------------

  function ByteDigits(bs: seq<byte>): (ds: seq<nat>)
    ensures |ds| == |bs| && Below(ds, 256)
  {
    seq(|bs|, i requires 0 <= i < |bs| => bs[i] as nat)
  }

  function FromByteDigits(ds: seq<nat>): (bs: seq<byte>)
    requires Below(ds, 256)
    ensures |bs| == |ds|
  {
    seq(|ds|, i requires 0 <= i < |ds| => assert ds[i] in ds; ds[i] as byte)
  }

  /** The alphabet: digits and letters without 0, O, I and l. */
  function Char(d: nat): char
    requires d < 58
  {
    if d < 9 then ('1' as int + d) as char
    else if d < 17 then ('A' as int + d - 9) as char
    else if d < 22 then ('J' as int + d - 17) as char
    else if d < 33 then ('P' as int + d - 22) as char
    else if d < 44 then ('a' as int + d - 33) as char
    else ('m' as int + d - 44) as char
  }

  function Index(c: char): (d: Option<nat>)
    ensures d.Some? ==> d.value < 58 && Char(d.value) == c
  {
    if '1' <= c <= '9' then Some(c as int - '1' as int)
    else if 'A' <= c <= 'H' then Some(c as int - 'A' as int + 9)
    else if 'J' <= c <= 'N' then Some(c as int - 'J' as int + 17)
    else if 'P' <= c <= 'Z' then Some(c as int - 'P' as int + 22)
    else if 'a' <= c <= 'k' then Some(c as int - 'a' as int + 33)
    else if 'm' <= c <= 'z' then Some(c as int - 'm' as int + 44)
    else None
  }

  lemma IndexOfChar(d: nat)
    requires d < 58
    ensures Index(Char(d)) == Some(d)
  {
  }

  predicate InAlphabet(text: string) { forall c | c in text :: Index(c).Some? }

  function TextDigits(text: string): (ds: seq<nat>)
    requires InAlphabet(text)
    ensures |ds| == |text| && Below(ds, 58)
  {
    seq(|text|, i requires 0 <= i < |text| => Index(text[i]).value)
  }

  function FromTextDigits(ds: seq<nat>): (text: string)
    requires Below(ds, 58)
    ensures |text| == |ds|
  {
    seq(|ds|, i requires 0 <= i < |ds| => assert ds[i] in ds; Char(ds[i]))
  }

  lemma TextOfDigits(ds: seq<nat>)
    requires Below(ds, 58)
    ensures InAlphabet(FromTextDigits(ds)) && TextDigits(FromTextDigits(ds)) == ds
  {
    var text := FromTextDigits(ds);
    forall i | 0 <= i < |ds|
      ensures Index(text[i]) == Some(ds[i])
    {
      assert ds[i] in ds;
      IndexOfChar(ds[i]);
    }
  }

  // ---------------------------------------------------------------------------
  // The codec
  // ---------------------------------------------------------------------------

  /** As many digits zero as lead, then the number in the other base. */
  function Rebase(ds: seq<nat>, from: nat, to: nat): (es: seq<nat>)
    requires to >= 2
    ensures Below(es, to)
  {
    Zeros(LeadingZeros(ds)) + Digits(Value(ds, from), to)
  }

  /** Changing base and back loses nothing, leading zeros included. */
  lemma RebaseInverse(ds: seq<nat>, a: nat, b: nat)
    requires a >= 2 && b >= 2 && Below(ds, a)
    ensures Rebase(Rebase(ds, a, b), b, a) == ds
  {
    var z, n := LeadingZeros(ds), Value(ds, a);
    ZerosInFront(z, Digits(n, b), b);
    DigitsValue(n, b);
    ValueDigits(ds, a);
    SplitZeros(ds);
  }

  function Encode(bytes: seq<byte>): string { FromTextDigits(Rebase(ByteDigits(bytes), 256, 58)) }

  function Decode(text: string): Option<seq<byte>> {
    if InAlphabet(text) then Some(FromByteDigits(Rebase(TextDigits(text), 58, 256))) else None
  }

  lemma BytesOfDigits(bs: seq<byte>, ds: seq<nat>)
    ensures FromByteDigits(ByteDigits(bs)) == bs
    ensures Below(ds, 256) ==> ByteDigits(FromByteDigits(ds)) == ds
  {
  }

  /** Decoding an encoding returns the bytes, for every byte string. */
  lemma DecodeEncode(bytes: seq<byte>)
    ensures Decode(Encode(bytes)) == Some(bytes)
  {
    var ds := ByteDigits(bytes);
    RebaseInverse(ds, 256, 58);
    TextOfDigits(Rebase(ds, 256, 58));
    BytesOfDigits(bytes, ds);
  }

  /** Encoding a decoding returns the text, for every text over the alphabet; no other text decodes. */
  lemma EncodeDecode(text: string)
    ensures Decode(text).Some? <==> InAlphabet(text)
    ensures InAlphabet(text) ==> Encode(Decode(text).value) == text
  {
    if InAlphabet(text) {
      var ds := TextDigits(text);
      RebaseInverse(ds, 58, 256);
      BytesOfDigits([], Rebase(ds, 58, 256));
      assert FromTextDigits(ds) == text;
    }
  }

  /** `base58btcEncode`. */
  method Base58btcEncode(bytes: seq<byte>) returns (text: string)
    ensures text == Encode(bytes)
  {
    ghost var ds := ByteDigits(bytes);
    var zeros := 0;
    while zeros < |bytes| && bytes[zeros] == 0
      invariant zeros <= |bytes| && zeros <= LeadingZeros(ds)
    {
      zeros := zeros + 1;
    }
    var n: nat := 0;
    for i := 0 to |bytes|
      invariant n == Value(ds[..i], 256)
    {
      ValueStep(ds[..i], ds[i], 256);
      assert ds[..i + 1] == ds[..i] + [ds[i]];
      n := n * 256 + bytes[i] as nat;
    }
    assert ds[..|ds|] == ds;
    var out := TextOf(n);
    CountsZeros(ds, zeros);
    JoinText(Zeros(zeros), Digits(n, 58));
    assert FromTextDigits(Zeros(zeros)) == Repeat('1', zeros);
    text := Repeat('1', zeros) + out;
  }

  lemma CountsZeros(ds: seq<nat>, z: nat)
    requires z <= |ds| && (forall i | 0 <= i < z :: ds[i] == 0) && (z < |ds| ==> ds[z] != 0)
    ensures LeadingZeros(ds) == z
  {
  }

  lemma JoinText(a: seq<nat>, b: seq<nat>)
    requires Below(a, 58) && Below(b, 58)
    ensures Below(a + b, 58) && FromTextDigits(a + b) == FromTextDigits(a) + FromTextDigits(b)
  {
    assert Below(a + b, 58);
  }

  lemma JoinBytes(a: seq<nat>, b: seq<nat>)
    requires Below(a, 256) && Below(b, 256)
    ensures Below(a + b, 256) && FromByteDigits(a + b) == FromByteDigits(a) + FromByteDigits(b)
  {
    assert Below(a + b, 256);
  }

  /** The second loop of `base58btcEncode`: the digits of a number, least significant first, put in front. */
  method TextOf(number: nat) returns (out: string)
    ensures out == FromTextDigits(Digits(number, 58))
  {
    var n := number;
    out := "";
    ghost var tail: seq<nat> := [];
    assert Digits(n, 58) + [] == Digits(n, 58);
    while n > 0
      invariant Below(tail, 58) && out == FromTextDigits(tail)
      invariant Digits(n, 58) + tail == Digits(number, 58)
    {
      Split(n, 58);
      DigitsStep(n / 58, n % 58, 58);
      hide Digits;
      assert Digits(n / 58, 58) + [n % 58] + tail == Digits(n / 58, 58) + ([n % 58] + tail);
      out := [Char(n % 58)] + out;
      tail := [n % 58] + tail;
      n := n / 58;
    }
    assert tail == Digits(number, 58);
  }

  function Repeat(c: char, n: nat): (s: string)
    ensures |s| == n && forall i | 0 <= i < n :: s[i] == c
  {
    if n == 0 then "" else [c] + Repeat(c, n - 1)
  }

  /** `1` alone is the digit zero. */
  lemma FirstIsOne(text: string)
    requires InAlphabet(text)
    ensures forall i | 0 <= i < |text| :: TextDigits(text)[i] == 0 <==> text[i] == '1'
  {
  }

  /** `base58btcDecode`. */
  method Base58btcDecode(text: string) returns (bytes: Option<seq<byte>>)
    ensures bytes == Decode(text)
  {
    var zeros := 0;
    while zeros < |text| && text[zeros] == '1'
      invariant zeros <= |text| && forall i | 0 <= i < zeros :: text[i] == '1'
    {
      zeros := zeros + 1;
    }
    var n: nat := 0;
    for i := 0 to |text|
      invariant InAlphabet(text[..i]) && n == Value(TextDigits(text[..i]), 58)
    {
      var v := Index(text[i]);
      if v.None? {
        assert text[i] in text;
        return None;
      }
      hide Index;
      hide Value;
      assert text[..i + 1] == text[..i] + [text[i]];
      assert TextDigits(text[..i + 1]) == TextDigits(text[..i]) + [v.value];
      ValueStep(TextDigits(text[..i]), v.value, 58);
      n := n * 58 + v.value;
    }
    assert text[..|text|] == text;
    Assembled(text, zeros);
    var out := BytesOf(n);
    bytes := Some(ZeroBytes(zeros) + out);
  }

  lemma Assembled(text: string, zeros: nat)
    requires InAlphabet(text) && zeros <= |text| && (forall i | 0 <= i < zeros :: text[i] == '1') && (zeros < |text| ==> text[zeros] != '1')
    ensures Decode(text) == Some(ZeroBytes(zeros) + FromByteDigits(Digits(Value(TextDigits(text), 58), 256)))
  {
    hide Value;
    hide Digits;
    var ds := TextDigits(text);
    FirstIsOne(text);
    assert zeros < |text| ==> ds[zeros] != 0;
    CountsZeros(ds, zeros);
    JoinBytes(Zeros(zeros), Digits(Value(ds, 58), 256));
    assert FromByteDigits(Zeros(zeros)) == ZeroBytes(zeros);
  }

  /** The last loop of `base58btcDecode`. */
  method BytesOf(number: nat) returns (out: seq<byte>)
    ensures out == FromByteDigits(Digits(number, 256))
  {
    var n := number;
    out := [];
    ghost var tail: seq<nat> := [];
    assert Digits(n, 256) + [] == Digits(n, 256);
    while n > 0
      invariant Below(tail, 256) && out == FromByteDigits(tail)
      invariant Digits(n, 256) + tail == Digits(number, 256)
    {
      Split(n, 256);
      DigitsStep(n / 256, n % 256, 256);
      hide Digits;
      assert Digits(n / 256, 256) + [n % 256] + tail == Digits(n / 256, 256) + ([n % 256] + tail);
      out := [(n % 256) as byte] + out;
      tail := [n % 256] + tail;
      n := n / 256;
    }
    assert tail == Digits(number, 256);
  }

  function ZeroBytes(n: nat): (bs: seq<byte>)
    ensures |bs| == n && forall i | 0 <= i < n :: bs[i] == 0
  {
    if n == 0 then [] else [0] + ZeroBytes(n - 1)
  }
}
