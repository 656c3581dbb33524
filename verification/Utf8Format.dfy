/** UTF-8 bit by bit (section 3 of RFC 3629), and what the decoder makes of bytes that are not UTF-8 (the substitution of
    maximal subparts of section 3.9 of the Unicode Standard, which the WHATWG decoder follows). */
module Utf8Format {
  import opened Bytes
  import opened Utf8

  /** The bytes of the character with code point `n`: as many as it needs, the later ones six bits each. */
  predicate IsChar(bs: seq<byte>, n: int) {
    match |bs|
    case 1 => n < 0x80 && bs[0] as int == n
    case 2 => 0x80 <= n && 0xC0 <= bs[0] < 0xE0 && Later(bs, 1) && n == (bs[0] as int - 0xC0) * 0x40 + Six(bs[1])
    case 3 =>
      0x800 <= n && 0xE0 <= bs[0] < 0xF0 && Later(bs, 1) && Later(bs, 2)
      && n == (bs[0] as int - 0xE0) * 0x1000 + Six(bs[1]) * 0x40 + Six(bs[2])
    case 4 =>
      0x1_0000 <= n && 0xF0 <= bs[0] < 0xF8 && Later(bs, 1) && Later(bs, 2) && Later(bs, 3)
      && n == (bs[0] as int - 0xF0) * 0x4_0000 + Six(bs[1]) * 0x1000 + Six(bs[2]) * 0x40 + Six(bs[3])
    case _ => false
  }

  predicate Later(bs: seq<byte>, i: nat)
    requires i < |bs|
  {
    0x80 <= bs[i] < 0xC0
  }

  function Six(b: byte): int { b as int - 0x80 }

  lemma EncodedIsChar(c: char)
    ensures IsChar(EncodeChar(c), c as int)
  {
    var n := c as int;
    if 0x800 <= n < 0x1_0000 {
      assert n == n / 4096 * 4096 + n / 64 % 64 * 64 + n % 64;
    } else if 0x1_0000 <= n {
      FourDigits(n);
    }
  }

  lemma LengthFixed(bs: seq<byte>, n: int)
    requires IsChar(bs, n)
    ensures |bs| == if n < 0x80 then 1 else if n < 0x800 then 2 else if n < 0x1_0000 then 3 else 4
  {
  }

  lemma CharFixed(a: seq<byte>, b: seq<byte>, n: int)
    requires IsChar(a, n) && IsChar(b, n)
    ensures a == b
  {
    LengthFixed(a, n);
    LengthFixed(b, n);
    hide IsChar;
    match |a| {
      case 1 => OneFixed(a, b, n);
      case 2 => TwoFixed(a, b, n);
      case 3 => ThreeFixed(a, b, n);
      case _ => FourFixed(a, b, n);
    }
  }

  lemma OneFixed(a: seq<byte>, b: seq<byte>, n: int)
    requires |a| == |b| == 1 && IsChar(a, n) && IsChar(b, n)
    ensures a == b
  {
  }

  lemma TwoFixed(a: seq<byte>, b: seq<byte>, n: int)
    requires |a| == |b| == 2 && IsChar(a, n) && IsChar(b, n)
    ensures a == b
  {
    assert a[0] == b[0] && a[1] == b[1];
  }

  lemma ThreeFixed(a: seq<byte>, b: seq<byte>, n: int)
    requires |a| == |b| == 3 && IsChar(a, n) && IsChar(b, n)
    ensures a == b
  {
    assert a[0] == b[0] && a[1] == b[1] && a[2] == b[2];
  }

  lemma FourFixed(a: seq<byte>, b: seq<byte>, n: int)
    requires |a| == |b| == 4 && IsChar(a, n) && IsChar(b, n)
    ensures a == b
  {
    assert a[0] == b[0] && a[1] == b[1] && a[2] == b[2] && a[3] == b[3];
  }

  /** A character is written as the one sequence of bytes that is its UTF-8 form. */
  lemma CharExactly(bs: seq<byte>, c: char)
    ensures IsChar(bs, c as int) <==> bs == EncodeChar(c)
  {
    EncodedIsChar(c);
    if IsChar(bs, c as int) {
      CharFixed(bs, EncodeChar(c), c as int);
    }
  }

  /** A text is its characters, one after the other. */
  lemma {:induction false} TextExactly(s: string, t: string)
    ensures Encode("") == [] && Encode(s + t) == Encode(s) + Encode(t)
    ensures forall c :: Encode([c]) == EncodeChar(c)
    decreases |s|
  {
    hide EncodeChar;
    forall c: char
      ensures Encode([c]) == EncodeChar(c)
    {
      assert [c][1..] == "" && EncodeChar(c) + [] == EncodeChar(c);
    }
    if s == "" {
      assert s + t == t;
    } else {
      assert (s + t)[0] == s[0] && (s + t)[1..] == s[1..] + t;
      TextExactly(s[1..], t);
      Associate(EncodeChar(s[0]), Encode(s[1..]), Encode(t));
    }
  }

  // ---------------------------------------------------------------------------
  // Bytes that are not UTF-8
  // ---------------------------------------------------------------------------

  /** A whole character in front. */
  predicate CharInFront(bs: seq<byte>, c: char, k: nat) { k <= |bs| && IsChar(bs[..k], c as int) }

  /** The bytes start a character but do not finish it. */
  ghost predicate Unfinished(p: seq<byte>) { exists c, tail :: Finishes(p, c, tail) }

  predicate Finishes(p: seq<byte>, c: char, tail: seq<byte>) { tail != [] && IsChar(p + tail, c as int) }

  lemma CharTaken(bs: seq<byte>, c: char, k: nat)
    requires bs != [] && CharInFront(bs, c, k)
    ensures DecodeChar(bs) == (c, k)
  {
    CharExactly(bs[..k], c);
    assert bs == EncodeChar(c) + bs[k..];
    DecodeCharRoundTrip(c, bs[k..]);
  }

  /** The bounds on the second byte that keep a three- or four-byte form from being too long, a surrogate or too large. */
  predicate SecondFits(a: byte, b: byte) {
    && (0xC2 <= a <= 0xF4) && 0x80 <= b <= 0xBF
    && (a == 0xE0 ==> b >= 0xA0) && (a == 0xED ==> b <= 0x9F) && (a == 0xF0 ==> b >= 0x90) && (a == 0xF4 ==> b <= 0x8F)
  }

  lemma SecondNeeded(bs: seq<byte>, c: char)
    requires IsChar(bs, c as int) && |bs| >= 2
    ensures SecondFits(bs[0], bs[1]) && |bs| == (if bs[0] < 0xE0 then 2 else if bs[0] < 0xF0 then 3 else 4)
  {
  }

  /** Two bytes that fit begin a character. */
  lemma TwoBegin(a: byte, b: byte)
    requires a >= 0xE0 && SecondFits(a, b)
    ensures Unfinished([a, b])
  {
    var n := if a < 0xF0 then (a as int - 0xE0) * 0x1000 + Six(b) * 0x40 else (a as int - 0xF0) * 0x4_0000 + Six(b) * 0x1000;
    var tail: seq<byte> := if a < 0xF0 then [0x80] else [0x80, 0x80];
    assert Finishes([a, b], n as char, tail);
  }

  lemma ThreeBegin(a: byte, b: byte, d: byte)
    requires a >= 0xF0 && SecondFits(a, b) && 0x80 <= d <= 0xBF
    ensures Unfinished([a, b, d])
  {
    var n := (a as int - 0xF0) * 0x4_0000 + Six(b) * 0x1000 + Six(d) * 0x40;
    assert Finishes([a, b, d], n as char, [0x80]);
  }

  lemma Stop(bs: seq<byte>, n: nat)
    requires 1 <= n <= |bs| && bs[0] >= 0x80
    requires if n == 1 then |bs| >= 2 ==> !SecondFits(bs[0], bs[1])
             else
               && n <= 3 && SecondFits(bs[0], bs[1]) && bs[0] >= (if n == 2 then 0xE0 else 0xF0) && (n == 3 ==> Later(bs, 2))
               && (n < |bs| ==> !Later(bs, n))
    ensures forall c, k: nat :: !CharInFront(bs, c, k)
    ensures n < |bs| ==> !Unfinished(bs[..n + 1])
  {
    forall c, k: nat | CharInFront(bs, c, k)
      ensures false
    {
      if k >= 2 {
        SecondNeeded(bs[..k], c);
      }
    }
    if n < |bs| {
      var p := bs[..n + 1];
      forall c, tail | Finishes(p, c, tail)
        ensures false
      {
        SecondNeeded(p + tail, c);
      }
    }
  }

  /** What the decoder takes off the front: a character, or else the longest beginning of one, at least one byte, for which it
      puts U+FFFD. */
  lemma MaximalSubpart(bs: seq<byte>)
    requires bs != []
    ensures var (c, n) := DecodeChar(bs);
            if exists d, k: nat :: CharInFront(bs, d, k) then CharInFront(bs, c, n)
            else
              && c == '\U{FFFD}' && (n == 1 || Unfinished(bs[..n]))
              && (n < |bs| ==> !Unfinished(bs[..n + 1]))
  {
    if exists d, k: nat :: CharInFront(bs, d, k) {
      var d, k: nat :| CharInFront(bs, d, k);
      CharTaken(bs, d, k);
    } else {
      NotTaken(bs);
    }
  }

  lemma NotTaken(bs: seq<byte>)
    requires bs != [] && forall d, k: nat :: !CharInFront(bs, d, k)
    ensures var (c, n) := DecodeChar(bs);
            && c == '\U{FFFD}' && (n == 1 || Unfinished(bs[..n]))
            && (n < |bs| ==> !Unfinished(bs[..n + 1]))
  {
    NotWhole(bs);
    var n := DecodeChar(bs).1;
    hide DecodeChar;
    Stop(bs, n);
    if n == 2 {
      TwoBegin(bs[0], bs[1]);
      assert bs[..2] == [bs[0], bs[1]];
    } else if n == 3 {
      ThreeBegin(bs[0], bs[1], bs[2]);
      assert bs[..3] == [bs[0], bs[1], bs[2]];
    }
  }

  lemma NotWhole(bs: seq<byte>)
    requires bs != [] && forall d, k: nat :: !CharInFront(bs, d, k)
    ensures var (c, n) := DecodeChar(bs);
            && c == '\U{FFFD}' && bs[0] >= 0x80
            && if n == 1 then |bs| >= 2 ==> !SecondFits(bs[0], bs[1])
               else
                 && n <= 3 && SecondFits(bs[0], bs[1]) && bs[0] >= (if n == 2 then 0xE0 else 0xF0) && (n == 3 ==> Later(bs, 2))
                 && (n < |bs| ==> !Later(bs, n))
  {
    var (c, n) := DecodeChar(bs);
    assert !CharInFront(bs, c, n);
  }
}
