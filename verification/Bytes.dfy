/** Bytes, big-endian numbers and the rounding of integers to double precision. */
module Bytes {
  newtype byte = n: int | 0 <= n < 0x100

  function Pow256(k: nat): (p: nat)
    ensures p > 0
  {
    if k == 0 then 1 else 256 * Pow256(k - 1)
  }

  lemma Pow256Values()
    ensures Pow256(1) == 0x100 && Pow256(2) == 0x1_0000 && Pow256(4) == 0x1_0000_0000 && Pow256(8) == 0x1_0000_0000_0000_0000
  {
    assert Pow256(0) == 1 && Pow256(3) == 0x100_0000 && Pow256(5) == 0x100_0000_0000;
    assert Pow256(6) == 0x1_0000_0000_0000 && Pow256(7) == 0x100_0000_0000_0000;
  }

  /** `n` in exactly `k` bytes, most significant first (`DataView.setUint16/32/BigUint64`): the value wraps. */
  function BigEndian(n: nat, k: nat): (bs: seq<byte>)
    ensures |bs| == k
  {
    if k == 0 then [] else BigEndian(n / 256, k - 1) + [(n % 256) as byte]
  }

  function FromBigEndian(bs: seq<byte>): nat {
    if bs == [] then 0 else 256 * FromBigEndian(bs[..|bs| - 1]) + bs[|bs| - 1] as nat
  }

  lemma {:induction false} FromBigEndianBound(bs: seq<byte>)
    ensures FromBigEndian(bs) < Pow256(|bs|)
  {
    if bs != [] {
      FromBigEndianBound(bs[..|bs| - 1]);
    }
  }

  lemma {:induction false} BigEndianRoundTrip(n: nat, k: nat)
    ensures FromBigEndian(BigEndian(n, k)) == n % Pow256(k)
  {
    if k > 0 {
      var bs := BigEndian(n, k);
      assert bs[..k - 1] == BigEndian(n / 256, k - 1);
      BigEndianRoundTrip(n / 256, k - 1);
      ModSplit(n, Pow256(k - 1));
    }
  }

  lemma ModSplit(n: nat, p: nat)
    requires p > 0
    ensures n % (256 * p) == 256 * ((n / 256) % p) + n % 256
  {
    var q := n / 256;
    var lo := 256 * (q % p) + n % 256;
    assert q == p * (q / p) + q % p;
    assert n == (256 * p) * (q / p) + lo;
    assert 0 <= lo < 256 * p;
    ModUnique(n, 256 * p, q / p, lo);
  }

  lemma MulMonotone(m: nat, a: int, b: int)
    requires a <= b
    ensures m * a <= m * b
  {
  }

  lemma ModUnique(n: int, m: int, q: int, r: int)
    requires m > 0 && n == m * q + r && 0 <= r < m
    ensures n % m == r && n / m == q
  {
    var d := n / m;
    assert n == m * d + n % m;
    if d < q {
      MulMonotone(m, d + 1, q);
      assert false;
    } else if d > q {
      MulMonotone(m, q + 1, d);
      assert false;
    }
  }

  lemma DivLower(n: nat, d: nat, a: nat)
    requires d > 0 && n >= d * a
    ensures n / d >= a
  {
    assert n == d * (n / d) + n % d;
    if n / d < a {
      MulMonotone(d, n / d + 1, a);
      assert false;
    }
  }

  // ---------------------------------------------------------------------------
  // Four bytes at a time
  // ---------------------------------------------------------------------------

  /** The number in the four bytes from `i`, most significant first. */
  function Word(h: seq<byte>, i: nat): nat
    requires i + 4 <= |h|
  {
    h[i] as nat * 0x100_0000 + h[i + 1] as nat * 0x1_0000 + h[i + 2] as nat * 0x100 + h[i + 3] as nat
  }

  lemma FromOne(bs: seq<byte>)
    requires |bs| == 1
    ensures FromBigEndian(bs) == bs[0] as nat
  {
    assert FromBigEndian(bs[..0]) == 0;
  }

  lemma FromTwo(bs: seq<byte>)
    requires |bs| == 2
    ensures FromBigEndian(bs) == bs[0] as nat * 0x100 + bs[1] as nat
  {
    FromOne(bs[..1]);
  }

  lemma FromWord(bs: seq<byte>)
    requires |bs| == 4
    ensures FromBigEndian(bs) == Word(bs, 0)
  {
    FromTwo(bs[..2]);
    assert bs[..3][..2] == bs[..2];
  }

  lemma FromTwoWords(bs: seq<byte>)
    requires |bs| == 8
    ensures FromBigEndian(bs) == Word(bs, 0) * 0x1_0000_0000 + Word(bs, 4)
  {
    FromWord(bs[..4]);
    FromNext(bs, 4);
    FromNext(bs, 5);
    FromNext(bs, 6);
    FromNext(bs, 7);
    assert bs[..8] == bs;
  }

  lemma FromNext(bs: seq<byte>, k: nat)
    requires k < |bs|
    ensures FromBigEndian(bs[..k + 1]) == 256 * FromBigEndian(bs[..k]) + bs[k] as nat
  {
    assert bs[..k + 1][..k] == bs[..k];
  }

  lemma WordFixes(g: seq<byte>, h: seq<byte>, i: nat)
    requires i + 4 <= |g| == |h| && Word(g, i) == Word(h, i)
    ensures g[i..i + 4] == h[i..i + 4]
  {
    assert g[i] == h[i] && g[i + 1] == h[i + 1] && g[i + 2] == h[i + 2] && g[i + 3] == h[i + 3];
  }

  lemma WordBound(h: seq<byte>, i: nat)
    requires i + 4 <= |h|
    ensures Word(h, i) < 0x1_0000_0000
  {
  }

  function ConcatAll(parts: seq<seq<byte>>): seq<byte> {
    if parts == [] then [] else parts[0] + ConcatAll(parts[1..])
  }

  // ---------------------------------------------------------------------------
  // Doubles
  // ---------------------------------------------------------------------------

  const MAX_SAFE: int := 0x1F_FFFF_FFFF_FFFF
  const TWO_53: int := 0x20_0000_0000_0000

  predicate SafeInteger(n: int) { -MAX_SAFE <= n <= MAX_SAFE }

  /** The double nearest to a natural number, ties to even: the weight of the last bit doubles until
      53 bits are enough. Overflow to infinity, above 2^1023, is out of the range used here. */
  function RoundAt(n: nat, ulp: nat): (d: nat)
    requires ulp > 0
    decreases if n < TWO_53 * ulp then 0 else n - ulp
  {
    if n < TWO_53 * ulp then
      var q, r := n / ulp, n % ulp;
      if 2 * r < ulp || (2 * r == ulp && q % 2 == 0) then q * ulp else (q + 1) * ulp
    else RoundAt(n, 2 * ulp)
  }

  function ToDouble(n: nat): nat { RoundAt(n, 1) }

  /** Integers below 2^53 are doubles; everything from 2^53 up rounds to at least 2^53. */
  lemma ToDoubleExact(n: nat)
    ensures n < TWO_53 ==> ToDouble(n) == n
    ensures n >= TWO_53 ==> ToDouble(n) >= TWO_53
  {
    if n >= TWO_53 {
      RoundAtLarge(n, 2);
    }
  }

  lemma {:induction false} RoundAtLarge(n: nat, ulp: nat)
    requires ulp >= 2 && ulp % 2 == 0 && n >= TWO_53 * (ulp / 2)
    ensures RoundAt(n, ulp) >= TWO_53
    decreases if n < TWO_53 * ulp then 0 else n - ulp
  {
    if n < TWO_53 * ulp {
      DivLower(n, ulp, TWO_53 / 2);
      var q := n / ulp;
      MulMonotone(q, 2, ulp);
      assert (q + 1) * ulp == q * ulp + ulp;
    } else {
      RoundAtLarge(n, 2 * ulp);
    }
  }

  /** `d` is a multiple m of the weight of the last bit, with 53 bits for m, no more than half that weight away from `n`,
      and at exactly half with m even. */
  predicate Nearest(n: nat, d: nat, m: nat, ulp: nat) {
    && d == m * ulp && TWO_53 / 2 <= m <= TWO_53
    && 2 * (d - n) <= ulp && 2 * (n - d) <= ulp && (2 * (d - n) == ulp || 2 * (n - d) == ulp ==> m % 2 == 0)
  }

  lemma {:induction false} RoundsToNearest(n: nat, k: nat) returns (m: nat, e: nat)
    requires n >= TWO_53 / 2 * Pow2(k)
    ensures Nearest(n, RoundAt(n, Pow2(k)), m, Pow2(e)) && e >= k
    decreases if n < TWO_53 * Pow2(k) then 0 else n - Pow2(k)
  {
    var ulp := Pow2(k);
    hide Nearest;
    if n < TWO_53 * ulp {
      e := k;
      m := RoundsOnce(n, ulp);
    } else {
      assert Pow2(k + 1) == 2 * ulp;
      HalfTwice(ulp);
      m, e := RoundsToNearest(n, k + 1);
    }
  }

  lemma HalfTwice(ulp: nat)
    ensures TWO_53 / 2 * (2 * ulp) == TWO_53 * ulp
  {
  }

  lemma RoundsOnce(n: nat, ulp: nat) returns (m: nat)
    requires ulp > 0 && TWO_53 / 2 * ulp <= n < TWO_53 * ulp
    ensures Nearest(n, RoundAt(n, ulp), m, ulp)
  {
    var q, r := n / ulp, n % ulp;
    assert n == ulp * q + r;
    QuotientBounds(n, ulp, q, r);
    m := if 2 * r < ulp || (2 * r == ulp && q % 2 == 0) then q else q + 1;
    assert RoundAt(n, ulp) == m * ulp;
    hide RoundAt;
    Products(q, ulp);
    CloseEnough(n, ulp, q * ulp, q, r, m, m * ulp);
  }

  lemma Products(q: nat, ulp: nat)
    ensures q * ulp == ulp * q && (q + 1) * ulp == q * ulp + ulp
  {
  }

  lemma CloseEnough(n: nat, ulp: nat, below: nat, q: nat, r: nat, m: nat, d: nat)
    requires n == below + r && r < ulp && d == m * ulp && TWO_53 / 2 <= q < TWO_53
    requires m == (if 2 * r < ulp || (2 * r == ulp && q % 2 == 0) then q else q + 1) && d == (if m == q then below else below + ulp)
    ensures Nearest(n, d, m, ulp)
  {
  }

  lemma QuotientBounds(n: nat, ulp: nat, q: nat, r: nat)
    requires ulp > 0 && n == ulp * q + r && r < ulp && TWO_53 / 2 * ulp <= n < TWO_53 * ulp
    ensures TWO_53 / 2 <= q < TWO_53
  {
    if q >= TWO_53 {
      MulMonotone(ulp, TWO_53, q);
      assert false;
    }
    if q < TWO_53 / 2 {
      MulMonotone(ulp, q + 1, TWO_53 / 2);
      assert false;
    }
  }

  /** From 2^52 up a number is rounded to the nearest double, ties to even. */
  lemma NearestDouble(n: nat) returns (m: nat, e: nat)
    requires n >= TWO_53 / 2
    ensures Nearest(n, ToDouble(n), m, Pow2(e))
  {
    assert Pow2(0) == 1;
    m, e := RoundsToNearest(n, 0);
  }

  function Pow2(k: nat): (p: nat)
    ensures p > 0
  {
    if k == 0 then 1 else 2 * Pow2(k - 1)
  }

  lemma RoundUpOnce(n: nat, ulp: nat)
    requires ulp > 0 && n < TWO_53 * ulp
    ensures RoundAt(n, ulp) <= TWO_53 * ulp
  {
    var q := n / ulp;
    assert n == ulp * q + n % ulp;
    if q >= TWO_53 {
      MulMonotone(ulp, TWO_53, q);
      assert false;
    }
    MulMonotone(ulp, q + 1, TWO_53);
    assert q * ulp == ulp * q && (q + 1) * ulp == ulp * (q + 1);
    MulMonotone(ulp, q, q + 1);
  }

  lemma DoubleScale(ulp: nat, p: nat)
    ensures ulp * (2 * p) == (2 * ulp) * p
  {
  }

  /** Rounding does not pass a double of larger magnitude. */
  lemma {:induction false} RoundAtUpper(n: nat, ulp: nat, k: nat, top: nat)
    requires ulp > 0 && top == ulp * Pow2(k) && n < TWO_53 * top
    ensures RoundAt(n, ulp) <= TWO_53 * top
    decreases k
  {
    if n < TWO_53 * ulp {
      RoundUpOnce(n, ulp);
      MulMonotone(ulp, 1, Pow2(k));
      hide RoundAt;
    } else {
      assert k == 0 ==> top == ulp;
      DoubleScale(ulp, Pow2(k - 1));
      RoundAtUpper(n, 2 * ulp, k - 1, top);
    }
  }

  lemma ToDoubleBelow2To64(n: nat)
    requires n < 0x1_0000_0000_0000_0000
    ensures ToDouble(n) <= 0x1_0000_0000_0000_0000
  {
    assert Pow2(11) == 2048 by { assert Pow2(4) == 16 && Pow2(8) == 256; }
    RoundAtUpper(n, 1, 11, 2048);
  }

  lemma Take(a: seq<byte>, b: seq<byte>)
    ensures (a + b)[..|a|] == a && (a + b)[|a|..] == b
  {
  }

  lemma Associate(a: seq<byte>, b: seq<byte>, c: seq<byte>)
    ensures a + b + c == a + (b + c)
  {
  }
}
