/** Text that can be read back: maximal munch, decimal numbers, and the comma-separated `join`. */
module Text {
  predicate Digit(c: char) { '0' <= c <= '9' }

  predicate NumberChar(c: char) { Digit(c) || c == '-' || c == '+' || c == '.' || c == 'e' }

  predicate All(s: string, p: char -> bool) { forall c | c in s :: p(c) }

  /** What follows a run of `p` characters: nothing, or a character outside `p`. */
  predicate Boundary(s: string, p: char -> bool) { s == "" || !p(s[0]) }

  /** Two maximal runs of `p` characters at the front of the same text are the same run. */
  lemma {:induction false} Munch(a: string, r: string, b: string, t: string, p: char -> bool)
    requires a + r == b + t && All(a, p) && All(b, p) && Boundary(r, p) && Boundary(t, p)
    ensures a == b && r == t
  {
    assert a != "" ==> a[0] in a && (a + r)[0] == a[0];
    assert b != "" ==> b[0] in b && (b + t)[0] == b[0];
    assert a == "" ==> a + r == r;
    assert b == "" ==> b + t == t;
    if a != "" && b != "" {
      assert (a + r)[1..] == a[1..] + r && (b + t)[1..] == b[1..] + t;
      assert forall c | c in a[1..] :: c in a;
      assert forall c | c in b[1..] :: c in b;
      Munch(a[1..], r, b[1..], t, p);
      assert a == [a[0]] + a[1..] && b == [b[0]] + b[1..];
    }
  }

  /** `s.length`: the UTF-16 code units of a string; a character outside the basic plane takes two. */
  function Utf16Length(s: string): (n: nat)
    ensures |s| <= n <= 2 * |s|
  {
    if s == "" then 0 else (if s[0] as int >= 0x1_0000 then 2 else 1) + Utf16Length(s[1..])
  }

  lemma {:induction false} AstralLength(s: string)
    requires forall c | c in s :: c as int >= 0x1_0000
    ensures Utf16Length(s) == 2 * |s|
  {
    if s != "" {
      assert s[0] in s && forall c | c in s[1..] :: c in s;
      AstralLength(s[1..]);
    }
  }

  /** Concatenation regroups. */
  lemma Regroup(a: string, b: string, c: string)
    ensures a + b + c == a + (b + c)
  {
  }

  /** A known prefix drops off. */
  lemma DropPrefix(a: string, b: string, c: string)
    ensures (a + b + c)[|a|..] == b + c
  {
    Regroup(a, b, c);
  }

  lemma Cancel(a: string, r: string, b: string, t: string)
    requires a + r == b + t && |a| == |b|
    ensures a == b && r == t
  {
    assert (a + r)[..|a|] == a && (b + t)[..|b|] == b;
    assert (a + r)[|a|..] == r && (b + t)[|b|..] == t;
  }

  // ---------------------------------------------------------------------------
  // Decimal integers
  // ---------------------------------------------------------------------------

  function DigitChar(d: nat): (c: char)
    requires d < 10
    ensures Digit(c)
  {
    ('0' as int + d) as char
  }

  function NatText(n: nat): (s: string)
    ensures s != "" && All(s, Digit)
  {
    if n < 10 then [DigitChar(n)] else NatText(n / 10) + [DigitChar(n % 10)]
  }

  function NatValue(s: string): nat
    requires All(s, Digit)
  {
    if s == "" then 0
    else
      assert s[|s| - 1] in s && forall c | c in s[..|s| - 1] :: c in s;
      10 * NatValue(s[..|s| - 1]) + (s[|s| - 1] as int - '0' as int)
  }

  lemma {:induction false} NatTextValue(n: nat)
    ensures NatValue(NatText(n)) == n
  {
    var s := NatText(n);
    assert s[|s| - 1] in s;
    if n >= 10 {
      assert s[..|s| - 1] == NatText(n / 10);
      NatTextValue(n / 10);
    } else {
      assert s[..|s| - 1] == "" && NatValue("") == 0;
    }
  }

  function IntText(i: int): (s: string)
    ensures s != "" && All(s, NumberChar)
  {
    if i < 0 then "-" + NatText(-i) else NatText(i)
  }

  lemma IntTextInjective(i: int, j: int)
    requires IntText(i) == IntText(j)
    ensures i == j
  {
    var a, b := NatText(if i < 0 then -i else i), NatText(if j < 0 then -j else j);
    assert a[0] in a && b[0] in b;
    assert (i < 0) == (j < 0);
    if i < 0 {
      assert IntText(i)[1..] == a && IntText(j)[1..] == b;
    }
    NatTextValue(if i < 0 then -i else i);
    NatTextValue(if j < 0 then -j else j);
  }

  lemma IntTextCancel(i: int, r: string, j: int, t: string)
    requires IntText(i) + r == IntText(j) + t && Boundary(r, NumberChar) && Boundary(t, NumberChar)
    ensures i == j && r == t
  {
    Munch(IntText(i), r, IntText(j), t, NumberChar);
    IntTextInjective(i, j);
  }

  // ---------------------------------------------------------------------------
  // Joining
  // ---------------------------------------------------------------------------

  function Join(parts: seq<string>, sep: string): string {
    if parts == [] then ""
    else if |parts| == 1 then parts[0]
    else parts[0] + sep + Join(parts[1..], sep)
  }

}
