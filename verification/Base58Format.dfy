/** base58btc texts as numbers over the alphabet (src/agentIdentity.ts). */
module Base58Format {
  import opened Prelude
  import opened Bytes
  import opened Base58

  /** The digits without 0, the capitals without I and O, the small letters without l. */
  const ALPHABET: string := "123456789" + "ABCDEFGH" + "JKLMN" + "PQRSTUVWXYZ" + "abcdefghijk" + "mnopqrstuvwxyz"

  function Power(b: nat, k: nat): nat { if k == 0 then 1 else b * Power(b, k - 1) }

  /** The number that digits write, most significant first. */
  function Number(ds: seq<nat>, b: nat): nat { if ds == [] then 0 else ds[0] * Power(b, |ds| - 1) + Number(ds[1..], b) }

  lemma AlphabetChars(d: nat)
    requires d < 58
    ensures |ALPHABET| == 58 && Char(d) == ALPHABET[d]
  {
    var a, b, c, e, f := "123456789", "ABCDEFGH", "JKLMN", "PQRSTUVWXYZ", "abcdefghijk";
    if d < 9 {
      assert ALPHABET[d] == a[d];
    } else if d < 17 {
      assert ALPHABET[d] == b[d - 9];
    } else if d < 22 {
      assert ALPHABET[d] == c[d - 17];
    } else if d < 33 {
      assert ALPHABET[d] == e[d - 22];
    } else if d < 44 {
      assert ALPHABET[d] == f[d - 33];
    } else {
      assert ALPHABET[d] == "mnopqrstuvwxyz"[d - 44];
    }
  }

  lemma {:induction false} NumberStep(ds: seq<nat>, d: nat, b: nat)
    ensures Number(ds + [d], b) == Number(ds, b) * b + d
    decreases |ds|
  {
    if ds == [] {
      assert [d][1..] == [] && Number([d], b) == d * Power(b, 0) + Number([], b);
    } else {
      assert (ds + [d])[0] == ds[0] && (ds + [d])[1..] == ds[1..] + [d];
      NumberStep(ds[1..], d, b);
      var p, n := Power(b, |ds| - 1), Number(ds[1..], b);
      assert ds[0] * (b * p) == (ds[0] * p) * b;
    }
  }

  lemma {:induction false} NumberIsValue(ds: seq<nat>, b: nat)
    ensures Number(ds, b) == Value(ds, b)
    decreases |ds|
  {
    if ds != [] {
      var init, last := ds[..|ds| - 1], ds[|ds| - 1];
      NumberIsValue(init, b);
      hide Number;
      assert ds == init + [last];
      NumberStep(init, last, b);
    }
  }

  function Places(bytes: seq<byte>): seq<nat> { seq(|bytes|, i requires 0 <= i < |bytes| => bytes[i] as nat) }

  /** Each character of the text stands at that place of the alphabet. */
  predicate PlacesOf(text: string, ds: seq<nat>) {
    |ds| == |text| && forall i | 0 <= i < |text| :: ds[i] < |ALPHABET| && text[i] == ALPHABET[ds[i]]
  }

  predicate Leads(text: string, bytes: seq<byte>, z: nat) {
    && z <= |text| && z <= |bytes|
    && (forall i | 0 <= i < z :: text[i] == '1' && bytes[i] == 0)
    && (z < |text| ==> text[z] != '1') && (z < |bytes| ==> bytes[z] != 0)
  }

  /** Text and bytes write the same number and start with equally many zeros. */
  ghost predicate Stands(text: string, bytes: seq<byte>) {
    && (exists z :: Leads(text, bytes, z))
    && exists ds :: PlacesOf(text, ds) && Number(ds, 58) == Number(Places(bytes), 256)
  }

  lemma PlacesExactly(text: string, ds: seq<nat>)
    ensures PlacesOf(text, ds) <==> InAlphabet(text) && ds == TextDigits(text)
  {
    if PlacesOf(text, ds) {
      forall i | 0 <= i < |text|
        ensures Index(text[i]) == Some(ds[i])
      {
        AlphabetChars(ds[i]);
        IndexOfChar(ds[i]);
      }
      assert InAlphabet(text);
      assert ds == TextDigits(text);
    }
    if InAlphabet(text) {
      forall i | 0 <= i < |text|
        ensures Index(text[i]).Some? && text[i] == ALPHABET[Index(text[i]).value]
      {
        assert text[i] in text;
        AlphabetChars(Index(text[i]).value);
      }
    }
  }

  lemma LeadsExactly(text: string, bytes: seq<byte>)
    requires InAlphabet(text)
    ensures (exists z :: Leads(text, bytes, z)) <==> LeadingZeros(TextDigits(text)) == LeadingZeros(ByteDigits(bytes))
  {
    FirstIsOne(text);
    var ds, es := TextDigits(text), ByteDigits(bytes);
    hide LeadingZeros;
    hide TextDigits;
    forall z | Leads(text, bytes, z)
      ensures LeadingZeros(ds) == z == LeadingZeros(es)
    {
      CountsZeros(ds, z);
      CountsZeros(es, z);
    }
    if LeadingZeros(ds) == LeadingZeros(es) {
      var z := LeadingZeros(ds);
      forall i | 0 <= i < z
        ensures text[i] == '1' && bytes[i] == 0
      {
        assert ds[i] == 0 && es[i] == 0;
      }
      assert z < |text| ==> ds[z] != 0;
      assert z < |bytes| ==> es[z] != 0;
      assert Leads(text, bytes, z);
    }
  }

  /** The text of some bytes is the one that stands for them, and only such texts decode. */
  lemma EncodeExactly(text: string, bytes: seq<byte>)
    ensures text == Encode(bytes) <==> Stands(text, bytes)
    ensures Decode(text) == Some(bytes) <==> Stands(text, bytes)
  {
    DecodeEncode(bytes);
    EncodeDecode(text);
    assert Places(bytes) == ByteDigits(bytes);
    NumberIsValue(ByteDigits(bytes), 256);
    if InAlphabet(text) {
      PlacesExactly(text, TextDigits(text));
      NumberIsValue(TextDigits(text), 58);
      LeadsExactly(text, bytes);
      RebaseExactly(TextDigits(text), ByteDigits(bytes), 58, 256);
      TextOfDigits(Rebase(ByteDigits(bytes), 256, 58));
      assert FromTextDigits(TextDigits(text)) == text;
    }
    forall ds | PlacesOf(text, ds)
      ensures InAlphabet(text) && ds == TextDigits(text)
    {
      PlacesExactly(text, ds);
    }
    hide Rebase;
    hide Value;
    hide Number;
    hide LeadingZeros;
  }

  /** Digits in one base are those in the other exactly when they write one number and lead with as many zeros. */
  lemma RebaseExactly(ds: seq<nat>, es: seq<nat>, a: nat, b: nat)
    requires a >= 2 && b >= 2 && Below(ds, a) && Below(es, b)
    ensures ds == Rebase(es, b, a) <==> Value(ds, a) == Value(es, b) && LeadingZeros(ds) == LeadingZeros(es)
  {
    var z, n := LeadingZeros(es), Value(es, b);
    ZerosInFront(z, Digits(n, a), a);
    DigitsValue(n, a);
    ValueDigits(ds, a);
    SplitZeros(ds);
  }
}
