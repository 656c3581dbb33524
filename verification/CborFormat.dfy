/** The bytes RFC 8949 gives each value, said of the bytes themselves: heads (section 3), and the deterministic
    encoding (section 4.2.1). */
module CborFormat {
  import opened Prelude
  import opened Bytes
  import opened Cbor
  import opened CborLaws
  import opened CborOrder
  import Lex
  import Utf8

  // ---------------------------------------------------------------------------
  // Heads
  // ---------------------------------------------------------------------------

  /** A head with the number `n`: three bits of major type, five that say how many bytes the number takes. */
  predicate IsHead(h: seq<byte>, majorType: nat, n: nat) {
    && h != []
    && h[0] as nat / 32 == majorType
    && var info := h[0] as nat % 32;
       || (|h| == 1 && info == n < 24)
       || (|h| == 2 && info == 24 && n == h[1] as nat)
       || (|h| == 3 && info == 25 && n == h[1] as nat * 0x100 + h[2] as nat)
       || (|h| == 5 && info == 26 && n == Word(h, 1))
       || (|h| == 9 && info == 27 && n == Word(h, 1) * 0x1_0000_0000 + Word(h, 5))
  }

  /** ... in no more bytes than the number needs. */
  predicate IsShortHead(h: seq<byte>, majorType: nat, n: nat) {
    && IsHead(h, majorType, n)
    && (|h| >= 2 ==> n >= 24) && (|h| >= 3 ==> n >= 0x100) && (|h| >= 5 ==> n >= 0x1_0000) && (|h| >= 9 ==> n >= 0x1_0000_0000)
  }

  /** The decoder reads the number of any head, shortest or not, as a double. */
  lemma ReadsHead(h: seq<byte>, majorType: nat, n: nat, rest: seq<byte>)
    requires IsHead(h, majorType, n)
    ensures DecodeUint(h[0] as nat % 32, h[1..] + rest) == Ok((ToDouble(n), |h| - 1))
  {
    var tail := h[1..];
    Take(tail, rest);
    ToDoubleExact(n);
    hide ToDouble;
    if |h| == 2 {
      FromOne(tail);
    } else if |h| == 3 {
      FromTwo(tail);
    } else if |h| == 5 {
      FromWord(tail);
    } else if |h| == 9 {
      FromTwoWords(tail);
    }
    hide FromBigEndian;
  }

  /** Two heads of one length and number are the same. */
  lemma HeadFixed(g: seq<byte>, h: seq<byte>, majorType: nat, n: nat)
    requires IsHead(g, majorType, n) && IsHead(h, majorType, n) && |g| == |h|
    ensures g == h
  {
    assert g[0] as nat == majorType * 32 + g[0] as nat % 32 && h[0] as nat == majorType * 32 + h[0] as nat % 32;
    if |g| == 5 {
      WordFixes(g, h, 1);
      assert g == [g[0]] + g[1..5] && h == [h[0]] + h[1..5];
    } else if |g| == 9 {
      WordBound(g, 5);
      WordBound(h, 5);
      hide Word;
      WordFixes(g, h, 1);
      WordFixes(g, h, 5);
      assert g == [g[0]] + g[1..5] + g[5..9] && h == [h[0]] + h[1..5] + h[5..9];
    }
  }

  /** The head the encoder writes is the shortest one of its number. */
  lemma HeadExactly(h: seq<byte>, majorType: nat, n: nat)
    requires majorType < 8 && n <= MAX_SAFE
    ensures IsShortHead(h, majorType, n) <==> h == Head(majorType, n)
  {
    HeadIsShort(majorType, n);
    if IsShortHead(h, majorType, n) {
      HeadFixed(h, Head(majorType, n), majorType, n);
    }
  }

  lemma HeadIsShort(majorType: nat, n: nat)
    requires majorType < 8 && n <= MAX_SAFE
    ensures IsShortHead(Head(majorType, n), majorType, n)
  {
    var h := Head(majorType, n);
    if |h| > 1 {
      var tail := BigEndian(n, |h| - 1);
      assert h[1..] == tail;
      Argument(n, tail);
    }
    hide BigEndian;
    hide Word;
  }

  lemma Argument(n: nat, tail: seq<byte>)
    requires |tail| in {1, 2, 4, 8} && tail == BigEndian(n, |tail|) && n <= MAX_SAFE && (|tail| < 8 ==> n < Pow256(|tail|))
    ensures n == if |tail| == 1 then tail[0] as nat else if |tail| == 2 then tail[0] as nat * 0x100 + tail[1] as nat
                 else if |tail| == 4 then Word(tail, 0) else Word(tail, 0) * 0x1_0000_0000 + Word(tail, 4)
  {
    var k := |tail|;
    Pow256Values();
    BigEndianRoundTrip(n, k);
    SmallMod(n, Pow256(k));
    hide BigEndian;
    hide Pow256;
    if k == 1 {
      FromOne(tail);
    } else if k == 2 {
      FromTwo(tail);
    } else if k == 4 {
      FromWord(tail);
    } else {
      FromTwoWords(tail);
    }
    hide FromBigEndian;
  }

  // ---------------------------------------------------------------------------
  // What the decoder makes of a first item
  // ---------------------------------------------------------------------------

  /** Whatever head announces it: 0 is a number, 1 a negative one, 2 bytes, 3 text, 4 an array, 5 a map. Numbers are rounded
      to doubles, which changes none below 2^53. */
  lemma OpensAs(h: seq<byte>, majorType: nat, n: nat, body: seq<byte>)
    requires IsHead(h, majorType, n)
    ensures var r, m, less: int := Open(h + body), ToDouble(n), ToDouble(ToDouble(n) + 1);
            && (n <= MAX_SAFE ==> m == n) && (n < MAX_SAFE ==> less == n + 1)
            && (majorType == 0 ==> r == Ok(Leaf(DInt(m), |h|)))
            && (majorType == 1 ==> r == Ok(Leaf(DInt(-less), |h|)))
            && (majorType == 2 && m <= |body| ==> r == Ok(Leaf(DBytes(body[..m]), |h| + m)))
            && (majorType == 3 && m <= |body| ==> r == Ok(Leaf(DText(Utf8.Decode(body[..m])), |h| + m)))
            && ((majorType == 2 || majorType == 3) && m > |body| ==> r == Err(UnexpectedEnd))
            && (majorType == 4 ==> r == Ok(ArrayOf(m, |h|)))
            && (majorType == 5 ==> r == Ok(MapOf(m, |h|)))
            && (majorType == 6 ==> r == Err(Unsupported))
  {
    ReadsHead(h, majorType, n, body);
    ToDoubleExact(n);
    ToDoubleExact(n + 1);
    hide ToDouble;
    hide DecodeUint;
    hide Utf8.Decode;
    assert (h + body)[0] == h[0] && (h + body)[1..] == h[1..] + body;
    assert (h[1..] + body)[|h| - 1..] == body;
  }

  /** Of the first bytes with major type 7, false, true, null and the 64-bit floats are read, and of all first bytes
      those of reserved lengths and of major type 6 are refused. */
  lemma OpensSimple(b: byte, body: seq<byte>)
    ensures var r := Open([b] + body);
            && (b == 0xF4 ==> r == Ok(Leaf(DBool(false), 1)))
            && (b == 0xF5 ==> r == Ok(Leaf(DBool(true), 1)))
            && (b == 0xF6 ==> r == Ok(Leaf(DNull, 1)))
            && (b == 0xFB ==> r == if |body| < 8 then Err(UnexpectedEnd) else Ok(Leaf(DFloat(body[..8]), 9)))
            && (0xC0 <= b && b != 0xF4 && b != 0xF5 && b != 0xF6 && b != 0xFB ==> r == Err(Unsupported))
            && (b < 0xC0 && b % 32 >= 28 ==> r == Err(Unsupported))
  {
    assert ([b] + body)[0] == b && ([b] + body)[1..] == body;
  }

  // ---------------------------------------------------------------------------
  // The deterministic encoding of a value
  // ---------------------------------------------------------------------------

  /** Bytewise lexicographic order: a proper prefix comes first, else the first difference decides. */
  predicate Before(a: seq<byte>, b: seq<byte>) {
    exists k | 0 <= k <= |a| :: AtFirst(a, b, k)
  }

  predicate AtFirst(a: seq<byte>, b: seq<byte>, k: nat) {
    k <= |a| && k < |b| && a[..k] == b[..k] && (k < |a| ==> a[k] < b[k])
  }

  predicate IsText(bs: seq<byte>, s: string) {
    exists k | 1 <= k <= |bs| :: IsShortHead(bs[..k], 3, |Utf8.Encode(s)|) && bs[k..] == Utf8.Encode(s)
  }

  predicate IsKey(bs: seq<byte>, key: Key) {
    match key
    case TextKey(t) => IsText(bs, t)
    case IntKey(n) => IsShortHead(bs, 0, n)
  }

  /** `bs` is the deterministic encoding of the value. */
  ghost predicate IsItem(bs: seq<byte>, v: Value)
    decreases v, 1
  {
    match v
    case Null => bs == [0xF6]
    case Bool(b) => bs == [if b then 0xF5 else 0xF4]
    case Int(i) => if i >= 0 then IsShortHead(bs, 0, i) else IsShortHead(bs, 1, -1 - i)
    case Float(bits) => bs == [0xFB] + bits
    case Text(s) => IsText(bs, s)
    case Bytes(b) => exists h :: IsShortHead(h, 2, |b|) && bs == h + b
    case Array(items) =>
      exists h, parts ::
        && IsShortHead(h, 4, |items|) && |parts| == |items| && bs == h + ConcatAll(parts)
        && forall i | 0 <= i < |items| :: IsItem(parts[i], items[i])
    case Map(entries) =>
      exists h, es, keys, parts :: bs == h + ConcatAll(Interleave(keys, parts)) && IsShortHead(h, 5, |entries|) && AreEntries(v, es, keys, parts)
  }

  /** The entries of the map, in the order of their written keys. */
  ghost predicate AreEntries(v: Value, es: seq<Entry>, keys: seq<seq<byte>>, parts: seq<seq<byte>>)
    requires v.Map?
    decreases v, 0
  {
    && SameEntries(es, v.entries) && |keys| == |parts| == |es| == |v.entries|
    && (forall i | 0 <= i < |es| :: IsKey(keys[i], es[i].key))
    && (forall i | 0 <= i < |es| :: es[i] in v.entries && IsItem(parts[i], es[i].value))
    && forall i, j | 0 <= i < j < |keys| :: Before(keys[i], keys[j])
  }

  ghost predicate SameEntries(es: seq<Entry>, fs: seq<Entry>) { forall e :: e in es <==> e in fs }

  function Interleave(keys: seq<seq<byte>>, parts: seq<seq<byte>>): seq<seq<byte>> {
    if keys == [] || parts == [] then [] else [keys[0], parts[0]] + Interleave(keys[1..], parts[1..])
  }

  // ---------------------------------------------------------------------------
  // The encoder writes exactly that
  // ---------------------------------------------------------------------------

  lemma {:induction false} LessIsBefore(a: seq<byte>, b: seq<byte>)
    ensures Lex.Less(Ints(a), Ints(b)) <==> Before(a, b)
    decreases |a|
  {
    if a != [] && b != [] && a[0] == b[0] {
      LessIsBefore(a[1..], b[1..]);
      assert Ints(a)[1..] == Ints(a[1..]) && Ints(b)[1..] == Ints(b[1..]);
      LaterDifference(a, b);
    } else if b != [] && Lex.Less(Ints(a), Ints(b)) {
      assert AtFirst(a, b, 0);
    } else {
      forall k | 0 <= k <= |a|
        ensures !AtFirst(a, b, k)
      {
        AgreeAtStart(a, b, k);
      }
    }
  }

  lemma AgreeAtStart(a: seq<byte>, b: seq<byte>, k: nat)
    ensures AtFirst(a, b, k) && k > 0 ==> a[0] == b[0]
  {
    if AtFirst(a, b, k) && k > 0 {
      assert a[0] == a[..k][0] && b[0] == b[..k][0];
    }
  }

  lemma LaterDifference(a: seq<byte>, b: seq<byte>)
    requires a != [] && b != [] && a[0] == b[0]
    ensures Before(a, b) <==> Before(a[1..], b[1..])
  {
    var x, y := a[1..], b[1..];
    forall k | 0 <= k < |a|
      ensures AtFirst(x, y, k) <==> AtFirst(a, b, k + 1)
    {
      if k < |y| {
        assert a[..k + 1] == [a[0]] + x[..k] && b[..k + 1] == [b[0]] + y[..k];
        assert a[..k + 1][1..] == x[..k] && b[..k + 1][1..] == y[..k];
      }
    }
    if k :| 0 <= k <= |a| && AtFirst(a, b, k) {
      assert AtFirst(x, y, k - 1);
    }
    if k :| 0 <= k <= |x| && AtFirst(x, y, k) {
      assert AtFirst(a, b, k + 1);
    }
  }

  lemma TextExactly(bs: seq<byte>, s: string)
    requires TextOk(s)
    ensures IsText(bs, s) <==> bs == EncodedText(s)
  {
    hide IsShortHead;
    hide Utf8.Encode;
    hide Head;
    var body := Utf8.Encode(s);
    var h := Head(3, |body|);
    HeadExactly(h, 3, |body|);
    Take(h, body);
    if IsText(bs, s) {
      var k :| 1 <= k <= |bs| && IsShortHead(bs[..k], 3, |body|) && bs[k..] == body;
      HeadExactly(bs[..k], 3, |body|);
      assert bs == bs[..k] + bs[k..];
    }
  }

  lemma KeyExactly(bs: seq<byte>, key: Key)
    requires KeyOk(key)
    ensures IsKey(bs, key) <==> bs == EncodedKey(key)
  {
    match key
    case TextKey(t) => TextExactly(bs, t);
    case IntKey(n) => HeadExactly(bs, 0, n);
  }

  lemma ScalarExactly(bs: seq<byte>, v: Value)
    requires Encodable(v) && !v.Array? && !v.Map?
    ensures IsItem(bs, v) <==> bs == Encode(v)
  {
    hide IsShortHead;
    hide IsText;
    hide Head;
    match v
    case Int(i) => HeadExactly(bs, if i >= 0 then 0 else 1, if i >= 0 then i else -1 - i);
    case Text(s) => TextExactly(bs, s);
    case Bytes(b) => BytesExactly(bs, b);
    case _ =>
  }

  lemma BytesExactly(bs: seq<byte>, b: seq<byte>)
    requires |b| <= MAX_SAFE
    ensures (exists h :: IsShortHead(h, 2, |b|) && bs == h + b) <==> bs == Head(2, |b|) + b
  {
    hide IsShortHead;
    hide Head;
    forall h
      ensures IsShortHead(h, 2, |b|) <==> h == Head(2, |b|)
    {
      HeadExactly(h, 2, |b|);
    }
  }

  /** The encoding of a value is the one deterministic encoding it has. */
  lemma {:induction false} EncodeExactly(bs: seq<byte>, v: Value)
    requires Encodable(v)
    ensures IsItem(bs, v) <==> bs == Encode(v)
    decreases v
  {
    if v.Array? {
      forall i, part | 0 <= i < |v.items|
        ensures IsItem(part, v.items[i]) <==> part == Encode(v.items[i])
      {
        EncodeExactly(part, v.items[i]);
      }
      ArrayExactly(bs, v);
    } else if v.Map? {
      forall e, part | e in v.entries
        ensures IsItem(part, e.value) <==> part == Encode(e.value)
      {
        EncodeExactly(part, e.value);
      }
      NamesMakeKeysDistinct(v.entries);
      MapExactly(bs, v);
    } else {
      ScalarExactly(bs, v);
    }
  }

  lemma {:induction false} JoinItems(v: Value, items: seq<Value>, parts: seq<seq<byte>>)
    requires v.Array? && (forall x | x in items :: x in v.items)
    requires |parts| == |items| && forall i | 0 <= i < |items| :: parts[i] == Encode(items[i])
    ensures ConcatAll(parts) == EncodeItems(v, items)
    decreases |items|
  {
    hide Encode;
    if items != [] {
      assert items[0] in items && forall x | x in items[1..] :: x in items;
      JoinItems(v, items[1..], parts[1..]);
    }
  }

  ghost predicate ItemsExact(items: seq<Value>) {
    forall i, part | 0 <= i < |items| :: IsItem(part, items[i]) <==> part == Encode(items[i])
  }

  lemma ArrayExactly(bs: seq<byte>, v: Value)
    requires v.Array? && |v.items| <= MAX_SAFE && ItemsExact(v.items)
    ensures IsItem(bs, v) <==> bs == Encode(v)
  {
    hide IsShortHead;
    hide Head;
    var n, items := |v.items|, v.items;
    var h, parts := Head(4, n), seq(n, i requires 0 <= i < n => Encode(items[i]));
    HeadExactly(h, 4, n);
    JoinItems(v, items, parts);
    if IsItem(bs, v) {
      var g, ps :| IsShortHead(g, 4, n) && |ps| == n && bs == g + ConcatAll(ps) && forall i | 0 <= i < n :: IsItem(ps[i], items[i]);
      HeadExactly(g, 4, n);
      assert ps == parts;
    }
  }

  lemma {:induction false} JoinEntries(v: Value, es: seq<Entry>, keys: seq<seq<byte>>, parts: seq<seq<byte>>)
    requires v.Map? && (forall e | e in es :: e in v.entries)
    requires |keys| == |parts| == |es|
    requires forall i | 0 <= i < |es| :: keys[i] == EncodedKey(es[i].key) && parts[i] == Encode(es[i].value)
    ensures ConcatAll(Interleave(keys, parts)) == EncodeEntries(v, es)
    decreases |es|
  {
    hide Encode;
    hide EncodedKey;
    if es != [] {
      assert es[0] in es && forall e | e in es[1..] :: e in es;
      JoinEntries(v, es[1..], keys[1..], parts[1..]);
      var tail := Interleave(keys[1..], parts[1..]);
      assert ([keys[0], parts[0]] + tail)[1..] == [parts[0]] + tail;
      assert ([parts[0]] + tail)[1..] == tail;
      Associate(keys[0], parts[0], ConcatAll(tail));
    }
  }

  ghost predicate EntriesExact(entries: seq<Entry>) {
    forall e, part | e in entries :: IsItem(part, e.value) <==> part == Encode(e.value)
  }

  /** Only one order of the entries has increasing keys. */
  lemma OrderFixed(es: seq<Entry>, entries: seq<Entry>)
    requires DistinctKeys(entries) && KeysOk(entries) && SameEntries(es, entries) && Ordered(es)
    ensures es == SortEntries(entries)
  {
    hide KeyOk;
    hide Ordered;
    hide SameKeys;
    var sorted := SortEntries(entries);
    SortOrdered(entries);
    SameElementsSameKeys(es, sorted);
    OrderedAlign(es, sorted);
    forall i | 0 <= i < |es|
      ensures es[i] == sorted[i]
    {
      assert es[i] in entries && sorted[i] in entries;
      OneEntryPerKey(entries, es[i], sorted[i]);
    }
  }

  ghost predicate KeysAre(es: seq<Entry>, keys: seq<seq<byte>>) {
    |keys| == |es| && forall i | 0 <= i < |es| :: keys[i] == EncodedKey(es[i].key)
  }

  /** Written keys increase as the entries do. */
  lemma OrderedExactly(es: seq<Entry>, keys: seq<seq<byte>>)
    requires KeysAre(es, keys)
    ensures (forall i, j | 0 <= i < j < |keys| :: Before(keys[i], keys[j])) <==> Ordered(es)
  {
    hide EncodedKey;
    hide Before;
    forall i, j | 0 <= i < j < |keys|
      ensures Before(keys[i], keys[j]) <==> KeyLess(es[i].key, es[j].key)
    {
      LessIsBefore(keys[i], keys[j]);
    }
  }

  lemma KeysExactly(es: seq<Entry>, keys: seq<seq<byte>>)
    requires |keys| == |es| && KeysOk(es)
    ensures (forall i | 0 <= i < |es| :: IsKey(keys[i], es[i].key)) <==> KeysAre(es, keys)
  {
    hide KeyOk;
    hide IsKey;
    hide EncodedKey;
    forall i | 0 <= i < |es|
      ensures IsKey(keys[i], es[i].key) <==> keys[i] == EncodedKey(es[i].key)
    {
      assert es[i] in es;
      KeyExactly(keys[i], es[i].key);
    }
  }

  lemma MapExactly(bs: seq<byte>, v: Value)
    requires v.Map? && |v.entries| <= MAX_SAFE && DistinctKeys(v.entries) && KeysOk(v.entries) && EntriesExact(v.entries)
    ensures IsItem(bs, v) <==> bs == Encode(v)
  {
    if bs == Encode(v) {
      MapHasFormat(v);
    }
    if IsItem(bs, v) {
      MapFormatFixed(bs, v);
    }
  }

  lemma MapHasFormat(v: Value)
    requires v.Map? && |v.entries| <= MAX_SAFE && DistinctKeys(v.entries) && KeysOk(v.entries) && EntriesExact(v.entries)
    ensures IsItem(Encode(v), v)
  {
    hide Encode;
    hide Head;
    hide SortEntries;
    hide AreEntries;
    hide IsShortHead;
    hide KeysOk;
    hide DistinctKeys;
    hide EntriesExact;
    hide EncodeEntries;
    hide Interleave;
    hide ConcatAll;
    var n, es := |v.entries|, SortEntries(v.entries);
    var keys := seq(n, i requires 0 <= i < n => EncodedKey(es[i].key));
    var parts := seq(n, i requires 0 <= i < n => Encode(es[i].value));
    HeadExactly(Head(5, n), 5, n);
    JoinEntries(v, es, keys, parts);
    MapEncoding(v.entries);
    SortedAreEntries(v, es, keys, parts);
    EntriesMakeItem(v, Head(5, n), es, keys, parts);
  }

  lemma EntriesMakeItem(v: Value, h: seq<byte>, es: seq<Entry>, keys: seq<seq<byte>>, parts: seq<seq<byte>>)
    requires v.Map? && IsShortHead(h, 5, |v.entries|) && AreEntries(v, es, keys, parts)
    ensures IsItem(h + ConcatAll(Interleave(keys, parts)), v)
  {
    hide AreEntries;
    hide IsShortHead;
    hide Interleave;
    hide ConcatAll;
  }

  lemma SortedAreEntries(v: Value, es: seq<Entry>, keys: seq<seq<byte>>, parts: seq<seq<byte>>)
    requires v.Map? && DistinctKeys(v.entries) && KeysOk(v.entries) && EntriesExact(v.entries) && es == SortEntries(v.entries)
    requires KeysAre(es, keys) && |parts| == |es| && forall i | 0 <= i < |es| :: parts[i] == Encode(es[i].value)
    ensures AreEntries(v, es, keys, parts)
  {
    hide KeyOk;
    hide IsKey;
    hide Before;
    hide Ordered;
    hide EncodedKey;
    hide SortEntries;
    hide DistinctKeys;
    hide Encode;
    hide IsItem;
    assert KeysOk(es);
    SortOrdered(v.entries);
    KeysExactly(es, keys);
    OrderedExactly(es, keys);
    assert forall i | 0 <= i < |es| :: es[i] in es;
  }

  lemma MapFormatFixed(bs: seq<byte>, v: Value)
    requires v.Map? && |v.entries| <= MAX_SAFE && DistinctKeys(v.entries) && KeysOk(v.entries) && EntriesExact(v.entries)
    requires IsItem(bs, v)
    ensures bs == Encode(v)
  {
    hide IsShortHead;
    hide AreEntries;
    hide Head;
    hide KeysOk;
    hide DistinctKeys;
    hide EntriesExact;
    hide ConcatAll;
    hide Interleave;
    hide Encode;
    var n := |v.entries|;
    var h, es, keys, parts :| bs == h + ConcatAll(Interleave(keys, parts)) && IsShortHead(h, 5, n) && AreEntries(v, es, keys, parts);
    HeadExactly(h, 5, n);
    EntriesFixed(v, es, keys, parts);
    MapEncoding(v.entries);
  }

  lemma EntriesFixed(v: Value, es: seq<Entry>, keys: seq<seq<byte>>, parts: seq<seq<byte>>)
    requires v.Map? && DistinctKeys(v.entries) && KeysOk(v.entries) && EntriesExact(v.entries) && AreEntries(v, es, keys, parts)
    ensures es == SortEntries(v.entries) && ConcatAll(Interleave(keys, parts)) == EncodeEntries(v, es)
  {
    hide KeyOk;
    hide IsKey;
    hide Before;
    hide EncodedKey;
    hide SortEntries;
    hide DistinctKeys;
    hide Encode;
    hide IsItem;
    OnlyOrder(v.entries, es, keys);
    JoinEntries(v, es, keys, parts);
  }

  /** Increasing keys fix what is written. */
  lemma OnlyOrder(entries: seq<Entry>, es: seq<Entry>, keys: seq<seq<byte>>)
    requires DistinctKeys(entries) && KeysOk(entries) && SameEntries(es, entries) && |keys| == |es|
    requires forall i | 0 <= i < |es| :: IsKey(keys[i], es[i].key)
    requires forall i, j | 0 <= i < j < |keys| :: Before(keys[i], keys[j])
    ensures KeysAre(es, keys) && es == SortEntries(entries)
  {
    hide KeyOk;
    hide IsKey;
    hide Before;
    hide Ordered;
    hide EncodedKey;
    hide SortEntries;
    hide DistinctKeys;
    assert KeysOk(es);
    KeysExactly(es, keys);
    OrderedExactly(es, keys);
    OrderFixed(es, entries);
  }

  // ---------------------------------------------------------------------------
  // In short
  // ---------------------------------------------------------------------------

  function MajorType(v: Value): byte {
    match v
    case Int(i) => if i >= 0 then 0 else 1
    case Bytes(_) => 2
    case Text(_) => 3
    case Array(_) => 4
    case Map(_) => 5
    case _ => 7
  }

  /** The first byte tells the kind of value, and a number up to 23 is its own byte. */
  lemma FirstByte(v: Value)
    requires Encodable(v)
    ensures Encode(v)[0] / 32 == MajorType(v)
    ensures v.Int? && 0 <= v.i <= 23 ==> Encode(v) == [v.i as byte]
    ensures v.Int? && -24 <= v.i < 0 ==> Encode(v) == [(0x1F - v.i) as byte]
  {
    HeadStarts(v);
  }

  lemma HeadStarts(v: Value)
    requires Encodable(v)
    ensures Encode(v)[0] as nat / 32 == MajorType(v) as nat
  {
    hide Encodable;
    hide EncodeItems;
    hide EncodeEntries;
    hide SortEntries;
    hide Utf8.Encode;
    match v
    case Int(i) => HeadMajor(if i >= 0 then 0 else 1, if i >= 0 then i else -1 - i);
    case Text(s) => HeadMajor(3, |Utf8.Encode(s)|);
    case Bytes(b) => HeadMajor(2, |b|);
    case Array(items) => HeadMajor(4, |items|);
    case Map(entries) => HeadMajor(5, |entries|);
    case _ =>
  }

  lemma HeadMajor(majorType: nat, n: nat)
    requires majorType < 8
    ensures Head(majorType, n)[0] as nat / 32 == majorType
  {
  }

  // ---------------------------------------------------------------------------
  // Maps read
  // ---------------------------------------------------------------------------

  datatype Pair = Pair(key: Data, value: Data)

  function Flat(ps: seq<Pair>): seq<Data> {
    if ps == [] then [] else [ps[0].key, ps[0].value] + Flat(ps[1..])
  }

  predicate Named(ps: seq<Pair>, other: KeyPrinter) { forall i | 0 <= i < |ps| :: KeyText(ps[i].key, other).Some? }

  predicate LastAt(ps: seq<Pair>, name: string, i: int, other: KeyPrinter) {
    && 0 <= i < |ps| && KeyText(ps[i].key, other) == Some(name)
    && forall j | i < j < |ps| :: KeyText(ps[j].key, other) != Some(name)
  }

  predicate Nowhere(ps: seq<Pair>, name: string, other: KeyPrinter) {
    forall j | 0 <= j < |ps| :: KeyText(ps[j].key, other) != Some(name)
  }

  /** Each name has the value that comes with it last, and names not read keep what they had. */
  ghost predicate LastWins(ps: seq<Pair>, before: map<string, Data>, fields: map<string, Data>, other: KeyPrinter) {
    && (forall name, i | LastAt(ps, name, i, other) :: name in fields && fields[name] == ps[i].value)
    && (forall name | Nowhere(ps, name, other) ::
          (name in fields <==> name in before) && (name in before ==> fields[name] == before[name]))
  }

  lemma LastWinsStep(ps: seq<Pair>, before: map<string, Data>, fields: map<string, Data>, name: string, other: KeyPrinter)
    requires ps != [] && KeyText(ps[0].key, other) == Some(name)
    requires LastWins(ps[1..], before[name := ps[0].value], fields, other)
    ensures LastWins(ps, before, fields, other)
  {
    hide KeyText;
    var tail := ps[1..];
    forall x
      ensures Nowhere(ps, x, other) ==> x != name && Nowhere(tail, x, other)
    {
      assert KeyText(ps[0].key, other) == Some(name);
    }
    forall x, i | LastAt(ps, x, i, other)
      ensures x in fields && fields[x] == ps[i].value
    {
      if i > 0 {
        assert LastAt(tail, x, i - 1, other);
      } else {
        forall j | 0 <= j < |tail|
          ensures KeyText(tail[j].key, other) != Some(x)
        {
          assert tail[j] == ps[j + 1];
        }
        assert Nowhere(tail, x, other);
      }
    }
  }

  /** A map of n entries is read as 2 n items, keys and values in turn; the last value of a name stays. */
  lemma {:induction false} FieldsAreItems(
      bs: seq<byte>, depth: nat, ps: seq<Pair>, used: nat, before: map<string, Data>, other: KeyPrinter)
    requires depth <= MAX_CBOR_DEPTH && DecodeItems(bs, depth, 2 * |ps|, other) == Ok((Flat(ps), used))
    ensures var r := DecodeFields(bs, depth, |ps|, before, other);
            if Named(ps, other) then r.Ok? && r.value.1 == used && LastWins(ps, before, r.value.0, other)
            else r == Err(KeyNotConvertible)
    decreases |ps|
  {
    hide DecodeItem;
    hide DecodeItems;
    hide DecodeFields;
    hide KeyText;
    if ps == [] {
      NoItems(bs, depth, before, other);
    } else {
      var key, k, value, m := TwoItems(bs, depth, |ps|, other);
      assert Flat(ps)[2..] == Flat(ps[1..]);
      if KeyText(key, other).Some? {
        var name := KeyText(key, other).value;
        FieldsTurn(bs, depth, |ps|, before, other, key, k, value, m, name);
        FieldsAreItems(bs[k + m..], depth, ps[1..], used - k - m, before[name := value], other);
        assert ps[0] == Pair(key, value);
        assert Named(ps, other) <==> Named(ps[1..], other);
        if Named(ps, other) {
          LastWinsStep(ps, before, DecodeFields(bs[k + m..], depth, |ps| - 1, before[name := value], other).value.0, name, other);
        }
      } else {
        UnnamedField(bs, depth, |ps|, before, other);
      }
    }
  }

  lemma NoItems(bs: seq<byte>, depth: nat, before: map<string, Data>, other: KeyPrinter)
    requires depth <= MAX_CBOR_DEPTH
    ensures DecodeItems(bs, depth, 0, other) == Ok(([], 0)) && DecodeFields(bs, depth, 0, before, other) == Ok((before, 0))
  {
  }

  lemma UnnamedField(bs: seq<byte>, depth: nat, count: nat, before: map<string, Data>, other: KeyPrinter)
    requires depth <= MAX_CBOR_DEPTH && count > 0 && DecodeItem(bs, depth, other).Ok?
    requires var (key, k) := DecodeItem(bs, depth, other).value;
             KeyText(key, other) == None && DecodeItem(bs[k..], depth, other).Ok?
    ensures DecodeFields(bs, depth, count, before, other) == Err(KeyNotConvertible)
  {
    hide DecodeItem;
    hide KeyText;
  }

  /** The first two of the items read. */
  lemma TwoItems(bs: seq<byte>, depth: nat, count: nat, other: KeyPrinter) 
    returns (key: Data, k: nat, value: Data, m: nat)
    requires depth <= MAX_CBOR_DEPTH && count > 0 && DecodeItems(bs, depth, 2 * count, other).Ok?
    ensures var (xs, used) := DecodeItems(bs, depth, 2 * count, other).value;
            && k + m <= |bs| && k + m <= used && |xs| >= 2
            && DecodeItem(bs, depth, other) == Ok((key, k)) && DecodeItem(bs[k..], depth, other) == Ok((value, m))
            && DecodeItems(bs[k + m..], depth, 2 * (count - 1), other) == Ok((xs[2..], used - k - m))
            && xs[0] == key && xs[1] == value
  {
    hide DecodeItem;
    key, k := DecodeItem(bs, depth, other).value.0, DecodeItem(bs, depth, other).value.1;
    value, m := DecodeItem(bs[k..], depth, other).value.0, DecodeItem(bs[k..], depth, other).value.1;
    assert bs[k..][m..] == bs[k + m..];
    var ys := DecodeItems(bs[k + m..], depth, 2 * (count - 1), other).value.0;
    assert DecodeItems(bs[k..], depth, 2 * count - 1, other).value.0 == [value] + ys;
    assert ([key] + ([value] + ys))[2..] == ys;
  }

  /** Where the items cannot be read, neither can the map. */
  lemma {:induction false} FieldsNeedItems(bs: seq<byte>, depth: nat, count: nat, before: map<string, Data>, other: KeyPrinter)
    requires depth <= MAX_CBOR_DEPTH && DecodeFields(bs, depth, count, before, other).Ok?
    ensures exists ps :: AreRead(bs, depth, count, ps, other)
    decreases count
  {
    hide DecodeItem;
    hide DecodeItems;
    hide KeyText;
    if count == 0 {
      NoItems(bs, depth, before, other);
      assert AreRead(bs, depth, 0, [], other);
    } else {
      var (key, k) := DecodeItem(bs, depth, other).value;
      var (value, m) := DecodeItem(bs[k..], depth, other).value;
      var name := KeyText(key, other).value;
      FieldsTurn(bs, depth, count, before, other, key, k, value, m, name);
      hide DecodeFields;
      FieldsNeedItems(bs[k + m..], depth, count - 1, before[name := value], other);
      var tail :| AreRead(bs[k + m..], depth, count - 1, tail, other);
      OnePairMore(bs, depth, count, key, k, value, m, tail, other);
    }
  }

  ghost predicate AreRead(bs: seq<byte>, depth: nat, count: nat, ps: seq<Pair>, other: KeyPrinter)
    requires depth <= MAX_CBOR_DEPTH
  {
    |ps| == count && DecodeItems(bs, depth, 2 * count, other).Ok? && DecodeItems(bs, depth, 2 * count, other).value.0 == Flat(ps)
  }

  lemma OnePairMore(bs: seq<byte>, depth: nat, count: nat, key: Data, k: nat, value: Data, m: nat, tail: seq<Pair>, other: KeyPrinter)
    requires depth <= MAX_CBOR_DEPTH && count > 0 && k + m <= |bs|
    requires DecodeItem(bs, depth, other) == Ok((key, k)) && DecodeItem(bs[k..], depth, other) == Ok((value, m))
    requires AreRead(bs[k + m..], depth, count - 1, tail, other)
    ensures AreRead(bs, depth, count, [Pair(key, value)] + tail, other)
  {
    hide DecodeItem;
    var ps := [Pair(key, value)] + tail;
    assert bs[k..][m..] == bs[k + m..];
    assert DecodeItems(bs[k..], depth, 2 * count - 1, other).value.0 == [value] + Flat(tail);
    assert ps[1..] == tail && [key] + ([value] + Flat(tail)) == [key, value] + Flat(tail);
  }
}
