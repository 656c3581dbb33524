/** What decoding an encoding gives, at any depth and before any bytes, and why the bytes of a map do not
    depend on insertion order (section 4.2.1 of RFC 8949). */
module CborLaws {
  import opened Prelude
  import opened Bytes
  import opened Cbor
  import Utf8

  // ---------------------------------------------------------------------------
  // Sorting the entries of a map
  // ---------------------------------------------------------------------------

  predicate NameFree(e: Entry, es: seq<Entry>) {
    forall x | x in es :: KeyName(x.key) != KeyName(e.key)
  }

  lemma {:induction false} InsertMembers(e: Entry, sorted: seq<Entry>)
    ensures forall x :: x in InsertEntry(e, sorted) <==> x == e || x in sorted
  {
    hide KeyLess;
    if !(sorted == [] || KeyLess(e.key, sorted[0].key)) {
      InsertMembers(e, sorted[1..]);
      assert sorted == [sorted[0]] + sorted[1..];
    }
  }

  lemma {:induction false} InsertDistinct(e: Entry, sorted: seq<Entry>)
    requires DistinctNames(sorted) && NameFree(e, sorted)
    ensures DistinctNames(InsertEntry(e, sorted))
  {
    if !(sorted == [] || KeyLess(e.key, sorted[0].key)) {
      var rest := sorted[1..];
      InsertDistinct(e, rest);
      InsertMembers(e, rest);
      var tail := InsertEntry(e, rest);
      forall j | 0 <= j < |tail|
        ensures KeyName(tail[j].key) != KeyName(sorted[0].key)
      {
        assert tail[j] in tail;
        if tail[j] != e {
          var k :| 0 <= k < |rest| && rest[k] == tail[j];
          assert sorted[k + 1] == rest[k];
        }
      }
    }
  }

  lemma {:induction false} SortDistinct(es: seq<Entry>)
    requires DistinctNames(es)
    ensures DistinctNames(SortEntries(es))
  {
    if es != [] {
      var n := |es| - 1;
      SortDistinct(es[..n]);
      InsertDistinct(es[n], SortEntries(es[..n]));
    }
  }

  // ---------------------------------------------------------------------------
  // The object a map decodes to
  // ---------------------------------------------------------------------------

  lemma {:induction false} FieldsLookup(v: Value, es: seq<Entry>)
    requires v.Map? && (forall e | e in es :: e in v.entries) && DistinctNames(es)
    ensures forall e | e in es :: KeyName(e.key) in FieldsOf(v, es) && FieldsOf(v, es)[KeyName(e.key)] == Means(e.value)
    ensures forall k | k in FieldsOf(v, es) :: exists e | e in es :: KeyName(e.key) == k
  {
    if es != [] {
      var rest := es[1..];
      FieldsLookup(v, rest);
      forall e | e in es
        ensures KeyName(e.key) in FieldsOf(v, es) && FieldsOf(v, es)[KeyName(e.key)] == Means(e.value)
      {
        var i :| 0 <= i < |es| && es[i] == e;
        if i > 0 {
          assert rest[i - 1] == e;
        }
      }
      forall k | k in FieldsOf(v, es)
        ensures exists e | e in es :: KeyName(e.key) == k
      {
        if k == KeyName(es[0].key) {
          assert es[0] in es;
        } else {
          var e :| e in rest && KeyName(e.key) == k;
          assert e in es;
        }
      }
    }
  }

  /** Sorting the entries changes nothing about the object. */
  lemma FieldsSorted(v: Value, es: seq<Entry>)
    requires v.Map? && (forall e | e in es :: e in v.entries) && DistinctNames(es)
    ensures FieldsOf(v, SortEntries(es)) == FieldsOf(v, es)
  {
    SortDistinct(es);
    FieldsLookup(v, es);
    FieldsLookup(v, SortEntries(es));
    var a, b := FieldsOf(v, SortEntries(es)), FieldsOf(v, es);
    forall k
      ensures k in a <==> k in b
      ensures k in a && k in b ==> a[k] == b[k]
    {
    }
  }

  // ---------------------------------------------------------------------------
  // Round trip
  // ---------------------------------------------------------------------------

  function Decoded(v: Value, depth: nat): Result<(Data, nat), Error> {
    if depth + Height(v) <= MAX_CBOR_DEPTH then Ok((Means(v), |Encode(v)|)) else Err(DepthExceeded)
  }

  /** Reading a head opens the item it announces. */
  lemma OpenHead(majorType: nat, value: nat, body: seq<byte>)
    requires majorType < 6 && value <= MAX_SAFE
    ensures var h := Head(majorType, value);
            Open(h + body) == OpenCounted(majorType, value, |h|, body)
  {
    var h := Head(majorType, value);
    HeadRoundTrip(majorType, value, body);
    assert (h + body)[0] == h[0] && (h + body)[1..] == h[1..] + body;
    assert (h[1..] + body)[|h| - 1..] == body;
  }

  /** A counted run of bytes is taken whole. */
  lemma OpenRun(majorType: nat, run: seq<byte>, rest: seq<byte>)
    requires (majorType == 2 || majorType == 3) && |run| <= MAX_SAFE
    ensures var h := Head(majorType, |run|);
            Open(h + run + rest) == Ok(Leaf(if majorType == 2 then DBytes(run) else DText(Utf8.Decode(run)), |h| + |run|))
  {
    OpenHead(majorType, |run|, run + rest);
    var h := Head(majorType, |run|);
    assert h + run + rest == h + (run + rest);
    assert (run + rest)[..|run|] == run;
  }

  lemma OpenText(s: string, rest: seq<byte>)
    requires TextOk(s)
    ensures Open(EncodedText(s) + rest) == Ok(Leaf(DText(Utf8.Kept(s)), |EncodedText(s)|))
  {
    hide Open;
    hide Utf8.Decode;
    hide Utf8.Encode;
    hide Head;
    OpenRun(3, Utf8.Encode(s), rest);
    Utf8.RoundTrip(s);
  }

  /** What an encoded key is decoded to, before it is made a property name. */
  function KeyData(k: Key): Data {
    match k
    case TextKey(t) => DText(Utf8.Kept(t))
    case IntKey(n) => DInt(n)
  }

  lemma OpenKey(k: Key, rest: seq<byte>, other: KeyPrinter)
    requires KeyOk(k)
    ensures Open(EncodedKey(k) + rest) == Ok(Leaf(KeyData(k), |EncodedKey(k)|))
    ensures KeyText(KeyData(k), other) == Some(KeyName(k))
  {
    match k
    case TextKey(t) => OpenText(t, rest);
    case IntKey(n) => OpenHead(0, n, rest);
  }

  /** Scalars. */
  lemma OpenScalar(v: Value, rest: seq<byte>)
    requires Encodable(v) && !v.Array? && !v.Map?
    ensures Open(Encode(v) + rest) == Ok(Leaf(Means(v), |Encode(v)|))
  {
    hide Open;
    match v
    case Null => OpenConstant(0xF6, rest);
    case Bool(b) => OpenConstant(if b then 0xF5 else 0xF4, rest);
    case Int(i) => OpenInt(i, rest);
    case Float(bits) => OpenFloat(bits, rest);
    case Text(s) => OpenText(s, rest);
    case Bytes(bs) => OpenRun(2, bs, rest);
  }

  lemma OpenConstant(b: byte, rest: seq<byte>)
    requires b == 0xF4 || b == 0xF5 || b == 0xF6
    ensures Open([b] + rest) == Ok(Leaf(if b == 0xF6 then DNull else DBool(b == 0xF5), 1))
  {
    assert ([b] + rest)[0] == b;
  }

  lemma OpenInt(i: int, rest: seq<byte>)
    requires SafeInteger(i)
    ensures Open(Encode(Int(i)) + rest) == Ok(Leaf(DInt(i), |Encode(Int(i))|))
  {
    hide Open;
    if i >= 0 {
      OpenHead(0, i, rest);
    } else {
      OpenHead(1, -1 - i, rest);
      ToDoubleExact(-i);
    }
  }

  lemma OpenFloat(bits: seq<byte>, rest: seq<byte>)
    requires |bits| == 8
    ensures Open([0xFB] + bits + rest) == Ok(Leaf(DFloat(bits), 9))
  {
    var bs := [0xFB] + bits + rest;
    assert bs[0] == 0xFB;
    assert bs[1..] == bits + rest;
    assert (bits + rest)[..8] == bits;
  }

  /** Decoding an encoding, whatever follows it, gives back the value and stops at its end when it nests
      no deeper than the limit allows, and fails on depth alone otherwise. */
  lemma {:induction false} RoundTrip(v: Value, rest: seq<byte>, depth: nat, other: KeyPrinter)
    requires Encodable(v) && depth <= MAX_CBOR_DEPTH
    ensures DecodeItem(Encode(v) + rest, depth, other) == Decoded(v, depth)
    decreases v
  {
    if depth < MAX_CBOR_DEPTH {
      if v.Array? {
        RoundTripArray(v, rest, depth, other);
      } else if v.Map? {
        RoundTripMap(v, rest, depth, other);
      } else {
        OpenScalar(v, rest);
      }
    }
  }

  lemma ArrayStep(n: nat, body: seq<byte>, depth: nat, other: KeyPrinter)
    requires n <= MAX_SAFE && depth < MAX_CBOR_DEPTH
    ensures DecodeItem(Head(4, n) + body, depth, other)
            == match DecodeItems(body, depth + 1, n, other)
               case Err(e) => Err(e)
               case Ok((items, m)) => Ok((DArray(items), |Head(4, n)| + m))
  {
    hide Open;
    OpenHead(4, n, body);
    Take(Head(4, n), body);
  }

  lemma MapStep(n: nat, body: seq<byte>, depth: nat, other: KeyPrinter)
    requires n <= MAX_SAFE && depth < MAX_CBOR_DEPTH
    ensures DecodeItem(Head(5, n) + body, depth, other)
            == match DecodeFields(body, depth + 1, n, map[], other)
               case Err(e) => Err(e)
               case Ok((fields, m)) => Ok((DObject(fields), |Head(5, n)| + m))
  {
    hide Open;
    OpenHead(5, n, body);
    Take(Head(5, n), body);
  }

  lemma {:induction false} RoundTripArray(v: Value, rest: seq<byte>, depth: nat, other: KeyPrinter)
    requires v.Array? && |v.items| <= MAX_SAFE && AllEncodable(v.items) && depth < MAX_CBOR_DEPTH
    ensures DecodeItem(Encode(v) + rest, depth, other) == Decoded(v, depth)
    decreases v, |v.items| + 1
  {
    hide Open;
    hide Head;
    hide DecodeItem;
    hide DecodeItems;
    hide AllEncodable;
    var n, body := |v.items|, EncodeItems(v, v.items);
    ArrayStep(n, body + rest, depth, other);
    Associate(Head(4, n), body, rest);
    RoundTripItems(v, v.items, rest, depth + 1, other);
  }

  predicate AllEncodable(items: seq<Value>) {
    forall x | x in items :: Encodable(x)
  }

  predicate AllEntriesEncodable(es: seq<Entry>) {
    forall e | e in es :: KeyOk(e.key) && Encodable(e.value)
  }

  function MeansAll(v: Value, items: seq<Value>): seq<Data>
    requires v.Array? && forall x | x in items :: x in v.items
    decreases v, |items|
  {
    seq(|items|, i requires 0 <= i < |items| => Means(items[i]))
  }

  /** One step of the loop over items. */
  lemma ItemsStep(first: seq<byte>, others: seq<byte>, depth: nat, count: nat, other: KeyPrinter)
    requires depth <= MAX_CBOR_DEPTH && count > 0
    ensures DecodeItems(first + others, depth, count, other)
            == match DecodeItem(first + others, depth, other)
               case Err(e) => Err(e)
               case Ok((x, k)) =>
                 if k != |first| then DecodeItems(first + others, depth, count, other)
                 else
                   match DecodeItems(others, depth, count - 1, other)
                   case Err(e) => Err(e)
                   case Ok((xs, m)) => Ok(([x] + xs, k + m))
  {
    hide DecodeItem;
    Take(first, others);
  }

  lemma {:induction false} RoundTripItems(v: Value, items: seq<Value>, rest: seq<byte>, depth: nat, other: KeyPrinter)
    requires v.Array? && AllEncodable(items) && depth <= MAX_CBOR_DEPTH && forall x | x in items :: x in v.items
    ensures DecodeItems(EncodeItems(v, items) + rest, depth, |items|, other)
            == if depth + ItemsHeight(v, items) <= MAX_CBOR_DEPTH then Ok((MeansAll(v, items), |EncodeItems(v, items)|))
               else Err(DepthExceeded)
    decreases v, |items|
  {
    hide Open;
    hide DecodeItem;
    hide Encodable;
    hide Encode;
    hide Height;
    hide Means;
    if items != [] {
      var x, tail := items[0], items[1..];
      assert x in items && forall y | y in tail :: y in items;
      var first, others := Encode(x), EncodeItems(v, tail);
      Associate(first, others, rest);
      RoundTrip(x, others + rest, depth, other);
      ItemsStep(first, others + rest, depth, |items|, other);
      RoundTripItems(v, tail, rest, depth, other);
      assert MeansAll(v, items) == [Means(x)] + MeansAll(v, tail);
    }
  }

  lemma {:induction false} RoundTripMap(v: Value, rest: seq<byte>, depth: nat, other: KeyPrinter)
    requires v.Map? && |v.entries| <= MAX_SAFE && DistinctNames(v.entries) && AllEntriesEncodable(v.entries)
    requires depth < MAX_CBOR_DEPTH
    ensures DecodeItem(Encode(v) + rest, depth, other) == Decoded(v, depth)
    decreases v, |v.entries| + 1
  {
    hide Open;
    hide Head;
    hide DecodeItem;
    hide DecodeFields;
    hide SortEntries;
    hide DistinctNames;
    hide Encodable;
    hide KeyOk;
    hide EncodeEntries;
    hide EntriesHeight;
    hide FieldsOf;
    var es, n := SortEntries(v.entries), |v.entries|;
    var body := EncodeEntries(v, es);
    MapStep(n, body + rest, depth, other);
    Associate(Head(5, n), body, rest);
    SortDistinct(v.entries);
    RoundTripEntries(v, es, map[], rest, depth + 1, other);
    FieldsSorted(v, v.entries);
    assert map[] + FieldsOf(v, es) == FieldsOf(v, es);
  }

  /** One step of the loop over entries. */
  lemma FieldsStep(
      key: seq<byte>, value: seq<byte>, others: seq<byte>, d: Data, name: string,
      depth: nat, count: nat, before: map<string, Data>, other: KeyPrinter)
    requires depth < MAX_CBOR_DEPTH && count > 0
    requires Open(key + (value + others)).Ok?
    requires var o := Open(key + (value + others)).value;
             o.Leaf? && o.used == |key| && KeyText(o.data, other) == Some(name)
    requires DecodeItem(value + others, depth, other) == Ok((d, |value|))
    ensures DecodeFields(key + (value + others), depth, count, before, other)
            == match DecodeFields(others, depth, count - 1, before[name := d], other)
               case Err(e) => Err(e)
               case Ok((fields, n)) => Ok((fields, |key| + |value| + n))
  {
    hide Open;
    hide DecodeItem;
    hide DecodeFields;
    hide KeyText;
    var bs := key + (value + others);
    Take(key, value + others);
    Take(key + value, others);
    Associate(key, value, others);
    LeafItem(bs, depth, other);
    FieldsTurn(bs, depth, count, before, other, Open(bs).value.data, |key|, d, |value|, name);
  }

  lemma LeafItem(bs: seq<byte>, depth: nat, other: KeyPrinter)
    requires depth < MAX_CBOR_DEPTH && Open(bs).Ok? && Open(bs).value.Leaf?
    ensures DecodeItem(bs, depth, other) == Ok((Open(bs).value.data, Open(bs).value.used))
  {
    hide Open;
    hide DecodeItems;
    hide DecodeFields;
  }

  lemma FieldsTurn(
      bs: seq<byte>, depth: nat, count: nat, before: map<string, Data>, other: KeyPrinter,
      key: Data, k: nat, value: Data, m: nat, name: string)
    requires depth <= MAX_CBOR_DEPTH && count > 0 && k + m <= |bs|
    requires DecodeItem(bs, depth, other) == Ok((key, k)) && DecodeItem(bs[k..], depth, other) == Ok((value, m))
    requires KeyText(key, other) == Some(name)
    ensures DecodeFields(bs, depth, count, before, other)
            == match DecodeFields(bs[k + m..], depth, count - 1, before[name := value], other)
               case Err(e) => Err(e)
               case Ok((fields, n)) => Ok((fields, k + m + n))
  {
    hide DecodeItem;
    hide KeyText;
  }

  lemma FieldsStop(key: seq<byte>, tail: seq<byte>, depth: nat, count: nat, before: map<string, Data>, other: KeyPrinter)
    requires depth <= MAX_CBOR_DEPTH && count > 0
    requires depth < MAX_CBOR_DEPTH ==> Open(key + tail).Ok? && Open(key + tail).value.Leaf? && Open(key + tail).value.used == |key|
    requires DecodeItem(tail, depth, other) == Err(DepthExceeded)
    ensures DecodeFields(key + tail, depth, count, before, other) == Err(DepthExceeded)
  {
    Take(key, tail);
    if depth < MAX_CBOR_DEPTH {
      assert DecodeItem(key + tail, depth, other) == Ok((Open(key + tail).value.data, |key|));
    }
  }

  lemma {:induction false} RoundTripEntries(
      v: Value, es: seq<Entry>, before: map<string, Data>, rest: seq<byte>, depth: nat, other: KeyPrinter)
    requires v.Map? && (forall e | e in es :: e in v.entries) && DistinctNames(es) && AllEntriesEncodable(es)
    requires depth <= MAX_CBOR_DEPTH
    ensures DecodeFields(EncodeEntries(v, es) + rest, depth, |es|, before, other)
            == if depth + EntriesHeight(v, es) <= MAX_CBOR_DEPTH then Ok((before + FieldsOf(v, es), |EncodeEntries(v, es)|))
               else Err(DepthExceeded)
    decreases v, |es|
  {
    hide DecodeItem;
    hide Encodable;
    hide EncodedKey;
    hide KeyOk;
    hide KeyName;
    hide Encode;
    hide Height;
    hide Means;
    if es == [] {
      assert before + FieldsOf(v, es) == before;
    } else {
      hide Open;
      hide KeyText;
      hide DecodeFields;
      hide EncodeEntries;
      hide EntriesHeight;
      hide FieldsOf;
      hide DistinctNames;
      hide AllEntriesEncodable;
      var e, tail := es[0], es[1..];
      TailFacts(v, es);
      RoundTrip(e.value, EncodeEntries(v, tail) + rest, depth, other);
      EntriesParts(v, es, rest);
      if depth + Height(e.value) <= MAX_CBOR_DEPTH {
        EntryDecodes(v, es, before, rest, depth, other);
        RoundTripEntries(v, tail, before[KeyName(e.key) := Means(e.value)], rest, depth, other);
        MergeFields(v, es, before);
      } else {
        EntryTooDeep(v, es, before, rest, depth, other);
      }
    }
  }

  lemma EntryDecodes(v: Value, es: seq<Entry>, before: map<string, Data>, rest: seq<byte>, depth: nat, other: KeyPrinter)
    requires v.Map? && (forall e | e in es :: e in v.entries) && es != [] && KeyOk(es[0].key)
    requires depth + Height(es[0].value) <= MAX_CBOR_DEPTH
    requires DecodeItem(Encode(es[0].value) + (EncodeEntries(v, es[1..]) + rest), depth, other) == Decoded(es[0].value, depth)
    ensures DecodeFields(EncodeEntries(v, es) + rest, depth, |es|, before, other)
            == match DecodeFields(EncodeEntries(v, es[1..]) + rest, depth, |es| - 1,
                                  before[KeyName(es[0].key) := Means(es[0].value)], other)
               case Err(e) => Err(e)
               case Ok((fields, n)) => Ok((fields, |EncodedKey(es[0].key)| + |Encode(es[0].value)| + n))
  {
    hide Open;
    hide DecodeItem;
    hide DecodeFields;
    hide EncodedKey;
    hide EncodeEntries;
    hide Encode;
    hide Height;
    hide Means;
    hide KeyText;
    hide KeyName;
    hide KeyOk;
    var key, value, tail := EncodedKey(es[0].key), Encode(es[0].value), EncodeEntries(v, es[1..]) + rest;
    EntriesParts(v, es, rest);
    OpenKey(es[0].key, value + tail, other);
    FieldsStep(key, value, tail, Means(es[0].value), KeyName(es[0].key), depth, |es|, before, other);
  }

  lemma EntryTooDeep(v: Value, es: seq<Entry>, before: map<string, Data>, rest: seq<byte>, depth: nat, other: KeyPrinter)
    requires v.Map? && (forall e | e in es :: e in v.entries) && es != [] && KeyOk(es[0].key)
    requires depth <= MAX_CBOR_DEPTH < depth + Height(es[0].value)
    requires DecodeItem(Encode(es[0].value) + (EncodeEntries(v, es[1..]) + rest), depth, other) == Decoded(es[0].value, depth)
    ensures DecodeFields(EncodeEntries(v, es) + rest, depth, |es|, before, other) == Err(DepthExceeded)
  {
    hide Open;
    hide DecodeItem;
    hide DecodeFields;
    hide EncodedKey;
    hide EncodeEntries;
    hide Encode;
    hide Height;
    hide KeyOk;
    var tail := EncodeEntries(v, es[1..]) + rest;
    EntriesParts(v, es, rest);
    OpenKey(es[0].key, Encode(es[0].value) + tail, other);
    FieldsStop(EncodedKey(es[0].key), Encode(es[0].value) + tail, depth, |es|, before, other);
  }

  lemma TailFacts(v: Value, es: seq<Entry>)
    requires v.Map? && (forall e | e in es :: e in v.entries) && DistinctNames(es) && AllEntriesEncodable(es) && es != []
    ensures (forall e | e in es[1..] :: e in v.entries) && DistinctNames(es[1..]) && AllEntriesEncodable(es[1..])
    ensures es[0] in v.entries && KeyOk(es[0].key) && Encodable(es[0].value)
  {
    hide Encodable;
    assert es[0] in es && forall e | e in es[1..] :: e in es;
  }

  lemma NameNotInTail(v: Value, es: seq<Entry>)
    requires v.Map? && (forall e | e in es :: e in v.entries) && DistinctNames(es) && es != []
    ensures KeyName(es[0].key) !in FieldsOf(v, es[1..])
  {
    var tail := es[1..];
    FieldsLookup(v, tail);
    forall e | e in tail
      ensures KeyName(e.key) != KeyName(es[0].key)
    {
      var i :| 0 <= i < |tail| && tail[i] == e;
      assert es[i + 1] == e;
    }
  }

  lemma MergeFields(v: Value, es: seq<Entry>, before: map<string, Data>)
    requires v.Map? && (forall e | e in es :: e in v.entries) && DistinctNames(es) && es != []
    ensures before[KeyName(es[0].key) := Means(es[0].value)] + FieldsOf(v, es[1..]) == before + FieldsOf(v, es)
  {
    hide Means;
    hide KeyName;
    NameNotInTail(v, es);
  }

  lemma EntriesParts(v: Value, es: seq<Entry>, rest: seq<byte>)
    requires v.Map? && (forall e | e in es :: e in v.entries) && es != []
    ensures var key, value, others := EncodedKey(es[0].key), Encode(es[0].value), EncodeEntries(v, es[1..]);
            && EncodeEntries(v, es) + rest == key + (value + (others + rest))
            && |EncodeEntries(v, es)| == |key| + |value| + |others|
    ensures EntriesHeight(v, es) == Max(Height(es[0].value), EntriesHeight(v, es[1..]))
  {
    hide EncodedKey;
    hide Encode;
    hide Height;
    var key, value, others := EncodedKey(es[0].key), Encode(es[0].value), EncodeEntries(v, es[1..]);
    Associate(key + value, others, rest);
    Associate(key, value, others + rest);
  }
}
