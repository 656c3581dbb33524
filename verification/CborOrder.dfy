/** Deterministic encoding (section 4.2.1 of RFC 8949): the bytes of a map depend on its entries alone, not
    on the order they were inserted in, and equal meanings have equal encodings. */
module CborOrder {
  import opened Prelude
  import opened Bytes
  import opened Cbor
  import opened CborLaws
  import Lex
  import Utf8

  predicate KeysOk(es: seq<Entry>) { forall e | e in es :: KeyOk(e.key) }

  predicate DistinctKeys(es: seq<Entry>) { forall i, j | 0 <= i < j < |es| :: es[i].key != es[j].key }

  /** Encoded keys strictly increase, bytewise. */
  predicate Ordered(es: seq<Entry>) { forall i, j | 0 <= i < j < |es| :: KeyLess(es[i].key, es[j].key) }

  lemma IntsInjective(a: seq<byte>, b: seq<byte>)
    requires Ints(a) == Ints(b)
    ensures a == b
  {
    assert |a| == |Ints(a)| == |b|;
    forall i | 0 <= i < |a|
      ensures a[i] == b[i]
    {
      assert Ints(a)[i] == Ints(b)[i];
    }
  }

  lemma EncodedTextInjective(s: string, t: string)
    requires TextOk(s) && TextOk(t) && EncodedText(s) == EncodedText(t)
    ensures s == t
  {
    var a, b := Utf8.Encode(s), Utf8.Encode(t);
    var g, h := Head(3, |a|), Head(3, |b|);
    hide Head;
    HeadRoundTrip(3, |a|, a);
    HeadRoundTrip(3, |b|, b);
    assert (g + a)[0] == g[0] && (h + b)[0] == h[0];
    assert (g + a)[1..] == g[1..] + a && (h + b)[1..] == h[1..] + b;
    Take(g, a);
    Take(h, b);
    Utf8.EncodeInjective(s, t);
  }

  lemma EncodedKeyInjective(a: Key, b: Key)
    requires KeyOk(a) && KeyOk(b) && EncodedKey(a) == EncodedKey(b)
    ensures a == b
  {
    hide Open;
    match (a, b)
    case (TextKey(s), TextKey(t)) => EncodedTextInjective(s, t);
    case (IntKey(m), IntKey(n)) =>
      OpenHead(0, m, []);
      OpenHead(0, n, []);
    case (TextKey(s), IntKey(n)) =>
      OpenText(s, []);
      OpenHead(0, n, []);
    case (IntKey(n), TextKey(s)) =>
      OpenText(s, []);
      OpenHead(0, n, []);
  }

  lemma KeyLessTotal(a: Key, b: Key)
    requires KeyOk(a) && KeyOk(b) && a != b
    ensures KeyLess(a, b) || KeyLess(b, a)
  {
    hide EncodedKey;
    if EncodedKey(a) == EncodedKey(b) {
      EncodedKeyInjective(a, b);
    }
    if Ints(EncodedKey(a)) == Ints(EncodedKey(b)) {
      IntsInjective(EncodedKey(a), EncodedKey(b));
    }
    Lex.Total(Ints(EncodedKey(a)), Ints(EncodedKey(b)));
  }

  lemma KeyLessTransitive(a: Key, b: Key, c: Key)
    requires KeyLess(a, b) && KeyLess(b, c)
    ensures KeyLess(a, c)
  {
    Lex.Transitive(Ints(EncodedKey(a)), Ints(EncodedKey(b)), Ints(EncodedKey(c)));
  }

  lemma {:induction false} InsertOrdered(e: Entry, sorted: seq<Entry>)
    requires Ordered(sorted) && KeysOk(sorted) && KeyOk(e.key) && forall x | x in sorted :: x.key != e.key
    ensures Ordered(InsertEntry(e, sorted))
  {
    hide EncodedKey;
    hide KeyOk;
    hide KeyLess;
    if sorted == [] {
    } else if KeyLess(e.key, sorted[0].key) {
      forall i | 0 <= i < |sorted|
        ensures KeyLess(e.key, sorted[i].key)
      {
        if i > 0 {
          KeyLessTransitive(e.key, sorted[0].key, sorted[i].key);
        }
      }
    } else {
      KeyLessTotal(e.key, sorted[0].key);
      var rest := sorted[1..];
      InsertOrdered(e, rest);
      InsertMembers(e, rest);
      var tail := InsertEntry(e, rest);
      forall j | 0 <= j < |tail|
        ensures KeyLess(sorted[0].key, tail[j].key)
      {
        assert tail[j] in tail;
        if tail[j] != e {
          var k :| 0 <= k < |rest| && rest[k] == tail[j];
          assert sorted[k + 1] == rest[k];
        }
      }
    }
  }

  /** The keys of an encoded map come in strictly increasing bytewise order. */
  lemma {:induction false} SortOrdered(es: seq<Entry>)
    requires DistinctKeys(es) && KeysOk(es)
    ensures Ordered(SortEntries(es))
  {
    hide KeyOk;
    if es != [] {
      var n := |es| - 1;
      SortOrdered(es[..n]);
      InsertOrdered(es[n], SortEntries(es[..n]));
    }
  }

  /** The encoded keys of ordered entries, as a strictly sorted sequence. */
  function KeyBytes(es: seq<Entry>): seq<seq<int>> {
    seq(|es|, i requires 0 <= i < |es| => Ints(EncodedKey(es[i].key)))
  }

  predicate HasKey(es: seq<Entry>, k: Key) { exists e | e in es :: e.key == k }

  ghost predicate SameKeys(es: seq<Entry>, fs: seq<Entry>) {
    forall k :: HasKey(es, k) <==> HasKey(fs, k)
  }

  lemma KeyBytesWithin(es: seq<Entry>, fs: seq<Entry>, x: seq<int>)
    requires SameKeys(es, fs) && x in KeyBytes(es)
    ensures x in KeyBytes(fs)
  {
    hide EncodedKey;
    var i :| 0 <= i < |es| && KeyBytes(es)[i] == x;
    assert es[i] in es && HasKey(es, es[i].key);
    var f :| f in fs && f.key == es[i].key;
    var j :| 0 <= j < |fs| && fs[j] == f;
    assert KeyBytes(fs)[j] == x;
  }

  /** Ordered entries with the same keys list them in the same order. */
  lemma OrderedAlign(es: seq<Entry>, fs: seq<Entry>)
    requires Ordered(es) && Ordered(fs) && KeysOk(es) && KeysOk(fs) && SameKeys(es, fs)
    ensures |es| == |fs| && forall i | 0 <= i < |es| :: es[i].key == fs[i].key
  {
    hide EncodedKey;
    hide SameKeys;
    hide KeyOk;
    assert SameKeys(fs, es) by { Swap(es, fs); }
    assert Lex.StrictlySorted(KeyBytes(es)) && Lex.StrictlySorted(KeyBytes(fs));
    forall x
      ensures x in KeyBytes(es) <==> x in KeyBytes(fs)
    {
      if x in KeyBytes(es) { KeyBytesWithin(es, fs, x); }
      if x in KeyBytes(fs) { KeyBytesWithin(fs, es, x); }
    }
    Lex.SortedUnique(KeyBytes(es), KeyBytes(fs));
    assert |es| == |KeyBytes(es)| == |fs|;
    forall i | 0 <= i < |es|
      ensures es[i].key == fs[i].key
    {
      assert KeyBytes(es)[i] == KeyBytes(fs)[i];
      IntsInjective(EncodedKey(es[i].key), EncodedKey(fs[i].key));
      EncodedKeyInjective(es[i].key, fs[i].key);
    }
  }

  lemma Swap(es: seq<Entry>, fs: seq<Entry>)
    requires SameKeys(es, fs)
    ensures SameKeys(fs, es)
  {
  }

  /** Entries that agree on keys and on encoded values encode alike, whichever map they belong to. */
  lemma {:induction false} EntriesAlike(v: Value, es: seq<Entry>, w: Value, fs: seq<Entry>)
    requires v.Map? && w.Map? && (forall e | e in es :: e in v.entries) && (forall f | f in fs :: f in w.entries)
    requires |es| == |fs| && forall i | 0 <= i < |es| :: es[i].key == fs[i].key && Encode(es[i].value) == Encode(fs[i].value)
    ensures EncodeEntries(v, es) == EncodeEntries(w, fs)
    decreases |es|
  {
    hide Encode;
    hide EncodedKey;
    if es != [] {
      assert es[0] in es && fs[0] in fs;
      EntriesAlike(v, es[1..], w, fs[1..]);
    }
  }

  lemma {:induction false} ItemsAlike(v: Value, xs: seq<Value>, w: Value, ys: seq<Value>)
    requires v.Array? && w.Array? && (forall x | x in xs :: x in v.items) && (forall y | y in ys :: y in w.items)
    requires |xs| == |ys| && forall i | 0 <= i < |xs| :: Encode(xs[i]) == Encode(ys[i])
    ensures EncodeItems(v, xs) == EncodeItems(w, ys)
    decreases |xs|
  {
    hide Encode;
    if xs != [] {
      assert xs[0] in xs && ys[0] in ys;
      ItemsAlike(v, xs[1..], w, ys[1..]);
    }
  }

  /** Maps with the same entries, text and integer keys alike, encode to identical bytes for every
      insertion order. */
  lemma InsertionOrderIrrelevant(es: seq<Entry>, fs: seq<Entry>)
    requires DistinctKeys(es) && DistinctKeys(fs) && KeysOk(es) && forall e :: e in es <==> e in fs
    ensures SortEntries(es) == SortEntries(fs)
    ensures Encode(Map(es)) == Encode(Map(fs))
  {
    hide KeyOk;
    hide Ordered;
    hide SameKeys;
    hide Encode;
    hide EncodeEntries;
    SortOrdered(es);
    SortOrdered(fs);
    var a, b := SortEntries(es), SortEntries(fs);
    SameElementsSameKeys(a, b);
    OrderedAlign(a, b);
    forall i | 0 <= i < |a|
      ensures a[i] == b[i]
    {
      assert a[i] in fs && b[i] in fs;
      OneEntryPerKey(fs, a[i], b[i]);
    }
    assert a == b;
    EntriesAlike(Map(es), a, Map(fs), b);
    MapEncoding(es);
    MapEncoding(fs);
  }

  lemma MapEncoding(es: seq<Entry>)
    ensures Encode(Map(es)) == Head(5, |SortEntries(es)|) + EncodeEntries(Map(es), SortEntries(es))
  {
  }

  lemma SameElementsSameKeys(a: seq<Entry>, b: seq<Entry>)
    requires forall e :: e in a <==> e in b
    ensures SameKeys(a, b)
  {
    forall k
      ensures HasKey(a, k) <==> HasKey(b, k)
    {
      if e :| e in a && e.key == k {
        assert e in b;
      }
      if e :| e in b && e.key == k {
        assert e in a;
      }
    }
  }

  lemma OneEntryPerKey(es: seq<Entry>, e: Entry, f: Entry)
    requires DistinctKeys(es) && e in es && f in es && e.key == f.key
    ensures e == f
  {
  }

  // ---------------------------------------------------------------------------
  // Meaning determines the bytes
  // ---------------------------------------------------------------------------

  predicate NoBom(k: Key) { k.TextKey? && !Utf8.LeadingBom(k.text) }

  /** No text starts with a byte order mark, and every map is a plain object: its keys are text. */
  predicate TextKeyed(v: Value) {
    match v
    case Text(s) => !Utf8.LeadingBom(s)
    case Array(items) => forall x | x in items :: TextKeyed(x)
    case Map(entries) => forall e | e in entries :: NoBom(e.key) && TextKeyed(e.value)
    case _ => true
  }

  /** Values that mean the same have the same encoding. */
  lemma {:induction false} MeaningFixesBytes(v: Value, w: Value)
    requires Encodable(v) && Encodable(w) && TextKeyed(v) && TextKeyed(w) && Means(v) == Means(w)
    ensures Encode(v) == Encode(w)
    decreases v
  {
    if v.Array? && w.Array? {
      assert |v.items| == |Means(v).items| == |w.items|;
      forall i | 0 <= i < |v.items|
        ensures Encode(v.items[i]) == Encode(w.items[i])
      {
        assert Means(v).items[i] == Means(v.items[i]) && Means(w).items[i] == Means(w.items[i]);
        MeaningFixesBytes(v.items[i], w.items[i]);
      }
      ItemsAlike(v, v.items, w, w.items);
    } else if v.Map? && w.Map? {
      ObjectFixesBytes(v, w);
    }
  }

  lemma FieldsShareKeys(v: Value, es: seq<Entry>, w: Value, fs: seq<Entry>)
    requires v.Map? && w.Map? && (forall e | e in es :: e in v.entries) && (forall f | f in fs :: f in w.entries)
    requires DistinctNames(es) && DistinctNames(fs) && FieldsOf(v, es) == FieldsOf(w, fs)
    requires (forall e | e in es :: NoBom(e.key)) && forall f | f in fs :: NoBom(f.key)
    ensures SameKeys(es, fs)
    ensures forall e, f | e in es && f in fs && e.key == f.key :: Means(e.value) == Means(f.value)
  {
    hide Means;
    FieldsLookup(v, es);
    FieldsLookup(w, fs);
    forall k
      ensures HasKey(es, k) <==> HasKey(fs, k)
    {
      if e :| e in es && e.key == k {
        assert e.key == k && KeyName(e.key) in FieldsOf(w, fs);
        var f :| f in fs && KeyName(f.key) == KeyName(k);
        assert f.key == k;
      }
      if f :| f in fs && f.key == k {
        assert f.key == k && KeyName(f.key) in FieldsOf(v, es);
        var e :| e in es && KeyName(e.key) == KeyName(k);
        assert e.key == k;
      }
    }
  }

  lemma NamesMakeKeysDistinct(es: seq<Entry>)
    requires DistinctNames(es)
    ensures DistinctKeys(es)
  {
    hide KeyName;
  }

  lemma {:induction false} ObjectFixesBytes(v: Value, w: Value)
    requires v.Map? && w.Map? && Encodable(v) && Encodable(w) && TextKeyed(v) && TextKeyed(w) && Means(v) == Means(w)
    ensures Encode(v) == Encode(w)
    decreases v, 0
  {
    hide KeyOk;
    hide DistinctNames;
    hide DistinctKeys;
    hide SortEntries;
    hide Ordered;
    hide SameKeys;
    var es, fs := SortEntries(v.entries), SortEntries(w.entries);
    NamesMakeKeysDistinct(v.entries);
    NamesMakeKeysDistinct(w.entries);
    SortOrdered(v.entries);
    SortOrdered(w.entries);
    SortDistinct(v.entries);
    SortDistinct(w.entries);
    FieldsSorted(v, v.entries);
    FieldsSorted(w, w.entries);
    FieldsShareKeys(v, es, w, fs);
    OrderedAlign(es, fs);
    forall i | 0 <= i < |es|
      ensures Encode(es[i].value) == Encode(fs[i].value)
    {
      assert es[i] in es && fs[i] in fs;
      assert es[i] in v.entries && fs[i] in w.entries;
      MeaningFixesBytes(es[i].value, fs[i].value);
    }
    EntriesAlike(v, es, w, fs);
  }

  /** Within the depth limit, two values have the same bytes exactly when they mean the same. */
  lemma SameBytesIffSameMeaning(v: Value, w: Value)
    requires Encodable(v) && Encodable(w) && TextKeyed(v) && TextKeyed(w)
    requires Height(v) <= MAX_CBOR_DEPTH && Height(w) <= MAX_CBOR_DEPTH
    ensures Encode(v) == Encode(w) <==> Means(v) == Means(w)
  {
    hide Encodable;
    hide TextKeyed;
    hide Encode;
    hide Means;
    hide Height;
    if Means(v) == Means(w) {
      MeaningFixesBytes(v, w);
    }
    RoundTrip(v, [], 0, _ => None);
    RoundTrip(w, [], 0, _ => None);
  }
}
