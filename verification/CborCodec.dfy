/** The encoder and decoder objects of src/cborCodec.ts, proved against the functions of `Cbor`. */
module CborCodec {
  import opened Prelude
  import opened Bytes
  import Cbor
  import Lex
  import Utf8

  function Flat(chunks: seq<seq<byte>>): seq<byte> {
    if chunks == [] then [] else Flat(chunks[..|chunks| - 1]) + chunks[|chunks| - 1]
  }

  lemma FlatPush(chunks: seq<seq<byte>>, c: seq<byte>)
    ensures Flat(chunks + [c]) == Flat(chunks) + c
  {
    assert (chunks + [c])[..|chunks|] == chunks;
  }

  /** `_compareBytes`: negative, zero or positive as `a` comes before, is, or comes after `b`. */
  method CompareBytes(a: seq<byte>, b: seq<byte>) returns (diff: int)
    ensures diff < 0 <==> Lex.Less(Cbor.Ints(a), Cbor.Ints(b))
    ensures diff == 0 <==> a == b
  {
    var len := if |a| < |b| then |a| else |b|;
    for i := 0 to len
      invariant a[..i] == b[..i]
      invariant Lex.Less(Cbor.Ints(a), Cbor.Ints(b)) <==> Lex.Less(Cbor.Ints(a[i..]), Cbor.Ints(b[i..]))
    {
      assert Cbor.Ints(a[i..])[1..] == Cbor.Ints(a[i + 1..]) && Cbor.Ints(b[i..])[1..] == Cbor.Ints(b[i + 1..]);
      assert Cbor.Ints(a[i..])[0] == a[i] as int && Cbor.Ints(b[i..])[0] == b[i] as int;
      diff := a[i] as int - b[i] as int;
      if diff != 0 {
        return;
      }
    }
    diff := |a| - |b|;
    assert |a| == |b| ==> a == a[..len] && b == b[..len];
  }

  lemma EntryPassed(e: Cbor.Entry, sorted: seq<Cbor.Entry>, i: nat)
    requires i < |sorted| && !Cbor.KeyLess(e.key, sorted[i].key)
    ensures sorted[..i] + Cbor.InsertEntry(e, sorted[i..]) == sorted[..i + 1] + Cbor.InsertEntry(e, sorted[i + 1..])
  {
    hide Cbor.KeyLess;
    assert sorted[i..][0] == sorted[i] && sorted[i..][1..] == sorted[i + 1..];
    assert sorted[..i] + [sorted[i]] == sorted[..i + 1];
    var rest := Cbor.InsertEntry(e, sorted[i + 1..]);
    assert Cbor.InsertEntry(e, sorted[i..]) == [sorted[i]] + rest;
    assert sorted[..i] + ([sorted[i]] + rest) == (sorted[..i] + [sorted[i]]) + rest;
  }

  /** An entry goes before the first one the comparison puts after it. */
  method InsertByKey(e: Cbor.Entry, sorted: seq<Cbor.Entry>) returns (r: seq<Cbor.Entry>)
    ensures r == Cbor.InsertEntry(e, sorted)
  {
    hide Cbor.EncodedKey;
    hide Cbor.InsertEntry;
    assert sorted[..0] + Cbor.InsertEntry(e, sorted[0..]) == Cbor.InsertEntry(e, sorted);
    for i := 0 to |sorted|
      invariant sorted[..i] + Cbor.InsertEntry(e, sorted[i..]) == Cbor.InsertEntry(e, sorted)
    {
      var diff := CompareBytes(Cbor.EncodedKey(e.key), Cbor.EncodedKey(sorted[i].key));
      if diff < 0 {
        PlacedHere(e, sorted[i..]);
        return sorted[..i] + ([e] + sorted[i..]);
      }
      EntryPassed(e, sorted, i);
    }
    PlacedHere(e, sorted[|sorted|..]);
    return sorted[..|sorted|] + ([e] + sorted[|sorted|..]);
  }

  lemma PlacedHere(e: Cbor.Entry, sorted: seq<Cbor.Entry>)
    requires sorted == [] || Cbor.KeyLess(e.key, sorted[0].key)
    ensures Cbor.InsertEntry(e, sorted) == [e] + sorted
  {
  }

  /** `encoded.sort((a, b) => compareBytes(a.keyEncoded, b.keyEncoded))`, as an insertion sort. */
  method SortByKey(entries: seq<Cbor.Entry>) returns (sorted: seq<Cbor.Entry>)
    ensures sorted == Cbor.SortEntries(entries)
  {
    hide Cbor.InsertEntry;
    sorted := [];
    for n := 0 to |entries|
      invariant sorted == Cbor.SortEntries(entries[..n])
    {
      assert entries[..n + 1][..n] == entries[..n];
      sorted := InsertByKey(entries[n], sorted);
    }
    assert entries[..|entries|] == entries;
  }

  /** `result.set(chunk, offset)`. */
  method CopyInto(result: array<byte>, offset: nat, chunk: seq<byte>)
    requires offset + |chunk| <= result.Length
    modifies result
    ensures result[..offset + |chunk|] == old(result[..offset]) + chunk
  {
    for j := 0 to |chunk|
      invariant result[..offset + j] == old(result[..offset]) + chunk[..j]
    {
      result[offset + j] := chunk[j];
      assert result[..offset + j + 1] == result[..offset + j] + [chunk[j]];
    }
  }

  class CborEncoder {
    var chunks: seq<seq<byte>>

    constructor ()
      ensures chunks == []
    {
      chunks := [];
    }

    /** `encode`. */
    method Encode(value: Cbor.Value) returns (bytes: seq<byte>)
      modifies this
      ensures bytes == Cbor.Encode(value)
    {
      chunks := [];
      EncodeValue(value);
      bytes := Concat();
    }

    method Push(bytes: seq<byte>)
      modifies this
      ensures Flat(chunks) == old(Flat(chunks)) + bytes
    {
      FlatPush(chunks, bytes);
      chunks := chunks + [bytes];
    }

    /** `_encode`: pushes exactly the encoding of the value. */
    method EncodeValue(value: Cbor.Value)
      modifies this
      ensures Flat(chunks) == old(Flat(chunks)) + Cbor.Encode(value)
      decreases value
    {
      match value
      case Null => Push([0xF6]);
      case Bool(b) => Push([if b then 0xF5 else 0xF4]);
      case Int(i) =>
        if i >= 0 {
          Push(Cbor.Head(0, i));
        } else {
          Push(Cbor.Head(1, -1 - i));
        }
      case Float(bits) => PushTwo([0xFB], bits);
      case Text(s) => PushText(s);
      case Bytes(bs) => PushTwo(Cbor.Head(2, |bs|), bs);
      case Array(items) => EncodeArray(value);
      case Map(entries) => EncodeMap(value);
    }

    method PushTwo(a: seq<byte>, b: seq<byte>)
      modifies this
      ensures Flat(chunks) == old(Flat(chunks)) + (a + b)
    {
      Push(a);
      Push(b);
    }

    /** `_encodeString`. */
    method PushText(s: string)
      modifies this
      ensures Flat(chunks) == old(Flat(chunks)) + Cbor.EncodedText(s)
    {
      var bytes := Utf8.Encode(s);
      PushTwo(Cbor.Head(3, |bytes|), bytes);
    }

    method PushKey(k: Cbor.Key)
      modifies this
      ensures Flat(chunks) == old(Flat(chunks)) + Cbor.EncodedKey(k)
    {
      match k
      case TextKey(t) => PushText(t);
      case IntKey(n) => Push(Cbor.Head(0, n));
    }

    /** `_encodeArray`. */
    method EncodeArray(value: Cbor.Value)
      requires value.Array?
      modifies this
      ensures Flat(chunks) == old(Flat(chunks)) + Cbor.Encode(value)
      decreases value, 0
    {
      hide Flat;
      var items := value.items;
      ghost var before := Flat(chunks) + Cbor.Head(4, |items|);
      Associate(Flat(chunks), Cbor.Head(4, |items|), Cbor.EncodeItems(value, items));
      Push(Cbor.Head(4, |items|));
      for i := 0 to |items|
        invariant before + Cbor.EncodeItems(value, items) == Flat(chunks) + Cbor.EncodeItems(value, items[i..])
      {
        assert items[i] in items && items[i..][0] == items[i] && items[i..][1..] == items[i + 1..];
        ghost var soFar := Flat(chunks);
        EncodeValue(items[i]);
        Associate(soFar, Cbor.Encode(items[i]), Cbor.EncodeItems(value, items[i + 1..]));
      }
      assert items[|items|..] == [] && Flat(chunks) + [] == Flat(chunks);
    }

    /** `_encodeMapFromEntries` and `_encodeMapFromAnyEntries`. */
    method EncodeMap(value: Cbor.Value)
      requires value.Map?
      modifies this
      ensures Flat(chunks) == old(Flat(chunks)) + Cbor.Encode(value)
      decreases value, 0
    {
      hide Flat;
      var es := SortByKey(value.entries);
      hide Cbor.SortEntries;
      ghost var before := Flat(chunks) + Cbor.Head(5, |es|);
      Associate(Flat(chunks), Cbor.Head(5, |es|), Cbor.EncodeEntries(value, es));
      Push(Cbor.Head(5, |es|));
      for i := 0 to |es|
        invariant before + Cbor.EncodeEntries(value, es) == Flat(chunks) + Cbor.EncodeEntries(value, es[i..])
      {
        assert es[i] in es && es[i..][0] == es[i] && es[i..][1..] == es[i + 1..];
        ghost var soFar, tail := Flat(chunks), Cbor.EncodeEntries(value, es[i + 1..]);
        var key := es[i].key;
        PushKey(key);
        EncodeValue(es[i].value);
        Associate(Cbor.EncodedKey(key), Cbor.Encode(es[i].value), tail);
        Associate(soFar + Cbor.EncodedKey(key), Cbor.Encode(es[i].value), tail);
        Associate(soFar, Cbor.EncodedKey(key), Cbor.Encode(es[i].value) + tail);
      }
      assert es[|es|..] == [] && Flat(chunks) + [] == Flat(chunks);
    }

    function Total(n: nat): nat
      requires n <= |chunks|
      reads this
    {
      if n == 0 then 0 else Total(n - 1) + |chunks[n - 1]|
    }

    lemma TotalGrows(m: nat, n: nat)
      requires m <= n <= |chunks|
      ensures Total(m) <= Total(n)
    {
    }

    /** `_concat`: the chunks copied one after the other into one buffer they fill exactly. */
    method Concat() returns (bytes: seq<byte>)
      ensures bytes == Flat(chunks)
    {
      var total := Total(|chunks|);
      var result := new byte[total];
      var offset := 0;
      assert Flat(chunks[..0]) == [];
      hide Flat;
      for k := 0 to |chunks|
        invariant offset == Total(k) <= total
        invariant result[..offset] == Flat(chunks[..k])
      {
        TotalGrows(k + 1, |chunks|);
        var chunk := chunks[k];
        CopyInto(result, offset, chunk);
        FlatPush(chunks[..k], chunk);
        assert chunks[..k + 1] == chunks[..k] + [chunk];
        offset := offset + |chunk|;
      }
      assert chunks[..|chunks|] == chunks;
      assert result[..] == result[..offset];
      bytes := result[..];
    }
  }

  // ---------------------------------------------------------------------------
  // Decoder
  // ---------------------------------------------------------------------------

  /** A decoding step that took `k` bytes when it succeeded. */
  predicate Follows<T(==)>(r: Result<T, Cbor.Error>, spec: Result<(T, nat), Cbor.Error>, start: nat, end: nat) {
    match spec
    case Err(e) => r == Err(e)
    case Ok((x, k)) => r == Ok(x) && end == start + k
  }

  class CborDecoder {
    var data: seq<byte>
    var offset: nat
    var depth: nat
    const printer: Cbor.KeyPrinter

    constructor (printer: Cbor.KeyPrinter)
      ensures this.printer == printer
    {
      data, offset, depth := [], 0, 0;
      this.printer := printer;
    }

    ghost predicate Valid() reads this { offset <= |data| && depth <= Cbor.MAX_CBOR_DEPTH }

    function Rest(): seq<byte>
      requires offset <= |data|
      reads this
    {
      data[offset..]
    }

    /** `decode`: the item the bytes start with; whatever the input, it ends with the offset inside the data
        and the depth back at zero. */
    method Decode(input: seq<byte>) returns (r: Result<Cbor.Data, Cbor.Error>)
      modifies this
      ensures Follows(r, Cbor.DecodeItem(input, 0, printer), 0, offset)
      ensures offset <= |input| && depth == 0 && data == input
    {
      data, offset, depth := input, 0, 0;
      assert Rest() == input;
      r := DecodeNested();
    }

    /** `_decode`: counts nesting, and restores the count however the item ends. */
    method DecodeNested() returns (r: Result<Cbor.Data, Cbor.Error>)
      requires Valid()
      modifies this
      ensures Valid() && data == old(data) && depth == old(depth) && offset >= old(offset)
      ensures Follows(r, Cbor.DecodeItem(old(Rest()), depth, printer), old(offset), offset)
      decreases Cbor.MAX_CBOR_DEPTH - depth, 0
    {
      if depth >= Cbor.MAX_CBOR_DEPTH {
        return Err(Cbor.DepthExceeded);
      }
      depth := depth + 1;
      r := DecodeBody();
      depth := depth - 1;
    }

    /** `_readByte`. */
    method ReadByte() returns (r: Result<byte, Cbor.Error>)
      requires Valid()
      modifies this`offset
      ensures Valid()
      ensures if old(Rest()) == [] then r == Err(Cbor.UnexpectedEnd) && offset == old(offset)
              else r == Ok(old(Rest())[0]) && offset == old(offset) + 1
    {
      if offset >= |data| {
        return Err(Cbor.UnexpectedEnd);
      }
      r := Ok(data[offset]);
      offset := offset + 1;
    }

    /** `_readBytes`. */
    method ReadBytes(count: nat) returns (r: Result<seq<byte>, Cbor.Error>)
      requires Valid()
      modifies this`offset
      ensures Valid()
      ensures if count > |old(Rest())| then r == Err(Cbor.UnexpectedEnd) && offset == old(offset)
              else r == Ok(old(Rest())[..count]) && offset == old(offset) + count
    {
      if offset + count > |data| {
        return Err(Cbor.UnexpectedEnd);
      }
      r := Ok(data[offset..offset + count]);
      assert data[offset..offset + count] == data[offset..][..count];
      offset := offset + count;
    }

    /** `_decodeUint`. */
    method DecodeUint(info: nat) returns (r: Result<nat, Cbor.Error>)
      requires Valid()
      modifies this`offset
      ensures Valid() && offset >= old(offset)
      ensures Follows(r, Cbor.DecodeUint(info, old(Rest())), old(offset), offset)
    {
      if info <= 23 {
        return Ok(info);
      }
      if info == 24 {
        var b := ReadByte();
        if b.Err? {
          return Err(b.error);
        }
        OneByte(b.value, old(Rest()));
        return Ok(b.value as nat);
      }
      if info != 25 && info != 26 && info != 27 {
        return Err(Cbor.Unsupported);
      }
      var n := if info == 25 then 2 else if info == 26 then 4 else 8;
      var bytes := ReadBytes(n);
      if bytes.Err? {
        return Err(bytes.error);
      }
      if info == 27 {
        return Ok(ToDouble(FromBigEndian(bytes.value)));
      }
      SmallExact(bytes.value);
      return Ok(FromBigEndian(bytes.value));
    }

    /** `_decodeItem`. */
    method DecodeBody() returns (r: Result<Cbor.Data, Cbor.Error>)
      requires Valid() && depth > 0
      modifies this
      ensures Valid() && data == old(data) && depth == old(depth) && offset >= old(offset)
      ensures Follows(r, Cbor.DecodeItem(old(Rest()), depth - 1, printer), old(offset), offset)
      decreases Cbor.MAX_CBOR_DEPTH - depth, 2
    {
      hide Cbor.Open;
      var opening := OpenItem();
      if opening.Err? {
        return Err(opening.error);
      }
      match opening.value
      case Leaf(d, k) => r := Ok(d);
      case ArrayOf(n, k) =>
        var items := DecodeArray(n);
        r := if items.Err? then Err(items.error) else Ok(Cbor.DArray(items.value));
      case MapOf(n, k) =>
        var fields := DecodeMap(n);
        r := if fields.Err? then Err(fields.error) else Ok(Cbor.DObject(fields.value));
    }

    /** The part of `_decodeItem` up to its loops. */
    method OpenItem() returns (r: Result<Cbor.Opening, Cbor.Error>)
      requires Valid()
      modifies this`offset
      ensures Valid() && offset >= old(offset)
      ensures r == Cbor.Open(old(Rest()))
      ensures r.Ok? ==> offset == old(offset) + r.value.used
    {
      var start := offset;
      var first := ReadByte();
      if first.Err? {
        return Err(first.error);
      }
      ghost var bs := old(Rest());
      assert Rest() == bs[1..];
      var majorType, info := first.value as nat / 32, first.value as nat % 32;
      if majorType == 7 {
        r := OpenSimple(info);
        return;
      }
      if majorType == 6 {
        return Err(Cbor.Unsupported);
      }
      var n := DecodeUint(info);
      if n.Err? {
        return Err(n.error);
      }
      var used := offset - start;
      assert Rest() == bs[1..][used - 1..];
      r := OpenCounted(majorType, n.value, used);
    }

    method OpenSimple(info: nat) returns (r: Result<Cbor.Opening, Cbor.Error>)
      requires Valid()
      modifies this`offset
      ensures Valid() && offset >= old(offset)
      ensures r == Cbor.OpenSimple(info, old(Rest()))
      ensures r.Ok? ==> offset + 1 == old(offset) + r.value.used
    {
      if info == 20 {
        return Ok(Cbor.Leaf(Cbor.DBool(false), 1));
      }
      if info == 21 {
        return Ok(Cbor.Leaf(Cbor.DBool(true), 1));
      }
      if info == 22 {
        return Ok(Cbor.Leaf(Cbor.DNull, 1));
      }
      if info == 27 {
        var bits := ReadBytes(8);
        return if bits.Err? then Err(bits.error) else Ok(Cbor.Leaf(Cbor.DFloat(bits.value), 9));
      }
      return Err(Cbor.Unsupported);
    }

    method OpenCounted(majorType: nat, n: nat, used: nat) returns (r: Result<Cbor.Opening, Cbor.Error>)
      requires Valid() && majorType < 6
      modifies this`offset
      ensures Valid() && offset >= old(offset)
      ensures r == Cbor.OpenCounted(majorType, n, used, old(Rest()))
      ensures r.Ok? ==> offset + used == old(offset) + r.value.used
    {
      match majorType
      case 0 => return Ok(Cbor.Leaf(Cbor.DInt(n), used));
      case 1 =>
        var magnitude: int := ToDouble(n + 1);
        return Ok(Cbor.Leaf(Cbor.DInt(-magnitude), used));
      case 4 => return Ok(Cbor.ArrayOf(n, used));
      case 5 => return Ok(Cbor.MapOf(n, used));
      case _ =>
        var run := ReadBytes(n);
        if run.Err? {
          return Err(run.error);
        }
        return Ok(Cbor.Leaf(if majorType == 2 then Cbor.DBytes(run.value) else Cbor.DText(Utf8.Decode(run.value)), used + n));
    }

    method DecodeArray(count: nat) returns (r: Result<seq<Cbor.Data>, Cbor.Error>)
      requires Valid()
      modifies this
      ensures Valid() && data == old(data) && depth == old(depth) && offset >= old(offset)
      ensures Follows(r, Cbor.DecodeItems(old(Rest()), depth, count, printer), old(offset), offset)
      decreases Cbor.MAX_CBOR_DEPTH - depth, 1
    {
      hide Cbor.DecodeItem;
      hide Cbor.DecodeItems;
      hide MoreItems;
      ghost var start, bs := offset, Rest();
      MoreNone(Cbor.DecodeItems(bs, depth, count, printer));
      var result: seq<Cbor.Data> := [];
      for i := 0 to count
        invariant Valid() && data == old(data) && depth == old(depth) && offset >= start
        invariant Cbor.DecodeItems(bs, depth, count, printer)
                  == MoreItems(result, offset - start, Cbor.DecodeItems(Rest(), depth, count - i, printer))
      {
        ghost var here, rest := offset, Rest();
        var item := DecodeNested();
        ItemsUnfold(rest, depth, count - i, printer);
        if item.Err? {
          MoreError(result, here - start, item.error);
          return Err(item.error);
        }
        assert Rest() == rest[offset - here..];
        MoreItemsAppend(result, here - start, item.value, offset - here, Cbor.DecodeItems(Rest(), depth, count - i - 1, printer));
        result := result + [item.value];
      }
      NoItems(Rest(), depth, printer);
      MoreEnd(result, offset - start);
      return Ok(result);
    }

    method DecodeMap(count: nat) returns (r: Result<map<string, Cbor.Data>, Cbor.Error>)
      requires Valid()
      modifies this
      ensures Valid() && data == old(data) && depth == old(depth) && offset >= old(offset)
      ensures Follows(r, Cbor.DecodeFields(old(Rest()), depth, count, map[], printer), old(offset), offset)
      decreases Cbor.MAX_CBOR_DEPTH - depth, 1
    {
      hide Cbor.DecodeItem;
      hide Cbor.DecodeFields;
      ghost var start, bs := offset, Rest();
      var result: map<string, Cbor.Data> := map[];
      for i := 0 to count
        invariant Valid() && data == old(data) && depth == old(depth) && offset >= start
        invariant Cbor.DecodeFields(bs, depth, count, map[], printer)
                  == MoreFields(offset - start, Cbor.DecodeFields(Rest(), depth, count - i, result, printer))
      {
        ghost var here, rest := offset, Rest();
        var key := DecodeNested();
        FieldsUnfold(rest, depth, count - i, result, printer);
        if key.Err? {
          return Err(key.error);
        }
        assert Rest() == rest[offset - here..];
        var value := DecodeNested();
        FieldsUnfold(rest, depth, count - i, result, printer);
        if value.Err? {
          return Err(value.error);
        }
        assert Rest() == rest[offset - here..];
        var name := Cbor.KeyText(key.value, printer);
        if name.None? {
          return Err(Cbor.KeyNotConvertible);
        }
        result := result[name.value := value.value];
      }
      NoFields(Rest(), depth, result, printer);
      return Ok(result);
    }
  }

  function MoreItems(xs: seq<Cbor.Data>, used: nat, r: Result<(seq<Cbor.Data>, nat), Cbor.Error>)
    : Result<(seq<Cbor.Data>, nat), Cbor.Error>
  {
    match r
    case Err(e) => Err(e)
    case Ok((ys, m)) => Ok((xs + ys, used + m))
  }

  function MoreFields(used: nat, r: Result<(map<string, Cbor.Data>, nat), Cbor.Error>)
    : Result<(map<string, Cbor.Data>, nat), Cbor.Error>
  {
    match r
    case Err(e) => Err(e)
    case Ok((fields, m)) => Ok((fields, used + m))
  }

  lemma MoreNone(r: Result<(seq<Cbor.Data>, nat), Cbor.Error>)
    ensures MoreItems([], 0, r) == r
  {
    if r.Ok? {
      assert [] + r.value.0 == r.value.0;
    }
  }

  lemma MoreEnd(xs: seq<Cbor.Data>, used: nat)
    ensures MoreItems(xs, used, Ok(([], 0))) == Ok((xs, used))
  {
    assert xs + [] == xs;
  }

  lemma MoreError(xs: seq<Cbor.Data>, used: nat, e: Cbor.Error)
    ensures MoreItems(xs, used, Err(e)) == Err(e)
  {
  }

  lemma MoreItemsAppend(xs: seq<Cbor.Data>, used: nat, x: Cbor.Data, k: nat, r: Result<(seq<Cbor.Data>, nat), Cbor.Error>)
    ensures MoreItems(xs, used, MoreItems([x], k, r)) == MoreItems(xs + [x], used + k, r)
  {
    if r.Ok? {
      assert xs + ([x] + r.value.0) == xs + [x] + r.value.0;
    }
  }

  lemma NoItems(bs: seq<byte>, depth: nat, printer: Cbor.KeyPrinter)
    requires depth <= Cbor.MAX_CBOR_DEPTH
    ensures Cbor.DecodeItems(bs, depth, 0, printer) == Ok(([], 0))
  {
  }

  lemma NoFields(bs: seq<byte>, depth: nat, before: map<string, Cbor.Data>, printer: Cbor.KeyPrinter)
    requires depth <= Cbor.MAX_CBOR_DEPTH
    ensures Cbor.DecodeFields(bs, depth, 0, before, printer) == Ok((before, 0))
  {
  }

  /** One step of the loop over items. */
  lemma ItemsUnfold(bs: seq<byte>, depth: nat, count: nat, printer: Cbor.KeyPrinter)
    requires depth <= Cbor.MAX_CBOR_DEPTH && count > 0
    ensures Cbor.DecodeItems(bs, depth, count, printer)
            == match Cbor.DecodeItem(bs, depth, printer)
               case Err(e) => Err(e)
               case Ok((x, k)) => MoreItems([x], k, Cbor.DecodeItems(bs[k..], depth, count - 1, printer))
  {
    hide Cbor.DecodeItem;
  }

  /** One step of the loop over entries. */
  lemma FieldsUnfold(bs: seq<byte>, depth: nat, count: nat, before: map<string, Cbor.Data>, printer: Cbor.KeyPrinter)
    requires depth <= Cbor.MAX_CBOR_DEPTH && count > 0
    ensures Cbor.DecodeFields(bs, depth, count, before, printer)
            == match Cbor.DecodeItem(bs, depth, printer)
               case Err(e) => Err(e)
               case Ok((key, k)) =>
                 match Cbor.DecodeItem(bs[k..], depth, printer)
                 case Err(e) => Err(e)
                 case Ok((value, m)) =>
                   if Cbor.KeyText(key, printer).None? then Err(Cbor.KeyNotConvertible)
                   else
                     MoreFields(k + m, Cbor.DecodeFields(
                       bs[k + m..], depth, count - 1, before[Cbor.KeyText(key, printer).value := value], printer))
  {
    hide Cbor.DecodeItem;
  }

  lemma OneByte(b: byte, bs: seq<byte>)
    requires bs != [] && b == bs[0]
    ensures Cbor.DecodeUint(24, bs) == Ok((b as nat, 1))
  {
    assert bs[..1] == [b] && [b][..0] == [];
    assert FromBigEndian([b]) == b as nat by { assert FromBigEndian([]) == 0; }
    ToDoubleExact(b as nat);
  }

  lemma SmallExact(bs: seq<byte>)
    requires |bs| == 2 || |bs| == 4
    ensures ToDouble(FromBigEndian(bs)) == FromBigEndian(bs)
  {
    FromBigEndianBound(bs);
    Pow256Values();
    ToDoubleExact(FromBigEndian(bs));
  }
}
