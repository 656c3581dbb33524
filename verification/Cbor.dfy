/** The deterministic CBOR codec (src/cborCodec.ts; RFC 8949): what is encoded, what it decodes to, and
    the bytes in between, as functions. `CborCodec.dfy` has the encoder and decoder objects. */
module Cbor {
  import opened Prelude
  import opened Bytes
  import Utf8
  import Lex
  import Text

  const MAX_CBOR_DEPTH: nat := 64

  /** A key of a `Map`: text, or a non-negative integer. */
  datatype Key = TextKey(text: string) | IntKey(n: nat)

  datatype Entry = Entry(key: Key, value: Value)

  /** What the encoder is given. Doubles that are not integers are named by their eight bytes, and maps
      list their entries in insertion order. */
  datatype Value =
    | Null
    | Bool(b: bool)
    | Int(i: int)
    | Float(bits: seq<byte>)
    | Text(s: string)
    | Bytes(bs: seq<byte>)
    | Array(items: seq<Value>)
    | Map(entries: seq<Entry>)

  /** What the decoder returns: maps of either kind come back as objects with string properties. */
  datatype Data =
    | DNull
    | DBool(b: bool)
    | DInt(i: int)
    | DFloat(bits: seq<byte>)
    | DText(s: string)
    | DBytes(bs: seq<byte>)
    | DArray(items: seq<Data>)
    | DObject(fields: map<string, Data>)

  // ---------------------------------------------------------------------------
  // Heads
  // ---------------------------------------------------------------------------

  function Head(majorType: nat, value: nat): (bs: seq<byte>)
    requires majorType < 8
    ensures bs != []
  {
    var mt := majorType * 32;
    if value <= 23 then [(mt + value) as byte]
    else if value <= 0xFF then [(mt + 24) as byte] + BigEndian(value, 1)
    else if value <= 0xFFFF then [(mt + 25) as byte] + BigEndian(value, 2)
    else if value <= 0xFFFF_FFFF then [(mt + 26) as byte] + BigEndian(value, 4)
    else [(mt + 27) as byte] + BigEndian(value, 8)
  }

  datatype Error = UnexpectedEnd | DepthExceeded | Unsupported | KeyNotConvertible

  /** How many bytes follow the first byte of a head. */
  function ArgumentLength(info: nat): Option<nat> {
    if info <= 23 then Some(0) else if info == 24 then Some(1) else if info == 25 then Some(2)
    else if info == 26 then Some(4) else if info == 27 then Some(8) else None
  }

  /** The number in a head, and the bytes it took after the first: `_decodeUint`. */
  function DecodeUint(info: nat, bs: seq<byte>): (r: Result<(nat, nat), Error>)
    ensures r.Ok? ==> r.value.1 <= |bs|
  {
    var n := ArgumentLength(info);
    if n.None? then Err(Unsupported)
    else if n.value > |bs| then Err(UnexpectedEnd)
    else if n.value == 0 then Ok((info, 0))
    else Ok((ToDouble(FromBigEndian(bs[..n.value])), n.value))
  }

  lemma HeadRoundTrip(majorType: nat, value: nat, rest: seq<byte>)
    requires majorType < 8 && value <= MAX_SAFE
    ensures var h := Head(majorType, value);
            && h[0] as nat / 32 == majorType
            && DecodeUint(h[0] as nat % 32, h[1..] + rest) == Ok((value, |h| - 1))
  {
    var n := |Head(majorType, value)| - 1;
    if n > 0 {
      ArgumentRoundTrip(value, n, rest);
      assert Head(majorType, value)[1..] == BigEndian(value, n);
    }
  }

  lemma SmallMod(value: nat, p: nat)
    requires value < p
    ensures value % p == value
  {
  }

  lemma ArgumentRoundTrip(value: nat, n: nat, rest: seq<byte>)
    requires value <= MAX_SAFE && n in {1, 2, 4, 8} && (n == 8 || value < Pow256(n))
    ensures ToDouble(FromBigEndian((BigEndian(value, n) + rest)[..n])) == value
  {
    Pow256Values();
    hide Pow256;
    hide BigEndian;
    hide FromBigEndian;
    hide ToDouble;
    Take(BigEndian(value, n), rest);
    BigEndianRoundTrip(value, n);
    SmallMod(value, Pow256(n));
    ToDoubleExact(value);
  }

  /** Deterministic encoding, section 4.2.1 of RFC 8949: no other head for the number is shorter. */
  lemma HeadIsShortest(majorType: nat, value: nat, info: nat, bs: seq<byte>)
    requires majorType < 8 && value <= MAX_SAFE
    requires DecodeUint(info, bs).Ok? && DecodeUint(info, bs).value.0 == value
    ensures |Head(majorType, value)| <= 1 + DecodeUint(info, bs).value.1
  {
    var n := DecodeUint(info, bs).value.1;
    if n > 0 {
      FromBigEndianBound(bs[..n]);
      Pow256Values();
      ToDoubleExact(FromBigEndian(bs[..n]));
    }
  }

  // ---------------------------------------------------------------------------
  // Encoding
  // ---------------------------------------------------------------------------

  function EncodedText(s: string): seq<byte> {
    var bytes := Utf8.Encode(s);
    Head(3, |bytes|) + bytes
  }

  function EncodedKey(k: Key): seq<byte> {
    match k
    case TextKey(t) => EncodedText(t)
    case IntKey(n) => Head(0, n)
  }

  function Ints(bs: seq<byte>): seq<int> { seq(|bs|, i requires 0 <= i < |bs| => bs[i] as int) }

  /** Bytewise lexicographic order of encoded keys. */
  predicate KeyLess(a: Key, b: Key) { Lex.Less(Ints(EncodedKey(a)), Ints(EncodedKey(b))) }

  function InsertEntry(e: Entry, sorted: seq<Entry>): (r: seq<Entry>)
    ensures multiset(r) == multiset(sorted) + multiset{e}
  {
    hide KeyLess;
    if sorted == [] || KeyLess(e.key, sorted[0].key) then [e] + sorted
    else
      assert sorted == [sorted[0]] + sorted[1..];
      [sorted[0]] + InsertEntry(e, sorted[1..])
  }

  /** `entries.sort(...)` by encoded key. */
  function SortEntries(es: seq<Entry>): (r: seq<Entry>)
    ensures multiset(r) == multiset(es) && |r| == |es|
    ensures forall e :: e in r <==> e in es
  {
    if es == [] then []
    else
      assert es == es[..|es| - 1] + [es[|es| - 1]];
      var r := InsertEntry(es[|es| - 1], SortEntries(es[..|es| - 1]));
      assert |multiset(r)| == |r| && |multiset(es)| == |es|;
      assert forall e :: e in r <==> e in multiset(r);
      assert forall e :: e in es <==> e in multiset(es);
      r
  }

  function Encode(v: Value): (bs: seq<byte>)
    ensures bs != []
    decreases v
  {
    match v
    case Null => [0xF6]
    case Bool(b) => if b then [0xF5] else [0xF4]
    case Int(i) => if i >= 0 then Head(0, i) else Head(1, -1 - i)
    case Float(bits) => [0xFB] + bits
    case Text(s) => EncodedText(s)
    case Bytes(bs) => Head(2, |bs|) + bs
    case Array(items) => Head(4, |items|) + EncodeItems(v, items)
    case Map(entries) => Head(5, |entries|) + EncodeEntries(v, SortEntries(entries))
  }

  function EncodeItems(v: Value, items: seq<Value>): seq<byte>
    requires v.Array? && forall x | x in items :: x in v.items
    decreases v, |items|
  {
    if items == [] then []
    else
      assert items[0] in items && forall x | x in items[1..] :: x in items;
      Encode(items[0]) + EncodeItems(v, items[1..])
  }

  function EncodeEntries(v: Value, entries: seq<Entry>): seq<byte>
    requires v.Map? && forall e | e in entries :: e in v.entries
    decreases v, |entries|
  {
    if entries == [] then []
    else
      assert entries[0] in entries && forall e | e in entries[1..] :: e in entries;
      EncodedKey(entries[0].key) + Encode(entries[0].value) + EncodeEntries(v, entries[1..])
  }

  // ---------------------------------------------------------------------------
  // Decoding
  // ---------------------------------------------------------------------------

  /** `String(key)` for keys that are neither text nor a safe integer; `None` where it throws. */
  type KeyPrinter = Data -> Option<string>

  function KeyText(d: Data, other: KeyPrinter): Option<string> {
    match d
    case DText(s) => Some(s)
    case DInt(i) => if SafeInteger(i) then Some(Text.IntText(i)) else other(d)
    case _ => other(d)
  }

  /** How an item starts: a complete scalar, or the size of an array or map, and the bytes read so far. */
  datatype Opening = Leaf(data: Data, used: nat) | ArrayOf(count: nat, used: nat) | MapOf(count: nat, used: nat)

  function OpenSimple(info: nat, rest: seq<byte>): (r: Result<Opening, Error>)
    ensures r.Ok? ==> r.value.Leaf? && 1 <= r.value.used <= |rest| + 1
  {
    if info == 20 then Ok(Leaf(DBool(false), 1))
    else if info == 21 then Ok(Leaf(DBool(true), 1))
    else if info == 22 then Ok(Leaf(DNull, 1))
    else if info == 27 then
      if |rest| < 8 then Err(UnexpectedEnd) else Ok(Leaf(DFloat(rest[..8]), 9))
    else Err(Unsupported)
  }

  /** What a head with number `n`, of `k` bytes in all, opens in front of `body`. */
  function OpenCounted(majorType: nat, n: nat, k: nat, body: seq<byte>): (r: Result<Opening, Error>)
    requires majorType < 6
    ensures r.Ok? ==> k <= r.value.used <= k + |body|
  {
    if majorType == 0 then Ok(Leaf(DInt(n), k))
    else if majorType == 1 then
      var magnitude: int := ToDouble(n + 1);
      Ok(Leaf(DInt(-magnitude), k))
    else if majorType == 4 then Ok(ArrayOf(n, k))
    else if majorType == 5 then Ok(MapOf(n, k))
    else if n > |body| then Err(UnexpectedEnd)
    else if majorType == 2 then Ok(Leaf(DBytes(body[..n]), k + n))
    else Ok(Leaf(DText(Utf8.Decode(body[..n])), k + n))
  }

  function Open(bs: seq<byte>): (r: Result<Opening, Error>)
    ensures r.Ok? ==> 1 <= r.value.used <= |bs|
  {
    if bs == [] then Err(UnexpectedEnd)
    else
      var majorType, info := bs[0] as nat / 32, bs[0] as nat % 32;
      if majorType == 7 then OpenSimple(info, bs[1..])
      else if majorType == 6 then Err(Unsupported)
      else
        match DecodeUint(info, bs[1..])
        case Err(e) => Err(e)
        case Ok((n, k)) => OpenCounted(majorType, n, 1 + k, bs[1..][k..])
  }

  /** One item at the front of `bs`, and the bytes it took. */
  function DecodeItem(bs: seq<byte>, depth: nat, other: KeyPrinter): (r: Result<(Data, nat), Error>)
    requires depth <= MAX_CBOR_DEPTH
    ensures r.Ok? ==> 1 <= r.value.1 <= |bs|
    decreases MAX_CBOR_DEPTH - depth, 0
  {
    if depth >= MAX_CBOR_DEPTH then Err(DepthExceeded)
    else
      match Open(bs)
      case Err(e) => Err(e)
      case Ok(Leaf(d, k)) => Ok((d, k))
      case Ok(ArrayOf(n, k)) =>
        (match DecodeItems(bs[k..], depth + 1, n, other)
         case Err(e) => Err(e)
         case Ok((items, m)) => Ok((DArray(items), k + m)))
      case Ok(MapOf(n, k)) =>
        match DecodeFields(bs[k..], depth + 1, n, map[], other)
        case Err(e) => Err(e)
        case Ok((fields, m)) => Ok((DObject(fields), k + m))
  }

  function DecodeItems(bs: seq<byte>, depth: nat, count: nat, other: KeyPrinter): (r: Result<(seq<Data>, nat), Error>)
    requires depth <= MAX_CBOR_DEPTH
    ensures r.Ok? ==> r.value.1 <= |bs|
    decreases MAX_CBOR_DEPTH - depth, 1, count
  {
    if count == 0 then Ok(([], 0))
    else
      match DecodeItem(bs, depth, other)
      case Err(e) => Err(e)
      case Ok((x, k)) =>
        match DecodeItems(bs[k..], depth, count - 1, other)
        case Err(e) => Err(e)
        case Ok((xs, m)) => Ok(([x] + xs, k + m))
  }

  function DecodeFields(bs: seq<byte>, depth: nat, count: nat, before: map<string, Data>, other: KeyPrinter)
    : (r: Result<(map<string, Data>, nat), Error>)
    requires depth <= MAX_CBOR_DEPTH
    ensures r.Ok? ==> r.value.1 <= |bs|
    decreases MAX_CBOR_DEPTH - depth, 1, count
  {
    if count == 0 then Ok((before, 0))
    else
      match DecodeItem(bs, depth, other)
      case Err(e) => Err(e)
      case Ok((key, k)) =>
        match DecodeItem(bs[k..], depth, other)
        case Err(e) => Err(e)
        case Ok((value, m)) =>
          var name := KeyText(key, other);
          if name.None? then Err(KeyNotConvertible)
          else
            match DecodeFields(bs[k + m..], depth, count - 1, before[name.value := value], other)
            case Err(e) => Err(e)
            case Ok((fields, n)) => Ok((fields, k + m + n))
  }

  // ---------------------------------------------------------------------------
  // Which values come back, and as what
  // ---------------------------------------------------------------------------

  /** The property a key is decoded to. */
  function KeyName(k: Key): string {
    match k
    case TextKey(t) => Utf8.Kept(t)
    case IntKey(n) => Text.IntText(n)
  }

  predicate TextOk(s: string) { |Utf8.Encode(s)| <= MAX_SAFE }

  predicate KeyOk(k: Key) {
    match k
    case TextKey(t) => TextOk(t)
    case IntKey(n) => n <= MAX_SAFE
  }

  predicate DistinctNames(es: seq<Entry>) {
    forall i, j | 0 <= i < j < |es| :: KeyName(es[i].key) != KeyName(es[j].key)
  }

  /** Safe integers, lengths a double can count, and maps whose keys name distinct properties. */
  predicate Encodable(v: Value) {
    match v
    case Int(i) => SafeInteger(i)
    case Float(bits) => |bits| == 8
    case Text(s) => TextOk(s)
    case Bytes(bs) => |bs| <= MAX_SAFE
    case Array(items) => |items| <= MAX_SAFE && forall x | x in items :: Encodable(x)
    case Map(entries) =>
      |entries| <= MAX_SAFE && DistinctNames(entries) && forall e | e in entries :: KeyOk(e.key) && Encodable(e.value)
    case _ => true
  }

  /** The value a decoder reads back: text loses a leading byte order mark, a map becomes an object. */
  function Means(v: Value): Data
    decreases v
  {
    match v
    case Null => DNull
    case Bool(b) => DBool(b)
    case Int(i) => DInt(i)
    case Float(bits) => DFloat(bits)
    case Text(s) => DText(Utf8.Kept(s))
    case Bytes(bs) => DBytes(bs)
    case Array(items) => DArray(seq(|items|, i requires 0 <= i < |items| => Means(items[i])))
    case Map(entries) => DObject(FieldsOf(v, entries))
  }

  /** The object a list of entries makes, set one after the other. */
  function FieldsOf(v: Value, entries: seq<Entry>): map<string, Data>
    requires v.Map? && forall e | e in entries :: e in v.entries
    decreases v, |entries|
  {
    if entries == [] then map[]
    else
      assert entries[0] in entries && forall e | e in entries[1..] :: e in entries;
      FieldsOf(v, entries[1..])[KeyName(entries[0].key) := Means(entries[0].value)]
  }

  function Max(a: nat, b: nat): nat { if a > b then a else b }

  /** How deeply a value nests; a scalar is one deep. */
  function Height(v: Value): (h: nat)
    ensures h >= 1
    decreases v
  {
    match v
    case Array(items) => 1 + ItemsHeight(v, items)
    case Map(entries) => 1 + EntriesHeight(v, SortEntries(entries))
    case _ => 1
  }

  function ItemsHeight(v: Value, items: seq<Value>): nat
    requires v.Array? && forall x | x in items :: x in v.items
    decreases v, |items|
  {
    if items == [] then 0
    else
      assert items[0] in items && forall x | x in items[1..] :: x in items;
      Max(Height(items[0]), ItemsHeight(v, items[1..]))
  }

  function EntriesHeight(v: Value, entries: seq<Entry>): nat
    requires v.Map? && forall e | e in entries :: e in v.entries
    decreases v, |entries|
  {
    if entries == [] then 0
    else
      assert entries[0] in entries && forall e | e in entries[1..] :: e in entries;
      Max(Height(entries[0].value), EntriesHeight(v, entries[1..]))
  }
}
