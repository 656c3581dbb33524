/** Canonical JSON (`stableStringify`, src/actionBinding.ts): a printer whose output determines its input. */
module Json {
  import opened Prelude
  import opened Text
  import opened Bytes
  import Lex

  // ---------------------------------------------------------------------------
  // Strings
  // ---------------------------------------------------------------------------

  function HexDigit(n: nat): char
    requires n < 16
  {
    if n < 10 then ('0' as int + n) as char else ('a' as int + n - 10) as char
  }

  /** One character of `JSON.stringify(s)`. */
  function Escape(c: char): (e: string)
    ensures e != ""
  {
    if c == '\"' then "\\\""
    else if c == '\\' then "\\\\"
    else if c == 8 as char then "\\b"
    else if c == 9 as char then "\\t"
    else if c == 10 as char then "\\n"
    else if c == 12 as char then "\\f"
    else if c == 13 as char then "\\r"
    else if c < 0x20 as char then "\\u00" + [HexDigit(c as int / 16), HexDigit(c as int % 16)]
    else [c]
  }

  function QuoteRest(s: string): string {
    if s == "" then "\"" else Escape(s[0]) + QuoteRest(s[1..])
  }

  function Quote(s: string): string { "\"" + QuoteRest(s) }

  /** Two escaped characters at the front of the same text are the same character. */
  lemma EscapeCancel(c: char, r: string, d: char, t: string)
    requires Escape(c) + r == Escape(d) + t
    ensures c == d && r == t
  {
    var e, f := Escape(c), Escape(d);
    assert (e + r)[0] == e[0] && (f + t)[0] == f[0];
    if |e| > 1 && |f| > 1 {
      assert (e + r)[1] == e[1] && (f + t)[1] == f[1];
      if |e| == 6 && |f| == 6 {
        assert (e + r)[4] == e[4] && (f + t)[4] == f[4];
        assert (e + r)[5] == e[5] && (f + t)[5] == f[5];
      }
    }
    assert |e| == |f|;
    Cancel(e, r, f, t);
  }

  lemma QuoteRestHead(s: string)
    ensures QuoteRest(s)[0] == '\"' <==> s == ""
  {
  }

  lemma QuoteRestStep(s: string, r: string)
    requires s != ""
    ensures QuoteRest(s) + r == Escape(s[0]) + (QuoteRest(s[1..]) + r)
  {
    hide Escape;
    Regroup(Escape(s[0]), QuoteRest(s[1..]), r);
  }

  lemma {:induction false} QuoteRestCancel(a: string, r: string, b: string, t: string)
    requires QuoteRest(a) + r == QuoteRest(b) + t
    ensures a == b && r == t
  {
    hide Escape;
    QuoteRestHead(a);
    QuoteRestHead(b);
    assert (QuoteRest(a) + r)[0] == QuoteRest(a)[0] && (QuoteRest(b) + t)[0] == QuoteRest(b)[0];
    if a == "" || b == "" {
      Cancel("\"", r, "\"", t);
    } else {
      QuoteRestStep(a, r);
      QuoteRestStep(b, t);
      hide QuoteRest;
      EscapeCancel(a[0], QuoteRest(a[1..]) + r, b[0], QuoteRest(b[1..]) + t);
      QuoteRestCancel(a[1..], r, b[1..], t);
      assert a == [a[0]] + a[1..] && b == [b[0]] + b[1..];
    }
  }

  lemma QuoteCancel(a: string, r: string, b: string, t: string)
    requires Quote(a) + r == Quote(b) + t
    ensures a == b && r == t
  {
    hide QuoteRest;
    Regroup("\"", QuoteRest(a), r);
    Regroup("\"", QuoteRest(b), t);
    Cancel("\"", QuoteRest(a) + r, "\"", QuoteRest(b) + t);
    QuoteRestCancel(a, r, b, t);
  }

  // ---------------------------------------------------------------------------
  // Values
  // ---------------------------------------------------------------------------

  /** A finite double. Safe integers print in decimal; every other finite double is named by its
      ECMAScript number text, which identifies it (negative zero prints as zero and is not told apart). */
  datatype Number = Safe(i: int) | Other(text: string)

  ghost predicate ValidNumber(n: Number) {
    match n
    case Safe(i) => SafeInteger(i)
    case Other(text) => text != "" && All(text, NumberChar) && forall i | SafeInteger(i) :: text != IntText(i)
  }

  /** `Unrepresentable` stands for `undefined`, functions, symbols, big integers and non-finite numbers. */
  datatype Value =
    | Null
    | Bool(b: bool)
    | Num(n: Number)
    | Str(s: string)
    | Arr(items: seq<Value>)
    | Obj(members: map<string, Value>)
    | Unrepresentable

  predicate Representable(v: Value) {
    match v
    case Arr(items) => forall x | x in items :: Representable(x)
    case Obj(members) => forall k | k in members :: Representable(members[k])
    case Unrepresentable => false
    case _ => true
  }

  /** No double is named by a text it does not print as. */
  ghost predicate Valid(v: Value) {
    match v
    case Num(n) => ValidNumber(n)
    case Arr(items) => forall x | x in items :: Valid(x)
    case Obj(members) => forall k | k in members :: Valid(members[k])
    case _ => true
  }

  ghost predicate Printable(v: Value) { Representable(v) && Valid(v) }

  // --- keys in UTF-16 code unit order ----------------------------------------

  /** The place of a character in UTF-16 code unit order: surrogate pairs sort below U+E000. */
  function Rank(c: char): int {
    if 0xE000 <= c as int < 0x1_0000 then c as int + 0x11_0000 else c as int
  }

  function Ranks(s: string): seq<int> { seq(|s|, i requires 0 <= i < |s| => Rank(s[i])) }

  predicate KeyLess(a: string, b: string) { Lex.Less(Ranks(a), Ranks(b)) }

  lemma RanksInjective(a: string, b: string)
    requires Ranks(a) == Ranks(b)
    ensures a == b
  {
    assert |Ranks(a)| == |a| && |Ranks(b)| == |b|;
    forall i | 0 <= i < |a|
      ensures a[i] == b[i]
    {
      assert Ranks(a)[i] == Rank(a[i]) && Ranks(b)[i] == Rank(b[i]);
    }
  }

  lemma KeyLessTotal(a: string, b: string)
    ensures a == b || KeyLess(a, b) || KeyLess(b, a)
    ensures !(KeyLess(a, b) && KeyLess(b, a)) && !KeyLess(a, a)
  {
    Lex.Total(Ranks(a), Ranks(b));
    if Ranks(a) == Ranks(b) {
      RanksInjective(a, b);
    }
    Lex.Irreflexive(Ranks(a));
    if KeyLess(a, b) && KeyLess(b, a) {
      Lex.Transitive(Ranks(a), Ranks(b), Ranks(a));
    }
  }

  predicate LeastKey(k: string, keys: set<string>) {
    k in keys && forall j | j in keys && j != k :: KeyLess(k, j)
  }

  lemma {:induction false} LeastKeyExists(keys: set<string>)
    requires keys != {}
    ensures exists k :: LeastKey(k, keys)
    ensures forall k, j :: LeastKey(k, keys) && LeastKey(j, keys) ==> k == j
  {
    var k :| k in keys;
    var rest := keys - {k};
    if rest == {} {
      assert keys == {k};
      assert LeastKey(k, keys);
    } else {
      LeastKeyExists(rest);
      var m :| LeastKey(m, rest);
      KeyLessTotal(k, m);
      if KeyLess(m, k) {
        assert LeastKey(m, keys);
      } else {
        forall j | j in keys && j != k
          ensures KeyLess(k, j)
        {
          if j != m {
            assert KeyLess(m, j);
            Lex.Transitive(Ranks(k), Ranks(m), Ranks(j));
          }
        }
        assert LeastKey(k, keys);
      }
    }
    forall a, b | LeastKey(a, keys) && LeastKey(b, keys)
      ensures a == b
    {
      KeyLessTotal(a, b);
    }
  }

  /** `Object.keys(obj).sort()`. */
  function SortedKeys(keys: set<string>): (sorted: seq<string>)
    ensures forall k :: k in sorted <==> k in keys
  {
    if keys == {} then []
    else
      LeastKeyExists(keys);
      var k :| LeastKey(k, keys);
      [k] + SortedKeys(keys - {k})
  }

  // --- printing ---------------------------------------------------------------

  function NumberText(n: Number): string {
    match n
    case Safe(i) => IntText(i)
    case Other(text) => text
  }

  function Print(v: Value): string
    decreases v
  {
    match v
    case Null => "null"
    case Bool(b) => if b then "true" else "false"
    case Num(n) => NumberText(n)
    case Str(s) => Quote(s)
    case Arr(items) => "[" + (if items == [] then "]" else PrintItems(v, 0))
    case Obj(members) =>
      var keys := SortedKeys(members.Keys);
      "{" + (if keys == [] then "}" else PrintMembers(v, keys))
    case Unrepresentable => ""
  }

  /** The items from an index on, and the closing bracket. */
  function PrintItems(v: Value, from: nat): string
    requires v.Arr? && from < |v.items|
    decreases v, |v.items| - from
  {
    Print(v.items[from]) + (if from + 1 == |v.items| then "]" else "," + PrintItems(v, from + 1))
  }

  /** The members under the given keys, and the closing brace. */
  function PrintMembers(v: Value, keys: seq<string>): string
    requires v.Obj? && keys != [] && forall k | k in keys :: k in v.members
    decreases v, |keys|
  {
    assert keys[0] in keys && forall k | k in keys[1..] :: k in keys;
    Quote(keys[0]) + ":" + Print(v.members[keys[0]]) + (if |keys| == 1 then "}" else "," + PrintMembers(v, keys[1..]))
  }

  /** `None` where the source throws. */
  function StableStringify(v: Value): Option<string> {
    if Representable(v) then Some(Print(v)) else None
  }

  // ---------------------------------------------------------------------------
  // The output determines the input, and where it ends
  // ---------------------------------------------------------------------------

  lemma NumberCancel(m: Number, r: string, n: Number, t: string)
    requires ValidNumber(m) && ValidNumber(n)
    requires NumberText(m) + r == NumberText(n) + t && Boundary(r, NumberChar) && Boundary(t, NumberChar)
    ensures m == n && r == t
  {
    Munch(NumberText(m), r, NumberText(n), t, NumberChar);
    if m.Safe? && n.Safe? {
      IntTextInjective(m.i, n.i);
    }
  }

  /** The first character of a printed value tells its kind. */
  function Kind(c: char): nat {
    if c == 'n' then 0 else if c == 't' || c == 'f' then 1 else if c == '\"' then 2 else if c == '[' then 3 else if c == '{' then 4
    else if NumberChar(c) then 5 else 6
  }

  function KindOf(v: Value): nat
    requires !v.Unrepresentable?
  {
    match v
    case Null => 0
    case Bool(_) => 1
    case Str(_) => 2
    case Arr(_) => 3
    case Obj(_) => 4
    case Num(_) => 5
  }

  lemma FirstChar(v: Value, r: string)
    requires Representable(v) && Valid(v)
    ensures Print(v) + r != "" && Kind((Print(v) + r)[0]) == KindOf(v)
  {
    if v.Num? {
      var s := NumberText(v.n);
      assert s[0] in s;
    }
  }

  lemma {:induction false} PrintCancel(v: Value, r: string, w: Value, t: string)
    requires Representable(v) && Representable(w) && Valid(v) && Valid(w)
    requires Print(v) + r == Print(w) + t && Boundary(r, NumberChar) && Boundary(t, NumberChar)
    ensures v == w && r == t
    decreases v
  {
    FirstChar(v, r);
    FirstChar(w, t);
    assert |Print(v)| > 1 ==> (Print(v) + r)[1] == Print(v)[1];
    assert |Print(w)| > 1 ==> (Print(w) + t)[1] == Print(w)[1];
    match v {
      case Null => Cancel("null", r, "null", t);
      case Bool(b) =>
        assert (Print(v) + r)[0] == Print(v)[0] && (Print(w) + t)[0] == Print(w)[0];
        Cancel(Print(v), r, Print(w), t);
      case Num(n) => NumberCancel(n, r, w.n, t);
      case Str(s) => QuoteCancel(s, r, w.s, t);
      case Arr(items) => ArrayCancel(v, r, w, t);
      case Obj(members) => ObjectCancel(v, r, w, t);
    }
  }

  lemma {:induction false} ArrayCancel(v: Value, r: string, w: Value, t: string)
    requires v.Arr? && w.Arr? && Printable(v) && Printable(w)
    requires Print(v) + r == Print(w) + t
    ensures v == w && r == t
    decreases v, |v.items| + 1
  {
    EmptyOrItem(v, r);
    EmptyOrItem(w, t);
    if v.items != [] {
      DropPrefix("[", PrintItems(v, 0), r);
      DropPrefix("[", PrintItems(w, 0), t);
      ItemsCancel(v, r, w, t, 0);
    } else {
      Cancel("[]", r, "[]", t);
    }
  }

  lemma ItemsHead(v: Value)
    requires v.Arr? && Printable(v) && v.items != []
    ensures PrintItems(v, 0) != "" && PrintItems(v, 0)[0] != ']'
  {
    var a := v.items[0];
    assert PrintItems(v, 0) == Print(a) + ItemTail(v, 0);
    hide Print;
    hide PrintItems;
    FirstChar(a, ItemTail(v, 0));
  }

  lemma PrintArray(v: Value)
    requires v.Arr? && Representable(v)
    ensures Print(v) == "[" + if v.items == [] then "]" else PrintItems(v, 0)
  {
  }

  lemma EmptyOrItem(v: Value, r: string)
    requires v.Arr? && Printable(v)
    ensures |Print(v) + r| > 1 && ((Print(v) + r)[1] == ']' <==> v.items == [])
    ensures v.items == [] ==> Print(v) == "[]"
  {
    hide Print;
    hide PrintItems;
    PrintArray(v);
    if v.items != [] {
      ItemsHead(v);
    }
  }

  function ItemTail(v: Value, from: nat): string
    requires v.Arr? && from < |v.items|
  {
    if from + 1 == |v.items| then "]" else "," + PrintItems(v, from + 1)
  }

  lemma {:induction false} ItemsCancel(v: Value, r: string, w: Value, t: string, from: nat)
    requires v.Arr? && w.Arr? && Printable(v) && Printable(w)
    requires from < |v.items| && from < |w.items| && v.items[..from] == w.items[..from]
    requires PrintItems(v, from) + r == PrintItems(w, from) + t
    ensures v == w && r == t
    decreases v, |v.items| - from
  {
    var a, b := v.items[from], w.items[from];
    var p, q := ItemTail(v, from), ItemTail(w, from);
    Regroup(Print(a), p, r);
    Regroup(Print(b), q, t);
    assert (p + r)[0] == p[0] && (q + t)[0] == q[0];
    PrintCancel(a, p + r, b, q + t);
    assert v.items[..from + 1] == v.items[..from] + [a] && w.items[..from + 1] == w.items[..from] + [b];
    if from + 1 == |v.items| {
      Cancel("]", r, "]", t);
      assert v.items[..from + 1] == v.items && w.items[..from + 1] == w.items;
    } else {
      DropPrefix(",", PrintItems(v, from + 1), r);
      DropPrefix(",", PrintItems(w, from + 1), t);
      ItemsCancel(v, r, w, t, from + 1);
    }
  }

  lemma {:induction false} ObjectCancel(v: Value, r: string, w: Value, t: string)
    requires v.Obj? && w.Obj? && Printable(v) && Printable(w)
    requires Print(v) + r == Print(w) + t
    ensures v == w && r == t
    decreases v, |SortedKeys(v.members.Keys)| + 1
  {
    var ks, ls := SortedKeys(v.members.Keys), SortedKeys(w.members.Keys);
    EmptyOrMember(v, r);
    EmptyOrMember(w, t);
    if ks != [] {
      DropPrefix("{", PrintMembers(v, ks), r);
      DropPrefix("{", PrintMembers(w, ls), t);
      MembersCancel(v, ks, r, w, ls, t);
    } else {
      Cancel("{}", r, "{}", t);
    }
    SameMembers(v.members, w.members);
  }

  lemma SameMembers(m: map<string, Value>, n: map<string, Value>)
    requires SortedKeys(m.Keys) == SortedKeys(n.Keys)
    requires forall k | k in SortedKeys(m.Keys) :: m[k] == n[k]
    ensures m == n
  {
    assert forall k :: k in m.Keys <==> k in SortedKeys(m.Keys);
    assert m.Keys == n.Keys;
  }

  lemma MembersHead(v: Value, ks: seq<string>)
    requires v.Obj? && ks != [] && forall k | k in ks :: k in v.members
    ensures PrintMembers(v, ks) != "" && PrintMembers(v, ks)[0] == '\"'
  {
    hide QuoteRest;
    assert PrintMembers(v, ks)[0] == Quote(ks[0])[0];
  }

  lemma EmptyOrMember(v: Value, r: string)
    requires v.Obj?
    ensures |Print(v) + r| > 1 && ((Print(v) + r)[1] == '}' <==> SortedKeys(v.members.Keys) == [])
    ensures SortedKeys(v.members.Keys) == [] ==> Print(v) == "{}"
  {
    var ks := SortedKeys(v.members.Keys);
    if ks != [] {
      hide PrintMembers;
      assert PrintMembers(v, ks) != "" && PrintMembers(v, ks)[0] == '\"' by { MembersHead(v, ks); }
      assert Print(v) == "{" + PrintMembers(v, ks);
    }
  }

  function MemberTail(v: Value, ks: seq<string>): string
    requires v.Obj? && ks != [] && forall k | k in ks :: k in v.members
  {
    assert forall k | k in ks[1..] :: k in ks;
    if |ks| == 1 then "}" else "," + PrintMembers(v, ks[1..])
  }

  lemma MembersSplit(v: Value, ks: seq<string>, r: string)
    requires v.Obj? && ks != [] && forall k | k in ks :: k in v.members
    ensures ks[0] in ks
    ensures PrintMembers(v, ks) + r == Quote(ks[0]) + ":" + Print(v.members[ks[0]]) + (MemberTail(v, ks) + r)
  {
    hide Quote;
    hide Print;
    assert ks[0] in ks;
    Regroup(Quote(ks[0]) + ":" + Print(v.members[ks[0]]), MemberTail(v, ks), r);
  }

  lemma {:induction false} MembersCancel(v: Value, ks: seq<string>, r: string, w: Value, ls: seq<string>, t: string)
    requires v.Obj? && w.Obj? && Printable(v) && Printable(w)
    requires ks != [] && ls != [] && (forall k | k in ks :: k in v.members) && (forall k | k in ls :: k in w.members)
    requires PrintMembers(v, ks) + r == PrintMembers(w, ls) + t
    ensures ks == ls && (forall k | k in ks :: v.members[k] == w.members[k]) && r == t
    decreases v, |ks|
  {
    hide Print;
    hide PrintMembers;
    hide Quote;
    var k, l := ks[0], ls[0];
    assert k in ks && l in ls;
    assert forall x | x in ks[1..] :: x in ks;
    assert forall x | x in ls[1..] :: x in ls;
    var p, q := MemberTail(v, ks), MemberTail(w, ls);
    MembersSplit(v, ks, r);
    MembersSplit(w, ls, t);
    MemberCancel(k, Print(v.members[k]), p + r, l, Print(w.members[l]), q + t);
    assert (p + r)[0] == p[0] && (q + t)[0] == q[0];
    PrintCancel(v.members[k], p + r, w.members[l], q + t);
    assert ks == [k] + ks[1..] && ls == [l] + ls[1..];
    if |ks| == 1 {
      Cancel("}", r, "}", t);
    } else {
      DropPrefix(",", PrintMembers(v, ks[1..]), r);
      DropPrefix(",", PrintMembers(w, ls[1..]), t);
      MembersCancel(v, ks[1..], r, w, ls[1..], t);
    }
  }

  lemma MemberCancel(k: string, a: string, p: string, l: string, b: string, q: string)
    requires Quote(k) + ":" + a + p == Quote(l) + ":" + b + q
    ensures k == l && a + p == b + q
  {
    Regroup(Quote(k), ":", a);
    Regroup(Quote(k), ":" + a, p);
    Regroup(Quote(l), ":", b);
    Regroup(Quote(l), ":" + b, q);
    QuoteCancel(k, ":" + a + p, l, ":" + b + q);
    DropPrefix(":", a, p);
    DropPrefix(":", b, q);
  }

  /** Equal texts come from equal values, and a text followed by other material still shows where it ends. */
  lemma StableStringifyInjective(v: Value, w: Value)
    requires Valid(v) && Valid(w)
    requires StableStringify(v).Some? && StableStringify(v) == StableStringify(w)
    ensures v == w
  {
    assert Print(v) + "" == Print(v) && Print(w) + "" == Print(w);
    PrintCancel(v, "", w, "");
  }
}
