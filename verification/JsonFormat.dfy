/** Canonical JSON as a text (`stableStringify`, src/actionBinding.ts; RFC 8259 and the member order of ECMAScript's
    default sort): what is written for each value. */
module JsonFormat {
  import opened Prelude
  import opened Text
  import opened Json
  import Envelope
  import Lex

  // ---------------------------------------------------------------------------
  // Strings
  // ---------------------------------------------------------------------------

  /** The value of a hexadecimal digit, small letters only. */
  function HexValue(c: char): Option<nat> {
    if '0' <= c <= '9' then Some(c as nat - '0' as nat) else if 'a' <= c <= 'f' then Some(c as nat - 'a' as nat + 10) else None
  }

  /** A character as it is written: the two that need it and five controls by a letter, other controls by their number. */
  predicate IsEscape(e: string, c: char) {
    if c == '\"' then e == "\\\""
    else if c == '\\' then e == "\\\\"
    else if c == '\U{08}' then e == "\\b"
    else if c == '\U{09}' then e == "\\t"
    else if c == '\U{0A}' then e == "\\n"
    else if c == '\U{0C}' then e == "\\f"
    else if c == '\U{0D}' then e == "\\r"
    else if c < ' ' then
      && |e| == 6 && e[..4] == "\\u00" && HexValue(e[4]).Some? && HexValue(e[5]).Some?
      && 16 * HexValue(e[4]).value + HexValue(e[5]).value == c as int
    else e == [c]
  }

  function Glue(parts: seq<string>): string { if parts == [] then "" else parts[0] + Glue(parts[1..]) }

  ghost predicate IsQuoted(t: string, s: string) {
    exists parts :: AreEscapes(parts, s) && t == "\"" + Glue(parts) + "\""
  }

  predicate AreEscapes(parts: seq<string>, s: string) { |parts| == |s| && forall i | 0 <= i < |s| :: IsEscape(parts[i], s[i]) }

  lemma EscapeExactly(e: string, c: char)
    ensures IsEscape(e, c) <==> e == Escape(c)
  {
    if c < ' ' && |e| == 6 {
      assert e == e[..4] + [e[4], e[5]];
      HexExactly(e[4], c as nat / 16);
      HexExactly(e[5], c as nat % 16);
      hide HexValue;
      hide HexDigit;
      if e[..4] == "\\u00" && HexValue(e[4]).Some? && HexValue(e[5]).Some? {
        HexBound(e[4]);
        HexBound(e[5]);
      }
    }
  }

  lemma HexExactly(c: char, n: nat)
    requires n < 16
    ensures HexValue(c) == Some(n) <==> c == HexDigit(n)
  {
  }

  lemma HexBound(c: char)
    ensures HexValue(c).Some? ==> HexValue(c).value < 16
  {
  }

  function Escapes(s: string): seq<string> { seq(|s|, i requires 0 <= i < |s| => Escape(s[i])) }

  lemma EscapesExactly(parts: seq<string>, s: string)
    ensures AreEscapes(parts, s) <==> parts == Escapes(s)
  {
    hide IsEscape;
    hide Escape;
    if |parts| == |s| {
      forall i | 0 <= i < |s|
        ensures IsEscape(parts[i], s[i]) <==> parts[i] == Escape(s[i])
      {
        EscapeExactly(parts[i], s[i]);
      }
    }
  }

  lemma {:induction false} GluedEscapes(s: string)
    ensures QuoteRest(s) == Glue(Escapes(s)) + "\""
    decreases |s|
  {
    hide Escape;
    if s != "" {
      GluedEscapes(s[1..]);
      assert Escapes(s)[1..] == Escapes(s[1..]);
      Regroup(Escape(s[0]), Glue(Escapes(s[1..])), "\"");
    }
  }

  lemma QuoteExactly(t: string, s: string)
    ensures IsQuoted(t, s) <==> t == Quote(s)
  {
    GluedEscapes(s);
    hide Glue;
    hide QuoteRest;
    hide AreEscapes;
    hide Escapes;
    EscapesExactly(Escapes(s), s);
    forall parts | AreEscapes(parts, s)
      ensures parts == Escapes(s)
    {
      EscapesExactly(parts, s);
    }
    Regroup("\"", Glue(Escapes(s)), "\"");
  }

  // ---------------------------------------------------------------------------
  // Keys
  // ---------------------------------------------------------------------------

  /** The UTF-16 code units of a character. */
  function Units(c: char): seq<int> {
    var n := c as int;
    if n < 0x1_0000 then [n] else [0xD800 + (n - 0x1_0000) / 0x400, 0xDC00 + (n - 0x1_0000) % 0x400]
  }

  function UnitsOf(s: string): seq<int> { if s == "" then [] else Units(s[0]) + UnitsOf(s[1..]) }

  /** Strings compare as their code units do. */
  lemma {:induction false} KeyLessExactly(a: string, b: string)
    ensures KeyLess(a, b) <==> Lex.Less(UnitsOf(a), UnitsOf(b))
    decreases |a|
  {
    hide Units;
    if a != "" && b != "" {
      assert Ranks(a)[0] == Rank(a[0]) && Ranks(b)[0] == Rank(b[0]);
      assert Ranks(a)[1..] == Ranks(a[1..]) && Ranks(b)[1..] == Ranks(b[1..]);
      UnitsNotNone(a[0]);
      UnitsNotNone(b[0]);
      if a[0] == b[0] {
        KeyLessExactly(a[1..], b[1..]);
        LessAfter(Units(a[0]), UnitsOf(a[1..]), UnitsOf(b[1..]));
      } else {
        UnitsDecide(a[0], UnitsOf(a[1..]), b[0], UnitsOf(b[1..]));
      }
    } else if b != "" {
      UnitsNotNone(b[0]);
    }
  }

  lemma UnitsNotNone(c: char)
    ensures Units(c) != []
  {
  }

  lemma {:induction false} LessAfter(a: seq<int>, r: seq<int>, t: seq<int>)
    ensures Lex.Less(a + r, a + t) <==> Lex.Less(r, t)
    decreases |a|
  {
    if a == [] {
      assert a + r == r && a + t == t;
    } else {
      assert (a + r)[0] == a[0] && (a + t)[0] == a[0];
      assert (a + r)[1..] == a[1..] + r && (a + t)[1..] == a[1..] + t;
      LessAfter(a[1..], r, t);
    }
  }

  lemma UnitsDecide(c: char, r: seq<int>, d: char, t: seq<int>)
    requires c != d
    ensures Lex.Less(Units(c) + r, Units(d) + t) <==> Rank(c) < Rank(d)
  {
    var x, y := Units(c) + r, Units(d) + t;
    assert x[0] == Units(c)[0] && y[0] == Units(d)[0];
    if x[0] == y[0] {
      SamePlane(c, d);
      assert x[1] == Units(c)[1] && y[1] == Units(d)[1];
      assert x[1..][0] == x[1] && y[1..][0] == y[1];
    }
  }

  lemma SamePlane(c: char, d: char)
    requires c != d && Units(c)[..1] == Units(d)[..1]
    ensures c as int >= 0x1_0000 && d as int >= 0x1_0000 && |Units(c)| == |Units(d)| == 2 && Units(c)[1] != Units(d)[1]
    ensures Units(c)[1] < Units(d)[1] <==> Rank(c) < Rank(d)
  {
    assert Units(c)[0] == Units(c)[..1][0] && Units(d)[0] == Units(d)[..1][0];
  }

  // ---------------------------------------------------------------------------
  // Values
  // ---------------------------------------------------------------------------

  /** Keys in the order of their code units, each once. */
  predicate Increasing(keys: seq<string>) { forall i, j | 0 <= i < j < |keys| :: Lex.Less(UnitsOf(keys[i]), UnitsOf(keys[j])) }

  /** `t` is the canonical text of the value: no spaces, and members by increasing key. */
  ghost predicate IsText(t: string, v: Value)
    decreases v, 2
  {
    match v
    case Null => t == "null"
    case Bool(b) => t == if b then "true" else "false"
    case Num(n) => t == NumberText(n)
    case Str(s) => IsQuoted(t, s)
    case Arr(items) =>
      exists parts ::
        && t == "[" + Join(parts, ",") + "]" && |parts| == |items|
        && forall i | 0 <= i < |items| :: IsText(parts[i], items[i])
    case Obj(_) => exists keys, names, parts :: HasMembers(t, v, keys, names, parts)
    case Unrepresentable => false
  }

  ghost predicate HasMembers(t: string, v: Value, keys: seq<string>, names: seq<string>, parts: seq<string>)
    requires v.Obj?
    decreases v, 1
  {
    AreMembers(v, keys, names, parts) && t == "{" + Join(Paired(names, parts), ",") + "}"
  }

  /** The members, in the order of their keys. */
  ghost predicate AreMembers(v: Value, keys: seq<string>, names: seq<string>, parts: seq<string>)
    requires v.Obj?
    decreases v, 0
  {
    && |names| == |parts| == |keys| && Increasing(keys) && (forall k :: k in keys <==> k in v.members)
    && (forall i | 0 <= i < |keys| :: IsQuoted(names[i], keys[i]))
    && forall i | 0 <= i < |keys| :: keys[i] in v.members && IsText(parts[i], v.members[keys[i]])
  }

  function Paired(names: seq<string>, parts: seq<string>): seq<string> {
    if names == [] || parts == [] then [] else [names[0] + ":" + parts[0]] + Paired(names[1..], parts[1..])
  }

  lemma {:induction false} ItemsJoined(v: Value, from: nat, parts: seq<string>)
    requires v.Arr? && from < |v.items| && |parts| == |v.items| - from
    requires forall i | 0 <= i < |parts| :: parts[i] == Print(v.items[from + i])
    ensures PrintItems(v, from) == Join(parts, ",") + "]"
    decreases |parts|
  {
    hide Print;
    if |parts| > 1 {
      ItemsJoined(v, from + 1, parts[1..]);
      Regroup(parts[0], ",", Join(parts[1..], ","));
      Regroup(parts[0] + ",", Join(parts[1..], ","), "]");
    }
  }

  lemma {:induction false} MembersJoined(v: Value, keys: seq<string>, names: seq<string>, parts: seq<string>)
    requires v.Obj? && keys != [] && forall k | k in keys :: k in v.members
    requires |names| == |parts| == |keys|
    requires forall i | 0 <= i < |keys| :: names[i] == Quote(keys[i]) && keys[i] in v.members && parts[i] == Print(v.members[keys[i]])
    ensures PrintMembers(v, keys) == Join(Paired(names, parts), ",") + "}"
    decreases |keys|
  {
    hide Print;
    hide Quote;
    var head, rest := names[0] + ":" + parts[0], Paired(names[1..], parts[1..]);
    assert Paired(names, parts) == [head] + rest && ([head] + rest)[1..] == rest;
    assert keys[0] in keys && forall k | k in keys[1..] :: k in keys;
    PairedLength(names, parts);
    if |keys| > 1 {
      MembersJoined(v, keys[1..], names[1..], parts[1..]);
      Regroup(head, ",", Join(rest, ","));
      Regroup(head + ",", Join(rest, ","), "}");
    }
  }

  lemma {:induction false} PairedLength(names: seq<string>, parts: seq<string>)
    requires |names| == |parts|
    ensures |Paired(names, parts)| == |names|
    decreases |names|
  {
    if names != [] {
      PairedLength(names[1..], parts[1..]);
    }
  }

  lemma {:induction false} SortedIncreases(s: set<string>)
    ensures Increasing(SortedKeys(s))
    decreases s
  {
    hide UnitsOf;
    if s != {} {
      LeastKeyExists(s);
      var k :| LeastKey(k, s) && SortedKeys(s) == [k] + SortedKeys(s - {k});
      var rest := SortedKeys(s - {k});
      SortedIncreases(s - {k});
      forall j | 0 <= j < |rest|
        ensures Lex.Less(UnitsOf(k), UnitsOf(rest[j]))
      {
        assert rest[j] in rest;
        KeyLessExactly(k, rest[j]);
      }
    }
  }

  /** Only one order of the keys increases. */
  lemma OrderFixed(keys: seq<string>, s: set<string>)
    requires Increasing(keys) && forall k :: k in keys <==> k in s
    ensures keys == SortedKeys(s)
  {
    hide UnitsOf;
    forall i | 0 < i < |keys|
      ensures KeyLess(keys[i - 1], keys[i])
    {
      KeyLessExactly(keys[i - 1], keys[i]);
    }
    Envelope.AscendingIsSorted(keys, s);
  }

  ghost predicate ItemsExact(v: Value)
    requires v.Arr?
  {
    forall i, part | 0 <= i < |v.items| :: IsText(part, v.items[i]) <==> part == Print(v.items[i])
  }

  lemma ArrayExactly(t: string, v: Value)
    requires v.Arr? && ItemsExact(v)
    ensures IsText(t, v) <==> t == Print(v)
  {
    var parts := seq(|v.items|, i requires 0 <= i < |v.items| => Print(v.items[i]));
    assert Print(v) == "[" + Join(parts, ",") + "]" by {
      if v.items != [] {
        ItemsJoined(v, 0, parts);
        Regroup("[", Join(parts, ","), "]");
      }
    }
    hide Print;
    hide Join;
    if IsText(t, v) {
      var ps :| t == "[" + Join(ps, ",") + "]" && |ps| == |v.items| && forall i | 0 <= i < |v.items| :: IsText(ps[i], v.items[i]);
      assert ps == parts;
    }
  }

  ghost predicate MembersExact(v: Value)
    requires v.Obj?
  {
    forall k, part | k in v.members :: IsText(part, v.members[k]) <==> part == Print(v.members[k])
  }

  function NamesOf(keys: seq<string>): seq<string> { seq(|keys|, i requires 0 <= i < |keys| => Quote(keys[i])) }

  function PartsOf(v: Value, keys: seq<string>): seq<string>
    requires v.Obj? && forall i | 0 <= i < |keys| :: keys[i] in v.members
  {
    seq(|keys|, i requires 0 <= i < |keys| => Print(v.members[keys[i]]))
  }

  lemma KeysAreMembers(v: Value, keys: seq<string>)
    requires v.Obj? && forall k :: k in keys <==> k in v.members
    ensures forall i | 0 <= i < |keys| :: keys[i] in v.members
  {
    forall i | 0 <= i < |keys|
      ensures keys[i] in v.members
    {
      assert keys[i] in keys;
    }
  }

  lemma MembersFixed(v: Value, keys: seq<string>, names: seq<string>, parts: seq<string>)
    requires v.Obj? && MembersExact(v)
    ensures AreMembers(v, keys, names, parts) ==>
              && keys == SortedKeys(v.members.Keys) && (forall i | 0 <= i < |keys| :: keys[i] in v.members)
              && names == NamesOf(keys) && parts == PartsOf(v, keys)
  {
    hide UnitsOf;
    hide Quote;
    hide Print;
    hide IsQuoted;
    hide SortedKeys;
    if AreMembers(v, keys, names, parts) {
      OrderFixed(keys, v.members.Keys);
      KeysAreMembers(v, keys);
      forall i | 0 <= i < |keys|
        ensures names[i] == Quote(keys[i])
      {
        QuoteExactly(names[i], keys[i]);
      }
      assert names == NamesOf(keys);
      forall i | 0 <= i < |keys|
        ensures parts[i] == Print(v.members[keys[i]])
      {
        assert IsText(parts[i], v.members[keys[i]]);
      }
      assert parts == PartsOf(v, keys);
    }
  }

  lemma SortedAreMembers(v: Value)
    requires v.Obj? && MembersExact(v)
    ensures var keys := SortedKeys(v.members.Keys);
            && (forall i | 0 <= i < |keys| :: keys[i] in v.members)
            && AreMembers(v, keys, NamesOf(keys), PartsOf(v, keys))
  {
    hide UnitsOf;
    hide Quote;
    hide Print;
    hide IsQuoted;
    hide SortedKeys;
    var keys := SortedKeys(v.members.Keys);
    SortedIncreases(v.members.Keys);
    KeysAreMembers(v, keys);
    forall i | 0 <= i < |keys|
      ensures IsQuoted(NamesOf(keys)[i], keys[i])
    {
      QuoteExactly(Quote(keys[i]), keys[i]);
    }
  }

  lemma ObjectPrinted(v: Value)
    requires v.Obj?
    ensures var keys := SortedKeys(v.members.Keys);
            && (forall i | 0 <= i < |keys| :: keys[i] in v.members)
            && Print(v) == "{" + Join(Paired(NamesOf(keys), PartsOf(v, keys)), ",") + "}"
  {
    var keys := SortedKeys(v.members.Keys);
    KeysAreMembers(v, keys);
    hide SortedKeys;
    if keys != [] {
      MembersJoined(v, keys, NamesOf(keys), PartsOf(v, keys));
      hide PrintMembers;
      hide Paired;
      Regroup("{", Join(Paired(NamesOf(keys), PartsOf(v, keys)), ","), "}");
    }
  }

  lemma ObjectExactly(t: string, v: Value)
    requires v.Obj? && MembersExact(v)
    ensures IsText(t, v) <==> t == Print(v)
  {
    ObjectPrinted(v);
    SortedAreMembers(v);
    hide Print;
    hide Join;
    hide Paired;
    hide AreMembers;
    hide SortedKeys;
    hide NamesOf;
    hide PartsOf;
    hide MembersExact;
    forall keys, names, parts | HasMembers(t, v, keys, names, parts)
      ensures t == Print(v)
    {
      MembersFixed(v, keys, names, parts);
    }
    if t == Print(v) {
      var keys := SortedKeys(v.members.Keys);
      assert HasMembers(t, v, keys, NamesOf(keys), PartsOf(v, keys));
    }
  }

  /** Each value has one canonical text, and that is what is printed. */
  lemma {:induction false} PrintExactly(t: string, v: Value)
    requires Representable(v)
    ensures IsText(t, v) <==> t == Print(v)
    decreases v
  {
    if v.Arr? {
      forall i, part | 0 <= i < |v.items|
        ensures IsText(part, v.items[i]) <==> part == Print(v.items[i])
      {
        PrintExactly(part, v.items[i]);
      }
      ArrayExactly(t, v);
    } else if v.Obj? {
      forall k, part | k in v.members
        ensures IsText(part, v.members[k]) <==> part == Print(v.members[k])
      {
        PrintExactly(part, v.members[k]);
      }
      ObjectExactly(t, v);
    } else {
      PlainExactly(t, v);
    }
  }

  lemma PlainExactly(t: string, v: Value)
    requires Representable(v) && !v.Arr? && !v.Obj?
    ensures IsText(t, v) <==> t == Print(v)
  {
    hide IsQuoted;
    hide Quote;
    if v.Str? {
      QuoteExactly(t, v.s);
    }
  }

  /** A value has a canonical text exactly when it prints at all. */
  lemma StableStringifyExactly(t: string, v: Value)
    ensures Representable(v) ==> (StableStringify(v) == Some(t) <==> IsText(t, v))
    ensures !Representable(v) ==> StableStringify(v) == None
  {
    if Representable(v) {
      PrintExactly(t, v);
    }
  }
}
