/** The in-memory replay cache (src/protocolReplay.ts): a min-heap of expiries beside a map of reservations,
    proved against the plain map they stand for, and that map against the history of accepted envelopes. */
module ReplayCache {
  import opened Prelude
  import opened Bytes
  import Text
  import Utf8

  // ---------------------------------------------------------------------------
  // Heap
  // ---------------------------------------------------------------------------

  datatype Entry = Entry(key: string, expiresAt: real)

  function Parent(i: nat): nat
    requires i > 0
  {
    (i - 1) / 2
  }

  predicate HeapOrdered(s: seq<Entry>) {
    forall i | 0 < i < |s| :: s[Parent(i)].expiresAt <= s[i].expiresAt
  }

  lemma {:induction false} RootIsLeast(s: seq<Entry>, i: nat)
    requires HeapOrdered(s) && i < |s|
    ensures s[0].expiresAt <= s[i].expiresAt
  {
    if i > 0 {
      RootIsLeast(s, Parent(i));
    }
  }

  /** Ordered but for `c`, which may be earlier than its parent. */
  predicate OrderedAbove(s: seq<Entry>, c: nat) {
    && (forall i | 0 < i < |s| && i != c :: s[Parent(i)].expiresAt <= s[i].expiresAt)
    && (forall i | 0 < i < |s| && Parent(i) == c && c > 0 :: s[Parent(c)].expiresAt <= s[i].expiresAt)
  }

  /** Ordered but for `c`, which may be later than its children. */
  predicate OrderedBelow(s: seq<Entry>, c: nat) {
    && (forall i | 0 < i < |s| && Parent(i) != c :: s[Parent(i)].expiresAt <= s[i].expiresAt)
    && (forall i | 0 < i < |s| && Parent(i) == c && 0 < c < |s| :: s[Parent(c)].expiresAt <= s[i].expiresAt)
  }

  function Swap(s: seq<Entry>, i: nat, j: nat): (t: seq<Entry>)
    requires i < |s| && j < |s|
    ensures |t| == |s| && multiset(t) == multiset(s)
  {
    s[i := s[j]][j := s[i]]
  }

  class ExpiryMinHeap {
    var items: seq<Entry>

    constructor ()
      ensures items == []
    {
      items := [];
    }

    ghost predicate Ordered() reads this { HeapOrdered(items) }

    method Peek() returns (first: Option<Entry>)
      requires Ordered()
      ensures first == if items == [] then None else Some(items[0])
      ensures first.Some? ==> forall e | e in items :: first.value.expiresAt <= e.expiresAt
    {
      if items == [] {
        return None;
      }
      forall e | e in items
        ensures items[0].expiresAt <= e.expiresAt
      {
        var i :| 0 <= i < |items| && items[i] == e;
        RootIsLeast(items, i);
      }
      return Some(items[0]);
    }

    method Push(entry: Entry)
      requires Ordered()
      modifies this
      ensures Ordered() && multiset(items) == old(multiset(items)) + multiset{entry}
    {
      items := items + [entry];
      BubbleUp(|items| - 1);
    }

    /** Takes off an entry of least expiry. */
    method Pop() returns (first: Option<Entry>)
      requires Ordered()
      modifies this
      ensures Ordered()
      ensures first.None? <==> old(items) == []
      ensures first.None? ==> items == []
      ensures first.Some? ==>
                && old(multiset(items)) == multiset(items) + multiset{first.value}
                && first.value == old(items)[0]
                && forall e | e in old(items) :: first.value.expiresAt <= e.expiresAt
    {
      first := Peek();
      if first.None? {
        return;
      }
      ghost var before := items;
      var last := items[|items| - 1];
      items := items[..|items| - 1];
      assert before == items + [last];
      if |items| > 0 {
        ghost var rest := items;
        assert rest == [first.value] + rest[1..];
        items := items[0 := last];
        assert items == [last] + rest[1..];
        assert forall i | 0 < i < |items| :: items[i] == before[i];
        BubbleDown();
      } else {
        assert items == [];
      }
    }

    method BubbleUp(index: nat)
      requires index < |items| && OrderedAbove(items, index)
      modifies this
      ensures Ordered() && multiset(items) == old(multiset(items))
    {
      var current: nat := index;
      while current > 0
        invariant current < |items| && OrderedAbove(items, current)
        invariant multiset(items) == old(multiset(items))
      {
        var parent := Parent(current);
        if items[parent].expiresAt <= items[current].expiresAt {
          break;
        }
        RaisesOrder(items, current);
        items := Swap(items, current, parent);
        current := parent;
      }
    }

    method BubbleDown()
      requires items != [] && OrderedBelow(items, 0)
      modifies this
      ensures Ordered() && multiset(items) == old(multiset(items))
    {
      var current: nat := 0;
      while true
        invariant current < |items| && OrderedBelow(items, current)
        invariant multiset(items) == old(multiset(items))
        decreases |items| - current
      {
        var left, right := current * 2 + 1, current * 2 + 2;
        var smallest := current;
        if left < |items| && items[left].expiresAt < items[current].expiresAt {
          smallest := left;
        }
        if right < |items| && items[right].expiresAt < items[smallest].expiresAt {
          smallest := right;
        }
        if smallest == current {
          assert forall i | 0 < i < |items| && Parent(i) == current :: i == left || i == right;
          break;
        }
        LowersOrder(items, current, smallest);
        items := Swap(items, current, smallest);
        current := smallest;
      }
    }
  }

  lemma RaisesOrder(s: seq<Entry>, c: nat)
    requires 0 < c < |s| && OrderedAbove(s, c) && s[c].expiresAt < s[Parent(c)].expiresAt
    ensures OrderedAbove(Swap(s, c, Parent(c)), Parent(c))
  {
    var p := Parent(c);
    var t := Swap(s, c, p);
    forall i | 0 < i < |t| && i != p
      ensures t[Parent(i)].expiresAt <= t[i].expiresAt
    {
      assert s[Parent(i)].expiresAt <= s[i].expiresAt || i == c;
    }
    forall i | 0 < i < |t| && Parent(i) == p && p > 0
      ensures t[Parent(p)].expiresAt <= t[i].expiresAt
    {
      assert s[Parent(p)].expiresAt <= s[p].expiresAt;
      assert i != c ==> s[p].expiresAt <= s[i].expiresAt;
    }
  }

  lemma LowersOrder(s: seq<Entry>, c: nat, k: nat)
    requires c < |s| && 0 < k < |s| && Parent(k) == c && OrderedBelow(s, c) && s[k].expiresAt < s[c].expiresAt
    requires forall i | 0 < i < |s| && Parent(i) == c :: s[k].expiresAt <= s[i].expiresAt
    ensures OrderedBelow(Swap(s, c, k), k)
  {
    var t := Swap(s, c, k);
    forall i | 0 < i < |t| && Parent(i) != k
      ensures t[Parent(i)].expiresAt <= t[i].expiresAt
    {
      if i == c {
        assert s[Parent(c)].expiresAt <= s[k].expiresAt;
      } else if Parent(i) != c {
        assert s[Parent(i)].expiresAt <= s[i].expiresAt;
      }
    }
    forall i | 0 < i < |t| && Parent(i) == k
      ensures t[Parent(k)].expiresAt <= t[i].expiresAt
    {
      assert s[Parent(i)].expiresAt <= s[i].expiresAt;
    }
  }

  // ---------------------------------------------------------------------------
  // The map the cache stands for
  // ---------------------------------------------------------------------------

  datatype Outcome = Accepted | Replay | NonFinite

  /** The reservations of a map that are still after `now`. */
  function Live(m: map<string, real>, now: real): map<string, real> {
    map k | k in m && m[k] > now :: m[k]
  }

  predicate Least(m: map<string, real>, k: string) {
    k in m && forall j | j in m :: m[k] <= m[j]
  }

  /** `after` is `m` with room for one more: one entry of least expiry is dropped when it is full. */
  ghost predicate MakesRoom(m: map<string, real>, maxEntries: int, after: map<string, real>) {
    if |m| >= maxEntries && m != map[] then exists k :: Least(m, k) && after == m - {k} else after == m
  }

  /** What one `consume` may do to the map. */
  ghost predicate Consumes(
      m: map<string, real>, maxEntries: int, key: string, expiry: Option<real>, now: real, outcome: Outcome, after: map<string, real>)
  {
    var live := Live(m, now);
    if key in live then outcome == Replay && after == live
    else if expiry.None? then outcome == NonFinite && after == live
    else outcome == Accepted && exists room :: MakesRoom(live, maxEntries, room) && after == room[key := expiry.value]
  }

  /** The entries of a map, once each. */
  ghost function EntrySet(m: map<string, real>): set<Entry> { set k | k in m :: Entry(k, m[k]) }

  ghost function Entries(m: map<string, real>): multiset<Entry> { multiset(EntrySet(m)) }

  lemma EntriesAdd(m: map<string, real>, k: string, e: real)
    requires k !in m
    ensures Entries(m[k := e]) == Entries(m) + multiset{Entry(k, e)}
  {
    var n := m[k := e];
    forall x
      ensures x in EntrySet(n) <==> x in EntrySet(m) + {Entry(k, e)}
    {
      assert x in EntrySet(n) <==> x.key in n && n[x.key] == x.expiresAt;
      assert x in EntrySet(m) <==> x.key in m && m[x.key] == x.expiresAt;
    }
    assert EntrySet(n) == EntrySet(m) + {Entry(k, e)};
    assert Entry(k, e) !in EntrySet(m);
  }

  lemma EntriesRemove(m: map<string, real>, k: string)
    requires k in m
    ensures Entries(m) == Entries(m - {k}) + multiset{Entry(k, m[k])}
  {
    EntriesAdd(m - {k}, k, m[k]);
    assert (m - {k})[k := m[k]] == m;
  }

  lemma CancelOne(a: multiset<Entry>, b: multiset<Entry>, e: Entry)
    requires a + multiset{e} == b + multiset{e}
    ensures a == b
  {
    assert a == (a + multiset{e}) - multiset{e} && b == (b + multiset{e}) - multiset{e};
  }

  // ---------------------------------------------------------------------------
  // Keys
  // ---------------------------------------------------------------------------

  predicate Unreserved(b: byte) {
    || 0x30 <= b <= 0x39 || 0x41 <= b <= 0x5A || 0x61 <= b <= 0x7A
    || b == 0x2D || b == 0x5F || b == 0x2E || b == 0x21 || b == 0x7E || b == 0x2A || b == 0x27 || b == 0x28 || b == 0x29
  }

  function UpperHex(n: nat): char
    requires n < 16
  {
    if n < 10 then ('0' as int + n) as char else ('A' as int + n - 10) as char
  }

  function EscapeByte(b: byte): string {
    if Unreserved(b) then [b as int as char] else ['%', UpperHex(b as int / 16), UpperHex(b as int % 16)]
  }

  function EscapeBytes(bs: seq<byte>): string {
    if bs == [] then "" else EscapeByte(bs[0]) + EscapeBytes(bs[1..])
  }

  /** `encodeURIComponent`. */
  function EncodeUriComponent(s: string): string { EscapeBytes(Utf8.Encode(s)) }

  function MakeKey(sender: string, messageId: string, nonce: string): string {
    EncodeUriComponent(sender) + ("|" + (EncodeUriComponent(messageId) + ("|" + EncodeUriComponent(nonce))))
  }

  predicate NotBar(c: char) { c != '|' }

  lemma {:induction false} EscapedHasNoBar(bs: seq<byte>)
    ensures Text.All(EscapeBytes(bs), NotBar)
  {
    if bs != [] {
      EscapedHasNoBar(bs[1..]);
    }
  }

  lemma EscapeByteCancel(a: byte, r: string, b: byte, t: string)
    requires EscapeByte(a) + r == EscapeByte(b) + t
    ensures a == b && r == t
  {
    var x, y := EscapeByte(a), EscapeByte(b);
    assert (x + r)[0] == x[0] && (y + t)[0] == y[0];
    assert |x| == |y|;
    Text.Cancel(x, r, y, t);
  }

  lemma {:induction false} EscapeInjective(a: seq<byte>, b: seq<byte>)
    requires EscapeBytes(a) == EscapeBytes(b)
    ensures a == b
  {
    if a != [] && b != [] {
      hide EscapeByte;
      EscapeByteCancel(a[0], EscapeBytes(a[1..]), b[0], EscapeBytes(b[1..]));
      EscapeInjective(a[1..], b[1..]);
      assert a == [a[0]] + a[1..] && b == [b[0]] + b[1..];
    }
  }

  lemma ComponentCancel(s: string, r: string, s': string, r': string)
    requires EncodeUriComponent(s) + ("|" + r) == EncodeUriComponent(s') + ("|" + r')
    ensures s == s' && r == r'
  {
    var a, b := Utf8.Encode(s), Utf8.Encode(s');
    EscapedHasNoBar(a);
    EscapedHasNoBar(b);
    Text.Munch(EscapeBytes(a), "|" + r, EscapeBytes(b), "|" + r', NotBar);
    EscapeInjective(a, b);
    Utf8.EncodeInjective(s, s');
    Text.Cancel("|", r, "|", r');
  }

  /** Different sender, message id and nonce make different keys, whatever characters they contain. */
  lemma MakeKeyInjective(sender: string, messageId: string, nonce: string, sender': string, messageId': string, nonce': string)
    requires MakeKey(sender, messageId, nonce) == MakeKey(sender', messageId', nonce')
    ensures sender == sender' && messageId == messageId' && nonce == nonce'
  {
    hide EncodeUriComponent;
    ComponentCancel(sender, EncodeUriComponent(messageId) + ("|" + EncodeUriComponent(nonce)),
                    sender', EncodeUriComponent(messageId') + ("|" + EncodeUriComponent(nonce')));
    ComponentCancel(messageId, EncodeUriComponent(nonce), messageId', EncodeUriComponent(nonce'));
    UriInjective(nonce, nonce');
  }

  lemma UriInjective(s: string, t: string)
    requires EncodeUriComponent(s) == EncodeUriComponent(t)
    ensures s == t
  {
    EscapeInjective(Utf8.Encode(s), Utf8.Encode(t));
    Utf8.EncodeInjective(s, t);
  }

  // ---------------------------------------------------------------------------
  // The cache
  // ---------------------------------------------------------------------------

  /** The header fields the cache reads; `expiresAt` is `timestampMs + ttlMs`, `None` when not finite. */
  datatype Header = Header(sender: string, messageId: string, nonce: string, expiresAt: Option<real>)

  class InMemoryReplayCache {
    var entries: map<string, real>
    const maxEntries: int
    const expiries: ExpiryMinHeap

    constructor (maxEntries: int)
      ensures this.maxEntries == maxEntries && entries == map[] && Valid() && fresh(expiries)
    {
      this.maxEntries := maxEntries;
      entries := map[];
      expiries := new ExpiryMinHeap();
    }

    /** The heap is ordered and holds exactly the entries of the map, once each. */
    ghost predicate Valid() reads this, expiries {
      expiries.Ordered() && multiset(expiries.items) == Entries(entries)
    }

    lemma HeapHolds(e: Entry)
      requires Valid()
      ensures e in expiries.items <==> e.key in entries && entries[e.key] == e.expiresAt
    {
      assert e in expiries.items <==> e in multiset(expiries.items);
      assert e in Entries(entries) <==> e in EntrySet(entries);
    }

    /** `prune`: keeps exactly the reservations after `nowMs`. */
    method Prune(nowMs: real)
      requires Valid()
      modifies this`entries, expiries
      ensures Valid() && entries == Live(old(entries), nowMs)
    {
      while true
        invariant Valid() && Live(entries, nowMs) == Live(old(entries), nowMs)
        decreases |expiries.items|
      {
        var next := expiries.Peek();
        if next.None? || next.value.expiresAt > nowMs {
          forall k | k in entries
            ensures entries[k] > nowMs
          {
            HeapHolds(Entry(k, entries[k]));
          }
          assert entries == Live(entries, nowMs);
          break;
        }
        HeapHolds(next.value);
        ghost var before := expiries.items;
        var popped := expiries.Pop();
        assert |multiset(before)| == |before| && |multiset(expiries.items)| == |expiries.items|;
        var key := next.value.key;
        EntriesRemove(entries, key);
        CancelOne(multiset(expiries.items), Entries(entries - {key}), next.value);
        if key in entries && entries[key] == next.value.expiresAt && entries[key] <= nowMs {
          entries := entries - {key};
        }
      }
    }

    /** The heap is ordered and holds every entry of the map, and possibly others. */
    ghost predicate Covered() reads this, expiries {
      expiries.Ordered() && Entries(entries) <= multiset(expiries.items)
    }

    /** `evictOne`: whatever stale entries the heap may hold, an entry of least expiry is dropped. While heap and map hold
        the same entries no round of the loop is wasted, and the fallback never finds a key. */
    method EvictOne()
      requires Covered() && |entries| >= maxEntries
      modifies this`entries, expiries
      ensures Covered() && MakesRoom(old(entries), maxEntries, entries)
      ensures old(Valid()) ==> Valid()
    {
      ghost var m, start := entries, expiries.items;
      while |entries| >= maxEntries
        invariant Covered() && entries == m && |m| >= maxEntries
        invariant multiset(start) == Entries(m) ==> expiries.items == start
        decreases |expiries.items|
      {
        ghost var before := expiries.items;
        var next := expiries.Pop();
        if next.None? {
          NothingHeld(m, before);
          break;
        }
        var e := next.value;
        assert e in before;
        Shorter(before, expiries.items, e);
        if e.key in entries && entries[e.key] == e.expiresAt {
          CurrentIsLeast(m, before, e);
          EntriesRemove(m, e.key);
          entries := entries - {e.key};
          DropBoth(multiset(before), multiset(expiries.items), Entries(m), Entries(entries), e);
          return;
        }
        StaleDropped(m, before, expiries.items, e);
      }
      Fallback();
    }

    /** Without a current entry in the heap: the first key of the map, if there is one. */
    method Fallback()
      modifies this`entries
      ensures old(entries) == map[] ==> entries == map[]
    {
      if |entries| >= maxEntries && entries.Keys != {} {
        var first :| first in entries.Keys;
        if first != "" {
          entries := entries - {first};
        }
      }
    }

    lemma HeldEntry(m: map<string, real>, k: string)
      requires k in m
      ensures Entry(k, m[k]) in Entries(m)
    {
      assert Entry(k, m[k]) in EntrySet(m);
    }

    lemma NothingHeld(m: map<string, real>, items: seq<Entry>)
      requires Entries(m) <= multiset(items) && items == []
      ensures m == map[]
    {
      forall k | k in m
        ensures false
      {
        HeldEntry(m, k);
      }
    }

    lemma Shorter(before: seq<Entry>, after: seq<Entry>, e: Entry)
      requires multiset(before) == multiset(after) + multiset{e}
      ensures |after| < |before|
    {
      assert |multiset(before)| == |before| && |multiset(after)| == |after|;
    }

    lemma CurrentIsLeast(m: map<string, real>, items: seq<Entry>, e: Entry)
      requires Entries(m) <= multiset(items) && e.key in m && m[e.key] == e.expiresAt
      requires forall f | f in items :: e.expiresAt <= f.expiresAt
      ensures Least(m, e.key) && m != map[] && e in Entries(m)
    {
      assert e in EntrySet(m);
      forall j | j in m
        ensures m[e.key] <= m[j]
      {
        assert Entry(j, m[j]) in EntrySet(m) && Entry(j, m[j]) in Entries(m);
        assert Entry(j, m[j]) in multiset(items);
      }
    }

    lemma DropBoth(before: multiset<Entry>, after: multiset<Entry>, m: multiset<Entry>, n: multiset<Entry>, e: Entry)
      requires before == after + multiset{e} && m == n + multiset{e} && m <= before
      ensures n <= after && (m == before ==> n == after)
    {
      forall f
        ensures n[f] <= after[f]
      {
        assert m[f] <= before[f];
      }
      if m == before {
        CancelOne(after, n, e);
      }
    }

    lemma StaleDropped(m: map<string, real>, before: seq<Entry>, after: seq<Entry>, e: Entry)
      requires Entries(m) <= multiset(before) && multiset(before) == multiset(after) + multiset{e}
      requires !(e.key in m && m[e.key] == e.expiresAt)
      ensures Entries(m) <= multiset(after) && multiset(before) != Entries(m)
    {
      assert e !in EntrySet(m) && e !in Entries(m) && e in multiset(before);
      forall f
        ensures Entries(m)[f] <= multiset(after)[f]
      {
        assert Entries(m)[f] <= multiset(before)[f];
      }
    }

    /** `consume`. */
    method Consume(header: Header, nowMs: real) returns (outcome: Outcome)
      requires Valid()
      modifies this`entries, expiries
      ensures Valid()
      ensures Consumes(old(entries), maxEntries, MakeKey(header.sender, header.messageId, header.nonce), header.expiresAt, nowMs,
                       outcome, entries)
    {
      Prune(nowMs);
      var key := MakeKey(header.sender, header.messageId, header.nonce);
      if key in entries && entries[key] > nowMs {
        return Replay;
      }
      if header.expiresAt.None? {
        return NonFinite;
      }
      ghost var live := entries;
      if |entries| >= maxEntries {
        EvictOne();
      }
      assert MakesRoom(live, maxEntries, entries);
      EntriesAdd(entries, key, header.expiresAt.value);
      entries := entries[key := header.expiresAt.value];
      expiries.Push(Entry(key, header.expiresAt.value));
      return Accepted;
    }
  }

  // ---------------------------------------------------------------------------
  // Against the history of accepted envelopes
  // ---------------------------------------------------------------------------

  datatype Call = Call(key: string, expiry: Option<real>, now: real)

  /** One call of a run: its outcome and the map it left. */
  datatype Step = Step(call: Call, outcome: Outcome, after: map<string, real>)

  function Before(run: seq<Step>, i: nat): map<string, real>
    requires i <= |run|
  {
    if i == 0 then map[] else run[i - 1].after
  }

  /** Calls on one cache, in the order of a clock that does not go back. */
  ghost predicate IsRun(run: seq<Step>, maxEntries: int) {
    && (forall i | 0 <= i < |run| ::
          var c := run[i].call;
          Consumes(Before(run, i), maxEntries, c.key, c.expiry, c.now, run[i].outcome, run[i].after))
    && (forall i | 0 < i < |run| :: run[i - 1].call.now <= run[i].call.now)
  }

  /** The i-th call accepted the key with an expiry after `t`. */
  predicate Reserves(run: seq<Step>, i: nat, key: string, t: real)
    requires i < |run|
  {
    var s := run[i];
    s.outcome == Accepted && s.call.key == key && s.call.expiry.Some? && s.call.expiry.value > t
  }

  predicate Reserved(run: seq<Step>, n: nat, key: string, t: real)
    requires n <= |run|
  {
    exists i | 0 <= i < n :: Reserves(run, i, key, t)
  }

  /** How many keys were reserved before call `n` with an expiry after `t`. */
  function LiveKeys(run: seq<Step>, n: nat, t: real): set<string>
    requires n <= |run|
  {
    set i | 0 <= i < n && Reserves(run, i, run[i].call.key, t) :: run[i].call.key
  }

  /** If the n-th call presents a key that is not reserved, with a finite expiry, then fewer than `maxEntries`
      reservations are live, or none. */
  predicate RoomAt(run: seq<Step>, maxEntries: int, n: nat)
    requires n < |run|
  {
    var c := run[n].call;
    var live := LiveKeys(run, n, c.now);
    c.expiry.Some? && !Reserved(run, n, c.key, c.now) ==> live == {} || |live| < maxEntries
  }

  predicate AlwaysRoom(run: seq<Step>, maxEntries: int) { forall i | 0 <= i < |run| :: RoomAt(run, maxEntries, i) }

  /** The map knows exactly the reservations of the history that outlive `clock`. */
  ghost predicate Knows(run: seq<Step>, n: nat, clock: real)
    requires n <= |run|
  {
    forall k, t | t >= clock :: Holds(Before(run, n), k, t) <==> Reserved(run, n, k, t)
  }

  predicate Holds(m: map<string, real>, k: string, t: real) { k in m && m[k] > t }

  lemma ReservedStep(run: seq<Step>, n: nat, key: string, t: real)
    requires n < |run|
    ensures Reserved(run, n + 1, key, t) <==> Reserved(run, n, key, t) || Reserves(run, n, key, t)
  {
  }

  /** Without eviction, one call keeps the map in step with the history. */
  lemma KnowsStep(run: seq<Step>, maxEntries: int, n: nat, clock: real)
    requires IsRun(run, maxEntries) && n < |run| && clock <= run[n].call.now && Knows(run, n, clock)
    requires RoomAt(run, maxEntries, n)
    ensures Knows(run, n + 1, run[n].call.now)
  {
    var c, m := run[n].call, Before(run, n);
    var live := Live(m, c.now);
    assert Consumes(m, maxEntries, c.key, c.expiry, c.now, run[n].outcome, run[n].after);
    assert c.key in live <==> Holds(m, c.key, c.now);
    if run[n].outcome == Accepted {
      assert live.Keys == LiveKeys(run, n, c.now) by {
        LiveKeysAre(run, n, clock, c.now);
      }
      assert |live| == |live.Keys|;
      assert run[n].after == live[c.key := c.expiry.value];
    }
    forall k, t | t >= c.now
      ensures Holds(run[n].after, k, t) <==> Reserved(run, n + 1, k, t)
    {
      ReservedStep(run, n, k, t);
      assert Holds(m, k, t) <==> Reserved(run, n, k, t);
      if k == c.key && run[n].outcome == Accepted {
        assert !Holds(m, k, c.now);
        assert !Holds(m, k, t);
      }
    }
  }

  lemma LiveKeysAre(run: seq<Step>, n: nat, clock: real, t: real)
    requires n <= |run| && Knows(run, n, clock) && clock <= t
    ensures Live(Before(run, n), t).Keys == LiveKeys(run, n, t)
  {
    forall k
      ensures k in Live(Before(run, n), t).Keys <==> k in LiveKeys(run, n, t)
    {
      assert Holds(Before(run, n), k, t) <==> Reserved(run, n, k, t);
      if Reserved(run, n, k, t) {
        var i :| 0 <= i < n && Reserves(run, i, k, t);
        assert run[i].call.key == k;
      }
    }
  }

  function ClockBefore(run: seq<Step>, n: nat): real
    requires n <= |run| && run != []
  {
    if n == 0 then run[0].call.now else run[n - 1].call.now
  }

  lemma NothingKnown(run: seq<Step>, clock: real)
    ensures Knows(run, 0, clock)
  {
  }

  /** The map knows the history at the clock of the call before. */
  ghost predicate KnowsAt(run: seq<Step>, n: nat)
    requires n <= |run| && run != []
  {
    Knows(run, n, ClockBefore(run, n))
  }

  /** While the map knows the history, one call refuses exactly the replays, whether there is room or not. */
  lemma RefusesNext(run: seq<Step>, maxEntries: int, n: nat)
    requires IsRun(run, maxEntries) && n < |run| && KnowsAt(run, n)
    ensures run[n].outcome == Replay <==> Reserved(run, n, run[n].call.key, run[n].call.now)
  {
    hide Reserved;
    var c, m := run[n].call, Before(run, n);
    assert Consumes(m, maxEntries, c.key, c.expiry, c.now, run[n].outcome, run[n].after);
    assert Holds(m, c.key, c.now) <==> Reserved(run, n, c.key, c.now);
  }

  /** A call accepted when as many reservations are live as the cache may hold makes it forget one of them. */
  lemma FullCacheForgets(run: seq<Step>, maxEntries: int, n: nat)
    requires IsRun(run, maxEntries) && n < |run| && KnowsAt(run, n) && !RoomAt(run, maxEntries, n)
    ensures exists k :: Reserved(run, n, k, run[n].call.now) && k !in run[n].after
    ensures !KnowsAt(run, n + 1)
  {
    var c, m := run[n].call, Before(run, n);
    var live := Live(m, c.now);
    assert Consumes(m, maxEntries, c.key, c.expiry, c.now, run[n].outcome, run[n].after);
    LiveKeysAre(run, n, ClockBefore(run, n), c.now);
    hide LiveKeys;
    hide Reserved;
    assert Holds(m, c.key, c.now) <==> Reserved(run, n, c.key, c.now);
    assert |live| == |live.Keys| && live != map[];
    var k := OverfullDrops(m, maxEntries, c.key, c.expiry, c.now, run[n].outcome, run[n].after);
    hide Consumes;
    assert Holds(m, k, c.now) <==> Reserved(run, n, k, c.now);
    ReservedStep(run, n, k, c.now);
    assert !Holds(run[n].after, k, c.now);
  }

  /** Just one reservation is forgotten: one that no other live reservation would have outlived. */
  lemma ForgetsSoonest(run: seq<Step>, maxEntries: int, n: nat) returns (k: string)
    requires IsRun(run, maxEntries) && n < |run| && KnowsAt(run, n) && !RoomAt(run, maxEntries, n)
    ensures var c := run[n].call;
            && Reserved(run, n, k, c.now)
            && (forall j, t | t >= c.now && Reserved(run, n, j, c.now) && Reserved(run, n, k, t) :: Reserved(run, n, j, t))
            && (forall j, t | t >= c.now ::
                  Holds(run[n].after, j, t) <==> (j == c.key && c.expiry.Some? && c.expiry.value > t) || (j != k && j != c.key && Reserved(run, n, j, t)))
  {
    var c, m := run[n].call, Before(run, n);
    var live := Live(m, c.now);
    assert Consumes(m, maxEntries, c.key, c.expiry, c.now, run[n].outcome, run[n].after);
    LiveKeysAre(run, n, ClockBefore(run, n), c.now);
    hide LiveKeys;
    hide Reserved;
    assert |live| == |live.Keys| && live != map[];
    assert Holds(m, c.key, c.now) <==> Reserved(run, n, c.key, c.now);
    k := OverfullDrops(m, maxEntries, c.key, c.expiry, c.now, run[n].outcome, run[n].after);
    hide Consumes;
    hide Live;
    hide RoomAt;
    forall j, t | t >= c.now
      ensures Holds(m, j, t) <==> Reserved(run, n, j, t)
    {
      assert t >= ClockBefore(run, n);
    }
  }

  /** Storing a new key in a full map drops a live one. */
  lemma OverfullDrops(
      m: map<string, real>, maxEntries: int, key: string, expiry: Option<real>, now: real, outcome: Outcome, after: map<string, real>)
    returns (k: string)
    requires Consumes(m, maxEntries, key, expiry, now, outcome, after) && expiry.Some? && !Holds(m, key, now)
    requires |Live(m, now)| >= maxEntries && Live(m, now) != map[]
    ensures Holds(m, k, now) && k !in after && (forall j | Holds(m, j, now) :: m[k] <= m[j])
    ensures forall j, t | t >= now :: Holds(after, j, t) <==> (j == key && expiry.value > t) || (j != k && j != key && Holds(m, j, t))
  {
    var live := Live(m, now);
    var room :| MakesRoom(live, maxEntries, room) && after == room[key := expiry.value];
    k :| Least(live, k) && room == live - {k};
    assert forall j | Holds(m, j, now) :: j in live;
  }

  /** One call keeps the map in step with the history exactly when it finds room. */
  lemma KnowsNextExactly(run: seq<Step>, maxEntries: int, n: nat)
    requires IsRun(run, maxEntries) && n < |run| && KnowsAt(run, n)
    ensures KnowsAt(run, n + 1) <==> RoomAt(run, maxEntries, n)
  {
    hide Consumes;
    hide Knows;
    hide LiveKeys;
    hide Reserved;
    if RoomAt(run, maxEntries, n) {
      KnowsStep(run, maxEntries, n, ClockBefore(run, n));
    } else {
      FullCacheForgets(run, maxEntries, n);
    }
  }

  lemma {:induction false} RunKnows(run: seq<Step>, maxEntries: int, n: nat)
    requires IsRun(run, maxEntries) && AlwaysRoom(run, maxEntries) && run != [] && n <= |run|
    ensures KnowsAt(run, n)
  {
    hide Consumes;
    hide Knows;
    hide IsRun;
    hide RoomAt;
    if n > 0 {
      RunKnows(run, maxEntries, n - 1);
      KnowsNextExactly(run, maxEntries, n - 1);
    } else {
      NothingKnown(run, ClockBefore(run, 0));
    }
  }

  /** After every call of a run the map knows exactly the live reservations of the history if and only if every
      accepted call found room for its own. */
  lemma AgreesThroughoutExactly(run: seq<Step>, maxEntries: int)
    requires IsRun(run, maxEntries) && run != []
    ensures (forall n | 0 <= n <= |run| :: KnowsAt(run, n)) <==> AlwaysRoom(run, maxEntries)
  {
    hide IsRun;
    hide KnowsAt;
    hide RoomAt;
    if AlwaysRoom(run, maxEntries) {
      forall n | 0 <= n <= |run|
        ensures KnowsAt(run, n)
      {
        RunKnows(run, maxEntries, n);
      }
    }
    if forall n | 0 <= n <= |run| :: KnowsAt(run, n) {
      forall n | 0 <= n < |run|
        ensures RoomAt(run, maxEntries, n)
      {
        assert KnowsAt(run, n) && KnowsAt(run, n + 1);
        KnowsNextExactly(run, maxEntries, n);
      }
    }
  }

  /** A call is refused as a replay exactly when the same key was accepted earlier with an expiry still after
      now, in every run in which each call with a new key finds a free place. */
  lemma RefusesExactlyReplays(run: seq<Step>, maxEntries: int, n: nat)
    requires IsRun(run, maxEntries) && AlwaysRoom(run, maxEntries) && n < |run|
    ensures run[n].outcome
            == if Reserved(run, n, run[n].call.key, run[n].call.now) then Replay else if run[n].call.expiry.None? then NonFinite else Accepted
  {
    hide Knows;
    hide Reserved;
    RunKnows(run, maxEntries, n);
    RefusesNext(run, maxEntries, n);
    var c := run[n].call;
    assert Consumes(Before(run, n), maxEntries, c.key, c.expiry, c.now, run[n].outcome, run[n].after);
  }

  /** What one call leaves was there before, or is what it accepted. */
  lemma HeldBefore(
      m: map<string, real>, maxEntries: int, key: string, expiry: Option<real>, now: real, outcome: Outcome, after: map<string, real>,
      k: string, t: real)
    requires Consumes(m, maxEntries, key, expiry, now, outcome, after) && Holds(after, k, t)
    ensures Holds(m, k, t) || (outcome == Accepted && k == key && expiry.Some? && expiry.value > t)
  {
  }

  lemma {:induction false} HeldWasReserved(run: seq<Step>, maxEntries: int, n: nat, k: string, t: real)
    requires IsRun(run, maxEntries) && n <= |run| && Holds(Before(run, n), k, t)
    ensures Reserved(run, n, k, t)
  {
    hide Consumes;
    hide Reserved;
    if n > 0 {
      var c, m := run[n - 1].call, Before(run, n - 1);
      ReservedStep(run, n - 1, k, t);
      if !Reserves(run, n - 1, k, t) {
        HeldBefore(m, maxEntries, c.key, c.expiry, c.now, run[n - 1].outcome, run[n - 1].after, k, t);
        HeldWasReserved(run, maxEntries, n - 1, k, t);
      }
    }
  }

  /** Even when entries are evicted, only what was accepted before and is still live is ever refused. */
  lemma NoFalseRefusal(run: seq<Step>, maxEntries: int, n: nat)
    requires IsRun(run, maxEntries) && n < |run| && run[n].outcome == Replay
    ensures Reserved(run, n, run[n].call.key, run[n].call.now)
  {
    var c, m := run[n].call, Before(run, n);
    assert Consumes(m, maxEntries, c.key, c.expiry, c.now, run[n].outcome, run[n].after);
    HeldWasReserved(run, maxEntries, n, c.key, c.now);
  }

  /** A cache of positive size never holds more than `maxEntries` reservations. */
  lemma {:induction false} NeverOverfull(run: seq<Step>, maxEntries: int, n: nat)
    requires IsRun(run, maxEntries) && maxEntries >= 1 && n <= |run|
    ensures |Before(run, n)| <= maxEntries
    decreases n
  {
    hide Consumes;
    if n > 0 {
      NeverOverfull(run, maxEntries, n - 1);
      var c := run[n - 1].call;
      ConsumeBound(Before(run, n - 1), maxEntries, c.key, c.expiry, c.now, run[n - 1].outcome, run[n - 1].after);
    }
  }

  lemma ConsumeBound(m: map<string, real>, maxEntries: int, key: string, expiry: Option<real>, now: real, outcome: Outcome, after: map<string, real>)
    requires Consumes(m, maxEntries, key, expiry, now, outcome, after) && maxEntries >= 1 && |m| <= maxEntries
    ensures |after| <= maxEntries
  {
    LiveIsSmaller(m, now);
    var live := Live(m, now);
    if outcome == Accepted {
      var room :| MakesRoom(live, maxEntries, room) && after == room[key := expiry.value];
      RoomBound(live, maxEntries, room);
      assert after.Keys == room.Keys + {key};
      assert |after| == |after.Keys| && |room| == |room.Keys|;
    }
  }

  lemma RoomBound(m: map<string, real>, maxEntries: int, room: map<string, real>)
    requires MakesRoom(m, maxEntries, room) && maxEntries >= 1 && |m| <= maxEntries
    ensures |room| < maxEntries
  {
    if |m| >= maxEntries {
      assert m != map[];
      var k :| Least(m, k) && room == m - {k};
      assert room.Keys == m.Keys - {k};
      assert |room| == |room.Keys| && |m| == |m.Keys|;
    }
  }

  lemma LiveIsSmaller(m: map<string, real>, now: real)
    ensures |Live(m, now)| <= |m|
  {
    assert Live(m, now).Keys <= m.Keys;
    SubsetSize(Live(m, now).Keys, m.Keys);
    assert |Live(m, now)| == |Live(m, now).Keys| && |m| == |m.Keys|;
  }

  /** A full cache forgets a live reservation to store an envelope that has already expired: with one place,
      the first envelope is accepted again although its reservation outlives the run. */
  lemma ExpiredEnvelopeEvicts(a: string, b: string)
    requires a != b
    ensures exists run: seq<Step> :: |run| == 3 && IsRun(run, 1) && run[2].outcome == Accepted && Reserved(run, 2, run[2].call.key, run[2].call.now)
  {
    var e, x := 10.0, 1.0;
    var run := [Step(Call(a, Some(e), 2.0), Accepted, map[a := e]), Step(Call(b, Some(x), 2.0), Accepted, map[b := x]),
                Step(Call(a, Some(e), 2.0), Accepted, map[a := e])];
    assert Live(map[], 2.0) == map[];
    assert MakesRoom(map[], 1, map[]);
    var empty: map<string, real> := map[];
    assert Before(run, 0) == empty && empty[a := e] == map[a := e];
    assert Live(map[a := e], 2.0) == map[a := e];
    assert Least(map[a := e], a) && map[a := e] - {a} == empty;
    assert |map[a := e]| == 1;
    assert MakesRoom(map[a := e], 1, empty) && empty[b := x] == map[b := x];
    assert Live(map[b := x], 2.0) == empty;
    assert Consumes(Before(run, 0), 1, a, Some(e), 2.0, Accepted, run[0].after);
    assert Consumes(Before(run, 1), 1, b, Some(x), 2.0, Accepted, run[1].after);
    assert Consumes(Before(run, 2), 1, a, Some(e), 2.0, Accepted, run[2].after);
    assert Reserves(run, 0, a, 2.0);
    assert IsRun(run, 1);
  }
}
