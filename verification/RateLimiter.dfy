/** The sliding-window rate limiter (src/rateLimiter.ts): exact counting while a key is tracked, and which key is
    forgotten when there are too many. */
module RateLimiter {
  datatype Policy = Policy(requests: int, windowMs: int)

  datatype Limit = Limit(allowed: bool, remaining: int, resetMs: int)

  /** The stored timestamps of a key; a `Map` keeps its keys in insertion order. */
  datatype Window = Window(key: string, stamps: seq<int>)

  function Max(a: int, b: int): int { if a > b then a else b }

  predicate Distinct(ws: seq<Window>) { forall i, j | 0 <= i < j < |ws| :: ws[i].key != ws[j].key }

  /** `windows.get(key) ?? []`. */
  function Get(ws: seq<Window>, key: string): seq<int> {
    if ws == [] then [] else if ws[0].key == key then ws[0].stamps else Get(ws[1..], key)
  }

  function Without(ws: seq<Window>, key: string): seq<Window> {
    if ws == [] then [] else (if ws[0].key == key then [] else [ws[0]]) + Without(ws[1..], key)
  }

  /** `filter(t => t > cutoff)`. */
  function Recent(ts: seq<int>, cutoff: int): (r: seq<int>)
    ensures |r| <= |ts|
  {
    if ts == [] then [] else if ts[0] > cutoff then [ts[0]] + Recent(ts[1..], cutoff) else Recent(ts[1..], cutoff)
  }

  function ResetAfter(ts: seq<int>, p: Policy, now: int): int {
    if ts != [] then Max(0, ts[0] + p.windowMs - now) else 0
  }

  /** The timestamps a call leaves for its key. */
  function Updated(ts: seq<int>, p: Policy, now: int): seq<int> {
    var recent := Recent(ts, now - p.windowMs);
    if |recent| < p.requests then recent + [now] else recent
  }

  /** What `check` reports. */
  function Preview(ts: seq<int>, p: Policy, now: int): Limit {
    var recent := Recent(ts, now - p.windowMs);
    var allowed := |recent| < p.requests;
    Limit(allowed, Max(0, p.requests - |recent| - (if allowed then 1 else 0)), ResetAfter(recent, p, now))
  }

  /** What `consume` reports. */
  function Report(ts: seq<int>, p: Policy, now: int): Limit {
    var stamps := Updated(ts, p, now);
    Limit(|Recent(ts, now - p.windowMs)| < p.requests, Max(0, p.requests - |stamps|), ResetAfter(stamps, p, now))
  }

  /** `check` predicts the verdict and the remaining count of `consume`, and its reset time once the window is
      not empty. */
  lemma CheckPredicts(ts: seq<int>, p: Policy, now: int)
    ensures Preview(ts, p, now).allowed == Report(ts, p, now).allowed
    ensures Preview(ts, p, now).remaining == Report(ts, p, now).remaining
    ensures Recent(ts, now - p.windowMs) != [] ==> Preview(ts, p, now) == Report(ts, p, now)
  {
  }

  // ---------------------------------------------------------------------------
  // Eviction
  // ---------------------------------------------------------------------------

  /** No timestamp is inside the caller's window. */
  predicate Expired(w: Window, cutoff: int) { w.stamps == [] || w.stamps[|w.stamps| - 1] <= cutoff }

  predicate UnderQuota(w: Window, p: Policy) { |w.stamps| < p.requests }

  /** Live, and as many timestamps stored as requests are allowed. */
  predicate HoldsQuota(w: Window, p: Policy, now: int) { !Expired(w, now - p.windowMs) && !UnderQuota(w, p) }

  function ExpiredBy(cutoff: int): Window -> bool { w => Expired(w, cutoff) }

  function Under(p: Policy): Window -> bool { w => UnderQuota(w, p) }

  /** The first window of another key that satisfies `test`, or the number of windows. */
  function FirstOther(ws: seq<Window>, key: string, test: Window -> bool): (i: nat)
    ensures i <= |ws| && (i < |ws| ==> ws[i].key != key && test(ws[i]))
    ensures forall j | 0 <= j < i :: ws[j].key == key || !test(ws[j])
  {
    if ws == [] then 0 else if ws[0].key != key && test(ws[0]) then 0 else 1 + FirstOther(ws[1..], key, test)
  }

  /** Which window goes: an expired one, else one under quota, else the least recently used. */
  function Victim(ws: seq<Window>, key: string, p: Policy, now: int): (i: nat)
    requires ws != []
    ensures i < |ws|
  {
    var expired := FirstOther(ws, key, ExpiredBy(now - p.windowMs));
    if expired < |ws| then expired
    else
      var under := FirstOther(ws, key, Under(p));
      if under < |ws| then under else 0
  }

  function RemoveAt(ws: seq<Window>, i: nat): seq<Window>
    requires i < |ws|
  {
    ws[..i] + ws[i + 1..]
  }

  /** The windows after a call. */
  function Consumed(ws: seq<Window>, maxKeys: int, key: string, p: Policy, now: int): seq<Window> {
    var stamps := Updated(Get(ws, key), p, now);
    if stamps == [] then Without(ws, key)
    else
      var all := Without(ws, key) + [Window(key, stamps)];
      if |all| > maxKeys then RemoveAt(all, Victim(all, key, p, now)) else all
  }

  lemma {:induction false} WithoutFacts(ws: seq<Window>, key: string)
    ensures Distinct(ws) ==> Distinct(Without(ws, key))
    ensures forall w :: w in Without(ws, key) <==> w in ws && w.key != key
    ensures |Without(ws, key)| <= |ws|
  {
    if ws != [] {
      WithoutFacts(ws[1..], key);
      var rest := Without(ws[1..], key);
      assert forall w :: w in ws <==> w == ws[0] || w in ws[1..];
      if Distinct(ws) {
        forall j | 0 <= j < |rest|
          ensures rest[j].key != ws[0].key
        {
          assert rest[j] in rest;
          var k :| 0 <= k < |ws[1..]| && ws[1..][k] == rest[j];
          assert ws[k + 1] == rest[j];
        }
      }
    }
  }

  lemma {:induction false} WithoutNone(ws: seq<Window>, key: string)
    requires forall w | w in ws :: w.key != key
    ensures Without(ws, key) == ws && Get(ws, key) == []
  {
    if ws != [] {
      WithoutNone(ws[1..], key);
    }
  }

  /** Tracked keys never exceed `maxKeys`. */
  lemma ConsumedBound(ws: seq<Window>, maxKeys: int, key: string, p: Policy, now: int)
    requires Distinct(ws) && |ws| <= Max(0, maxKeys)
    ensures Distinct(Consumed(ws, maxKeys, key, p, now)) && |Consumed(ws, maxKeys, key, p, now)| <= Max(0, maxKeys)
  {
    hide Victim;
    hide Updated;
    WithoutFacts(ws, key);
    hide Without;
    var rest := Without(ws, key);
    var stamps := Updated(Get(ws, key), p, now);
    forall i | 0 <= i < |rest|
      ensures rest[i].key != key
    {
      assert rest[i] in rest;
    }
  }

  class SlidingWindowRateLimiter {
    var windows: seq<Window>
    const maxKeys: int

    constructor (maxKeys: int)
      ensures this.maxKeys == maxKeys && windows == [] && Valid()
    {
      this.maxKeys := maxKeys;
      windows := [];
    }

    ghost predicate Valid() reads this { Distinct(windows) && |windows| <= Max(0, maxKeys) }

    /** `check`: the verdict the next `consume` would give, without recording anything. */
    method Check(key: string, p: Policy, now: int) returns (r: Limit)
      ensures r == Preview(Get(windows, key), p, now)
    {
      var stamps := Recent(Get(windows, key), now - p.windowMs);
      var used := |stamps|;
      var allowed := used < p.requests;
      r := Limit(allowed, Max(0, p.requests - used - (if allowed then 1 else 0)), ResetAfter(stamps, p, now));
    }

    /** One eviction pass: deletes windows of other keys that satisfy `test`, oldest first, while there are too many. */
    method Pass(key: string, test: Window -> bool)
      requires |windows| <= Max(0, maxKeys) + 1 && (maxKeys < 0 ==> forall w | w in windows :: w.key == key)
      modifies this
      ensures var ws := old(windows);
              var i := FirstOther(ws, key, test);
              windows == if |ws| > maxKeys && i < |ws| then RemoveAt(ws, i) else ws
    {
      ghost var ws := windows;
      var i := 0;
      while i < |windows|
        invariant windows == ws && i <= |ws|
        invariant i == 0 || |ws| > maxKeys
        invariant forall j | 0 <= j < i :: ws[j].key == key || !test(ws[j])
      {
        if |windows| <= maxKeys {
          break;
        }
        if windows[i].key != key && test(windows[i]) {
          assert windows[i] in ws;
          assert FirstOther(ws, key, test) == i;
          windows := windows[..i] + windows[i + 1..];
          assert |windows| <= maxKeys;
          return;
        }
        i := i + 1;
      }
    }

    /** The eviction part of `consume`: two passes, then the least recently used. */
    method Evict(key: string, p: Policy, now: int)
      requires maxKeys < |windows| == Max(0, maxKeys) + 1 && (maxKeys < 0 ==> forall w | w in windows :: w.key == key)
      modifies this
      ensures windows == RemoveAt(old(windows), Victim(old(windows), key, p, now))
    {
      hide FirstOther;
      hide ExpiredBy;
      hide Under;
      ghost var all := windows;
      Pass(key, ExpiredBy(now - p.windowMs));
      Pass(key, Under(p));
      while |windows| > maxKeys
        invariant windows == RemoveAt(all, Victim(all, key, p, now)) || (windows == all && Victim(all, key, p, now) == 0)
        decreases |windows|
      {
        if windows == [] {
          break;
        }
        windows := windows[1..];
      }
    }

    /** `consume`: records the call when it is allowed. */
    method Consume(key: string, p: Policy, now: int) returns (r: Limit)
      requires Valid()
      modifies this
      ensures Valid() && windows == Consumed(old(windows), maxKeys, key, p, now)
      ensures r == Report(Get(old(windows), key), p, now)
    {
      hide Recent;
      hide Get;
      hide Victim;
      var cutoff := now - p.windowMs;
      var stamps := Recent(Get(windows, key), cutoff);
      var allowed := |stamps| < p.requests;
      if allowed {
        stamps := stamps + [now];
      }
      ConsumedBound(windows, maxKeys, key, p, now);
      WithoutFacts(windows, key);
      hide Without;
      if stamps != [] {
        windows := Without(windows, key);
        windows := windows + [Window(key, stamps)];
        if |windows| > maxKeys {
          Evict(key, p, now);
        }
      } else {
        windows := Without(windows, key);
      }
      r := Limit(allowed, Max(0, p.requests - |stamps|), ResetAfter(stamps, p, now));
    }

    /** `reset`. */
    method Reset(key: string)
      requires Valid()
      modifies this
      ensures Valid() && windows == Without(old(windows), key)
    {
      WithoutFacts(windows, key);
      windows := Without(windows, key);
    }

    /** `clear`. */
    method Clear()
      modifies this
      ensures Valid() && windows == []
    {
      windows := [];
    }
  }

  // ---------------------------------------------------------------------------
  // Who is evicted
  // ---------------------------------------------------------------------------

  lemma OthersStay(all: seq<Window>, i: nat, w: Window)
    requires i < |all| && w in all && w != all[i]
    ensures w in RemoveAt(all, i)
  {
    var k :| 0 <= k < |all| && all[k] == w;
    assert RemoveAt(all, i)[if k < i then k else k - 1] == w;
  }

  /** A live window that holds its quota is dropped only when every other tracked key's window is live and
      holds its quota too. */
  lemma EvictedOnlyAmongEquals(ws: seq<Window>, maxKeys: int, key: string, p: Policy, now: int, w: Window)
    requires Distinct(ws) && |ws| <= Max(0, maxKeys) && w in ws && w.key != key
    requires w !in Consumed(ws, maxKeys, key, p, now) && HoldsQuota(w, p, now)
    ensures forall v | v in ws && v.key != key :: HoldsQuota(v, p, now)
  {
    WithoutFacts(ws, key);
    var all := Without(ws, key) + [Window(key, Updated(Get(ws, key), p, now))];
    assert w in Without(ws, key) && w in all;
    if w != all[Victim(all, key, p, now)] {
      OthersStay(all, Victim(all, key, p, now), w);
    }
    forall v | v in ws && v.key != key
      ensures HoldsQuota(v, p, now)
    {
      assert v in Without(ws, key) && v in all;
      var j :| 0 <= j < |all| && all[j] == v;
    }
  }

  /** As many timestamps inside the window ending now as requests are allowed. */
  predicate AtQuota(w: Window, p: Policy, now: int) {
    !Expired(w, now - p.windowMs) && |Recent(w.stamps, now - p.windowMs)| >= p.requests
  }

  /** Stored timestamps fill the quota, but some of them have left the window since the key last called. */
  predicate Straddles(w: Window, p: Policy, now: int) {
    HoldsQuota(w, p, now) && |Recent(w.stamps, now - p.windowMs)| < p.requests
  }

  /** The call drops a key at quota while another key, not the caller's, is not at quota. */
  predicate DropsUnfairly(ws: seq<Window>, maxKeys: int, key: string, p: Policy, now: int) {
    exists w, v | w in ws && v in ws ::
      w.key != key && w !in Consumed(ws, maxKeys, key, p, now) && AtQuota(w, p, now) && v.key != key && !AtQuota(v, p, now)
  }

  /** What the windows look like before such a call. */
  predicate InvitesUnfairness(ws: seq<Window>, maxKeys: int, key: string, p: Policy, now: int) {
    var others := Without(ws, key);
    && Updated(Get(ws, key), p, now) != []
    && |others| + 1 > maxKeys
    && (forall v | v in others :: !Expired(v, now - p.windowMs) && !UnderQuota(v, p))
    && others != [] && AtQuota(others[0], p, now)
    && exists v | v in others :: Straddles(v, p, now)
  }

  /** A call drops a key at quota beside one that is not exactly when it stores a timestamp, there is no room for it,
      every other window is live and stores its quota, the least recently used of them is at quota, and the
      timestamps of some other straddle the start of the window. */
  lemma EvictionUnfairExactly(ws: seq<Window>, maxKeys: int, key: string, p: Policy, now: int)
    requires Distinct(ws) && |ws| <= Max(0, maxKeys)
    ensures DropsUnfairly(ws, maxKeys, key, p, now) <==> InvitesUnfairness(ws, maxKeys, key, p, now)
  {
    hide InvitesUnfairness;
    hide Consumed;
    hide AtQuota;
    if DropsUnfairly(ws, maxKeys, key, p, now) {
      var w, v :| w in ws && v in ws && w.key != key && w !in Consumed(ws, maxKeys, key, p, now)
                  && AtQuota(w, p, now) && v.key != key && !AtQuota(v, p, now);
      UnfairDropInvited(ws, maxKeys, key, p, now, w, v);
    }
    if InvitesUnfairness(ws, maxKeys, key, p, now) {
      InvitedDropsUnfairly(ws, maxKeys, key, p, now);
    }
  }

  lemma UnfairDropInvited(ws: seq<Window>, maxKeys: int, key: string, p: Policy, now: int, w: Window, v: Window)
    requires Distinct(ws) && |ws| <= Max(0, maxKeys) && w in ws && v in ws && w.key != key && v.key != key
    requires w !in Consumed(ws, maxKeys, key, p, now) && AtQuota(w, p, now) && !AtQuota(v, p, now)
    ensures InvitesUnfairness(ws, maxKeys, key, p, now)
  {
    hide Consumed;
    hide Victim;
    hide Without;
    hide Get;
    hide Updated;
    hide Recent;
    WithoutFacts(ws, key);
    EvictedOnlyAmongEquals(ws, maxKeys, key, p, now, w);
    DroppedIsVictim(ws, maxKeys, key, p, now, w);
    OldestIsVictim(ws, key, p, now);
    assert v in Without(ws, key) && Straddles(v, p, now);
  }

  lemma InvitedDropsUnfairly(ws: seq<Window>, maxKeys: int, key: string, p: Policy, now: int)
    requires Distinct(ws) && InvitesUnfairness(ws, maxKeys, key, p, now)
    ensures DropsUnfairly(ws, maxKeys, key, p, now)
  {
    hide Consumed;
    hide Victim;
    hide Without;
    hide Get;
    hide Updated;
    hide Recent;
    WithoutFacts(ws, key);
    var others := Without(ws, key);
    var v :| v in others && Straddles(v, p, now);
    assert others[0] in others;
    OldestIsVictim(ws, key, p, now);
    OldestGoes(ws, maxKeys, key, p, now);
  }

  function WithCaller(ws: seq<Window>, key: string, p: Policy, now: int): seq<Window> {
    Without(ws, key) + [Window(key, Updated(Get(ws, key), p, now))]
  }

  lemma DroppedIsVictim(ws: seq<Window>, maxKeys: int, key: string, p: Policy, now: int, w: Window)
    requires w in ws && w.key != key && w !in Consumed(ws, maxKeys, key, p, now)
    ensures Updated(Get(ws, key), p, now) != [] && |Without(ws, key)| + 1 > maxKeys
    ensures var all := WithCaller(ws, key, p, now); w == all[Victim(all, key, p, now)]
  {
    hide Victim;
    WithoutFacts(ws, key);
    var all := WithCaller(ws, key, p, now);
    assert w in Without(ws, key) && w in all;
    if w != all[Victim(all, key, p, now)] {
      OthersStay(all, Victim(all, key, p, now), w);
    }
  }

  /** When every other window is live and stores its quota, the least recently used one goes. */
  lemma OldestIsVictim(ws: seq<Window>, key: string, p: Policy, now: int)
    requires forall v | v in ws && v.key != key :: HoldsQuota(v, p, now)
    ensures Victim(WithCaller(ws, key, p, now), key, p, now) == 0
  {
    WithoutFacts(ws, key);
    var all := WithCaller(ws, key, p, now);
    forall i | 0 <= i < |all| && all[i].key != key
      ensures HoldsQuota(all[i], p, now)
    {
      assert all[i] in Without(ws, key);
    }
  }

  lemma OldestGoes(ws: seq<Window>, maxKeys: int, key: string, p: Policy, now: int)
    requires Distinct(ws) && Without(ws, key) != [] && |Without(ws, key)| + 1 > maxKeys
    requires Updated(Get(ws, key), p, now) != [] && Victim(WithCaller(ws, key, p, now), key, p, now) == 0
    ensures Without(ws, key)[0] !in Consumed(ws, maxKeys, key, p, now)
  {
    hide Victim;
    hide Updated;
    WithoutFacts(ws, key);
    var others := Without(ws, key);
    assert others[0] in others;
    var all := WithCaller(ws, key, p, now);
    assert RemoveAt(all, 0) == all[1..];
  }

  // ---------------------------------------------------------------------------
  // Exact counting
  // ---------------------------------------------------------------------------

  datatype Call = Hit(key: string, now: int) | Reset(key: string)

  function After(ws: seq<Window>, maxKeys: int, p: Policy, c: Call): seq<Window> {
    if c.Hit? then Consumed(ws, maxKeys, c.key, p, c.now) else Without(ws, c.key)
  }

  /** The windows before the n-th call. */
  function State(maxKeys: int, p: Policy, calls: seq<Call>, n: nat): seq<Window>
    requires n <= |calls|
  {
    if n == 0 then [] else After(State(maxKeys, p, calls, n - 1), maxKeys, p, calls[n - 1])
  }

  lemma CounterexampleReached(a: string, b: string)
    requires a != b
    ensures State(2, Policy(2, 10), [Hit(b, 0), Hit(a, 5), Hit(a, 6), Hit(b, 9)], 4) == [Window(a, [5, 6]), Window(b, [0, 9])]
  {
    var p, calls := Policy(2, 10), [Hit(b, 0), Hit(a, 5), Hit(a, 6), Hit(b, 9)];
    FirstCall(b, p, 0);
    SecondKey(b, [0], a, p, 5);
    AgainLast(Window(b, [0]), a, 5, p, 6);
    AgainFirst(b, 0, Window(a, [5, 6]), p, 9);
    hide Consumed;
    assert State(2, p, calls, 0) == [];
    assert State(2, p, calls, 1) == [Window(b, [0])];
    assert State(2, p, calls, 2) == [Window(b, [0]), Window(a, [5])];
    assert State(2, p, calls, 3) == [Window(b, [0]), Window(a, [5, 6])];
  }

  lemma FirstCall(key: string, p: Policy, now: int)
    requires p.requests > 0
    ensures Consumed([], 2, key, p, now) == [Window(key, [now])]
  {
    assert Updated([], p, now) == [] + [now] == [now];
    assert Without([], key) + [Window(key, [now])] == [Window(key, [now])];
  }

  lemma SecondKey(first: string, ts: seq<int>, key: string, p: Policy, now: int)
    requires p.requests > 0 && first != key
    ensures Consumed([Window(first, ts)], 2, key, p, now) == [Window(first, ts), Window(key, [now])]
  {
    var ws := [Window(first, ts)];
    WithoutNone(ws, key);
    assert Updated([], p, now) == [] + [now] == [now];
    assert ws + [Window(key, [now])] == [Window(first, ts), Window(key, [now])];
  }

  lemma AgainLast(w: Window, key: string, t: int, p: Policy, now: int)
    requires p.requests == 2 && w.key != key && t > now - p.windowMs
    ensures Consumed([w, Window(key, [t])], 2, key, p, now) == [w, Window(key, [t, now])]
  {
    var ws := [w, Window(key, [t])];
    assert ws[1..] == [Window(key, [t])] && ws[1..][1..] == [];
    assert Get(ws[1..], key) == [t] && Get(ws, key) == [t];
    assert Without(ws[1..][1..], key) == [] && Without(ws[1..], key) == [] && Without(ws, key) == [w];
    assert [t][1..] == [] && Recent([t], now - p.windowMs) == [t] && [t] + [now] == [t, now];
  }

  lemma AgainFirst(key: string, t: int, w: Window, p: Policy, now: int)
    requires p.requests == 2 && w.key != key && t > now - p.windowMs
    ensures Consumed([Window(key, [t]), w], 2, key, p, now) == [w, Window(key, [t, now])]
  {
    var ws := [Window(key, [t]), w];
    assert ws[1..] == [w];
    WithoutNone([w], key);
    assert Get(ws, key) == [t] && Without(ws, key) == [w];
    assert [t][1..] == [] && Recent([t], now - p.windowMs) == [t] && [t] + [now] == [t, now];
  }

  lemma ThirdKeyDropsFirst(a: string, b: string, c: string)
    requires a != b && b != c && a != c
    ensures var p, wa, wb := Policy(2, 10), Window(a, [5, 6]), Window(b, [0, 9]);
            && AtQuota(wa, p, 11) && !AtQuota(wb, p, 11)
            && Consumed([wa, wb], 2, c, p, 11) == [wb, Window(c, [11])]
  {
    var p, wa, wb := Policy(2, 10), Window(a, [5, 6]), Window(b, [0, 9]);
    assert [5, 6][1..] == [6] && [0, 9][1..] == [9] && [6][1..] == [] && [9][1..] == [];
    assert Recent([6], 1) == [6] && Recent([9], 1) == [9];
    assert Recent([5, 6], 1) == [5, 6] && Recent([0, 9], 1) == [9];
    var ws := [wa, wb];
    assert ws[1..] == [wb] && [wb][1..] == [];
    WithoutNone(ws, c);
    hide Without;
    hide Get;
    var all := ws + [Window(c, [11])];
    assert all == [wa, wb, Window(c, [11])];
    assert Updated([], p, 11) == [11];
    assert RemoveAt(all, 0) == [wb, Window(c, [11])];
  }

  /** It happens: with two requests per 10 ms and room for two keys, calls by `b` at 0, `a` at 5 and 6, and `b` at 9
      leave `a` (5, 6) and `b` (0, 9). At time 11 `a` is at quota and `b` is not, and a call by `c` drops `a`. */
  lemma EvictionCounterexample(a: string, b: string, c: string)
    requires a != b && b != c && a != c
    ensures var p, wa, wb := Policy(2, 10), Window(a, [5, 6]), Window(b, [0, 9]);
            && State(2, p, [Hit(b, 0), Hit(a, 5), Hit(a, 6), Hit(b, 9)], 4) == [wa, wb]
            && DropsUnfairly([wa, wb], 2, c, p, 11)
            && Consumed([wa, wb], 2, c, p, 11) == [wb, Window(c, [11])]
  {
    hide State;
    hide Consumed;
    hide AtQuota;
    CounterexampleReached(a, b);
    ThirdKeyDropsFirst(a, b, c);
    var wa, wb := Window(a, [5, 6]), Window(b, [0, 9]);
    assert wa in [wa, wb] && wb in [wa, wb] && wa !in [wb, Window(c, [11])];
  }

  predicate AllowedAt(maxKeys: int, p: Policy, calls: seq<Call>, n: nat)
    requires n < |calls|
  {
    calls[n].Hit? && Report(Get(State(maxKeys, p, calls, n), calls[n].key), p, calls[n].now).allowed
  }

  /** The times of the allowed calls of a key among the first `n`. */
  function AllowedTimes(maxKeys: int, p: Policy, calls: seq<Call>, n: nat, key: string): seq<int>
    requires n <= |calls|
  {
    if n == 0 then []
    else
      AllowedTimes(maxKeys, p, calls, n - 1, key)
      + (if calls[n - 1].key == key && AllowedAt(maxKeys, p, calls, n - 1) then [calls[n - 1].now] else [])
  }

  /** No call forgets what was stored for the key: it is neither evicted nor reset. */
  predicate NeverForgotten(maxKeys: int, p: Policy, calls: seq<Call>, key: string) {
    forall i | 0 <= i < |calls| ::
      Get(State(maxKeys, p, calls, i + 1), key)
      == if calls[i].Hit? && calls[i].key == key then Updated(Get(State(maxKeys, p, calls, i), key), p, calls[i].now)
         else Get(State(maxKeys, p, calls, i), key)
  }

  /** The clock does not go back. */
  predicate Forward(calls: seq<Call>) {
    forall i, j | 0 <= i < j < |calls| && calls[i].Hit? && calls[j].Hit? :: calls[i].now <= calls[j].now
  }

  lemma {:induction false} RecentTwice(ts: seq<int>, early: int, late: int)
    requires early <= late
    ensures Recent(Recent(ts, early), late) == Recent(ts, late)
  {
    if ts != [] {
      RecentTwice(ts[1..], early, late);
      var rest := Recent(ts[1..], early);
      assert ([ts[0]] + rest)[1..] == rest;
    }
  }

  lemma {:induction false} RecentAppend(ts: seq<int>, t: int, cutoff: int)
    ensures Recent(ts + [t], cutoff) == Recent(ts, cutoff) + if t > cutoff then [t] else []
  {
    if ts != [] {
      assert (ts + [t])[1..] == ts[1..] + [t];
      RecentAppend(ts[1..], t, cutoff);
    }
  }

  /** From any cutoff no earlier than those used so far, the stored timestamps are the allowed ones. */
  lemma {:induction false} StoredAreAllowed(maxKeys: int, p: Policy, calls: seq<Call>, n: nat, key: string, cutoff: int)
    requires NeverForgotten(maxKeys, p, calls, key) && n <= |calls|
    requires forall i | 0 <= i < n && calls[i].Hit? :: calls[i].now - p.windowMs <= cutoff
    ensures Recent(Get(State(maxKeys, p, calls, n), key), cutoff) == Recent(AllowedTimes(maxKeys, p, calls, n, key), cutoff)
    decreases n
  {
    hide Recent;
    hide State;
    hide Get;
    hide Updated;
    hide Report;
    hide AllowedTimes;
    hide NeverForgotten;
    if n == 0 {
      NothingStored(maxKeys, p, calls, key);
    } else {
      StoredAreAllowed(maxKeys, p, calls, n - 1, key, cutoff);
      var c := calls[n - 1];
      var stored, times := Get(State(maxKeys, p, calls, n - 1), key), AllowedTimes(maxKeys, p, calls, n - 1, key);
      OneCall(maxKeys, p, calls, n - 1, key);
      if c.Hit? && c.key == key {
        UpdatedRecent(stored, p, c.now, cutoff);
        RecentAppend(times, c.now, cutoff);
      }
      assert times + [] == times;
      assert Recent(stored, cutoff) + [] == Recent(stored, cutoff);
    }
  }

  lemma NothingStored(maxKeys: int, p: Policy, calls: seq<Call>, key: string)
    ensures Get(State(maxKeys, p, calls, 0), key) == AllowedTimes(maxKeys, p, calls, 0, key) == []
  {
  }

  /** What one call does to the stored timestamps of a key that is not forgotten, and to its allowed times. */
  lemma OneCall(maxKeys: int, p: Policy, calls: seq<Call>, n: nat, key: string)
    requires NeverForgotten(maxKeys, p, calls, key) && n < |calls|
    ensures var c, stored := calls[n], Get(State(maxKeys, p, calls, n), key);
            var counts := c.Hit? && c.key == key;
            && Get(State(maxKeys, p, calls, n + 1), key) == (if counts then Updated(stored, p, c.now) else stored)
            && AllowedTimes(maxKeys, p, calls, n + 1, key)
               == AllowedTimes(maxKeys, p, calls, n, key) + if counts && Report(stored, p, c.now).allowed then [c.now] else []
  {
    hide State;
    hide Get;
    hide Updated;
    hide Report;
  }

  lemma UpdatedRecent(ts: seq<int>, p: Policy, now: int, cutoff: int)
    requires now - p.windowMs <= cutoff
    ensures Recent(Updated(ts, p, now), cutoff) == Recent(ts, cutoff) + if Report(ts, p, now).allowed && now > cutoff then [now] else []
  {
    RecentTwice(ts, now - p.windowMs, cutoff);
    RecentAppend(Recent(ts, now - p.windowMs), now, cutoff);
  }

  lemma {:induction false} TimesAreCalls(maxKeys: int, p: Policy, calls: seq<Call>, n: nat, key: string, t: int)
    requires n <= |calls| && t in AllowedTimes(maxKeys, p, calls, n, key)
    ensures exists i | 0 <= i < n :: calls[i] == Hit(key, t)
    decreases n
  {
    if t in AllowedTimes(maxKeys, p, calls, n - 1, key) {
      TimesAreCalls(maxKeys, p, calls, n - 1, key, t);
    } else {
      assert calls[n - 1] == Hit(key, t);
    }
  }

  /** A call is allowed exactly when fewer than `requests` of the key's earlier allowed calls lie in
      (now - windowMs, now], and reports what they and itself leave of the quota; a `check` just before it says the
      same. */
  lemma CountsExactly(maxKeys: int, p: Policy, calls: seq<Call>, n: nat)
    requires n < |calls| && calls[n].Hit? && Forward(calls) && NeverForgotten(maxKeys, p, calls, calls[n].key)
    ensures var key, now := calls[n].key, calls[n].now;
            var stored, times := Get(State(maxKeys, p, calls, n), key), AllowedTimes(maxKeys, p, calls, n, key);
            var used := |Recent(times, now - p.windowMs)|;
            var remaining := Max(0, if used < p.requests then p.requests - used - 1 else p.requests - used);
            && (AllowedAt(maxKeys, p, calls, n) <==> used < p.requests)
            && Report(stored, p, now).remaining == remaining
            && Preview(stored, p, now).allowed == AllowedAt(maxKeys, p, calls, n) && Preview(stored, p, now).remaining == remaining
            && forall t | t in times :: t <= now
  {
    hide State;
    hide Recent;
    hide Get;
    hide AllowedTimes;
    hide NeverForgotten;
    CheckPredicts(Get(State(maxKeys, p, calls, n), calls[n].key), p, calls[n].now);
    StoredAreAllowed(maxKeys, p, calls, n, calls[n].key, calls[n].now - p.windowMs);
    TimesNotAhead(maxKeys, p, calls, n, calls[n].key);
  }

  lemma TimesNotAhead(maxKeys: int, p: Policy, calls: seq<Call>, n: nat, key: string)
    requires n < |calls| && calls[n].Hit? && Forward(calls)
    ensures forall t | t in AllowedTimes(maxKeys, p, calls, n, key) :: t <= calls[n].now
  {
    hide AllowedTimes;
    forall t | t in AllowedTimes(maxKeys, p, calls, n, key)
      ensures t <= calls[n].now
    {
      TimesAreCalls(maxKeys, p, calls, n, key, t);
    }
  }
}
