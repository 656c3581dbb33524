/** What the rate limiter (src/rateLimiter.ts) answers, said of the calls it allowed before. */
module RateHistory {
  import opened RateLimiter

  // ---------------------------------------------------------------------------
  // Counting
  // ---------------------------------------------------------------------------

  /** An allowed call of the key that is younger than `since`. */
  ghost predicate Counts(maxKeys: int, p: Policy, calls: seq<Call>, i: nat, key: string, since: int)
    requires i < |calls|
  {
    calls[i].key == key && AllowedAt(maxKeys, p, calls, i) && calls[i].now > since
  }

  /** Those among the first `n`, by position in the run. */
  ghost function Counted(maxKeys: int, p: Policy, calls: seq<Call>, n: nat, key: string, since: int): (counted: set<nat>)
    requires n <= |calls|
    ensures forall i | i in counted :: i < n && calls[i].Hit?
  {
    set i: nat | i < n && Counts(maxKeys, p, calls, i, key, since)
  }

  lemma CountedStep(maxKeys: int, p: Policy, calls: seq<Call>, n: nat, key: string, since: int)
    requires n < |calls|
    ensures |Counted(maxKeys, p, calls, n + 1, key, since)|
            == |Counted(maxKeys, p, calls, n, key, since)| + if Counts(maxKeys, p, calls, n, key, since) then 1 else 0
  {
    hide Counts;
    var before, after := Counted(maxKeys, p, calls, n, key, since), Counted(maxKeys, p, calls, n + 1, key, since);
    assert after == if Counts(maxKeys, p, calls, n, key, since) then before + {n} else before;
  }

  lemma RecentStep(maxKeys: int, p: Policy, calls: seq<Call>, n: nat, key: string, since: int)
    requires n < |calls|
    ensures |Recent(AllowedTimes(maxKeys, p, calls, n + 1, key), since)|
            == |Recent(AllowedTimes(maxKeys, p, calls, n, key), since)| + if Counts(maxKeys, p, calls, n, key, since) then 1 else 0
  {
    hide Recent;
    hide State;
    hide Report;
    var times := AllowedTimes(maxKeys, p, calls, n, key);
    if calls[n].key == key && AllowedAt(maxKeys, p, calls, n) {
      RecentAppend(times, calls[n].now, since);
    } else {
      assert times + [] == times;
    }
  }

  lemma {:induction false} RecentIsCounted(maxKeys: int, p: Policy, calls: seq<Call>, n: nat, key: string, since: int)
    requires n <= |calls|
    ensures |Recent(AllowedTimes(maxKeys, p, calls, n, key), since)| == |Counted(maxKeys, p, calls, n, key, since)|
    decreases n
  {
    hide Counts;
    hide State;
    hide Recent;
    hide AllowedTimes;
    hide Counted;
    if n == 0 {
      NothingCounted(maxKeys, p, calls, key, since);
    } else {
      RecentIsCounted(maxKeys, p, calls, n - 1, key, since);
      CountedStep(maxKeys, p, calls, n - 1, key, since);
      RecentStep(maxKeys, p, calls, n - 1, key, since);
    }
  }

  lemma NothingCounted(maxKeys: int, p: Policy, calls: seq<Call>, key: string, since: int)
    ensures Recent(AllowedTimes(maxKeys, p, calls, 0, key), since) == [] && Counted(maxKeys, p, calls, 0, key, since) == {}
  {
  }

  /** A call is allowed exactly when fewer than `requests` earlier calls of the key were allowed after `now - windowMs`;
      it is told how many of the quota they and it leave, and a `check` in its place says the same. */
  lemma AllowedExactly(maxKeys: int, p: Policy, calls: seq<Call>, n: nat)
    requires n < |calls| && calls[n].Hit? && Forward(calls) && NeverForgotten(maxKeys, p, calls, calls[n].key)
    ensures var key, now := calls[n].key, calls[n].now;
            var used, stored := |Counted(maxKeys, p, calls, n, key, now - p.windowMs)|, Get(State(maxKeys, p, calls, n), key);
            && (AllowedAt(maxKeys, p, calls, n) <==> used < p.requests)
            && Report(stored, p, now).allowed == Preview(stored, p, now).allowed == (used < p.requests)
            && Report(stored, p, now).remaining == Preview(stored, p, now).remaining
               == (if used < p.requests then p.requests - used - 1 else 0)
  {
    hide State;
    hide Recent;
    hide Get;
    hide AllowedTimes;
    hide NeverForgotten;
    hide Counted;
    CountsExactly(maxKeys, p, calls, n);
    RecentIsCounted(maxKeys, p, calls, n, calls[n].key, calls[n].now - p.windowMs);
  }

  // ---------------------------------------------------------------------------
  // When to come back
  // ---------------------------------------------------------------------------

  predicate Sorted(ts: seq<int>) { forall i, j | 0 <= i < j < |ts| :: ts[i] <= ts[j] }

  /** Of sorted times, the recent ones are the last ones. */
  lemma {:induction false} RecentIsSuffix(ts: seq<int>, cutoff: int) returns (k: nat)
    requires Sorted(ts)
    ensures k <= |ts| && Recent(ts, cutoff) == ts[k..]
    ensures forall i | 0 <= i < |ts| :: ts[i] > cutoff <==> k <= i
  {
    if ts == [] {
      k := 0;
    } else if ts[0] > cutoff {
      k := RecentIsSuffix(ts[1..], cutoff);
      assert forall i | 0 <= i < |ts[1..]| :: ts[1..][i] > cutoff by {
        forall i | 0 <= i < |ts[1..]|
          ensures ts[1..][i] > cutoff
        {
          assert ts[1..][i] == ts[i + 1];
        }
      }
      assert k == 0;
      assert [ts[0]] + ts[1..] == ts;
    } else {
      var j := RecentIsSuffix(ts[1..], cutoff);
      k := j + 1;
      assert ts[1..][j..] == ts[k..];
      assert forall i | 1 <= i < |ts| :: ts[i] == ts[1..][i - 1];
    }
  }

  lemma {:induction false} TimesSorted(maxKeys: int, p: Policy, calls: seq<Call>, n: nat, key: string)
    requires n <= |calls| && Forward(calls)
    ensures Sorted(AllowedTimes(maxKeys, p, calls, n, key))
    decreases n
  {
    hide AllowedAt;
    hide Forward;
    if n > 0 {
      TimesSorted(maxKeys, p, calls, n - 1, key);
      if calls[n - 1].key == key && AllowedAt(maxKeys, p, calls, n - 1) {
        AllowedIsHit(maxKeys, p, calls, n - 1);
        TimesNotAhead(maxKeys, p, calls, n - 1, key);
        var times := AllowedTimes(maxKeys, p, calls, n - 1, key);
        assert forall i | 0 <= i < |times| :: times[i] in times;
      }
    }
  }

  lemma AllowedIsHit(maxKeys: int, p: Policy, calls: seq<Call>, n: nat)
    requires n < |calls| && AllowedAt(maxKeys, p, calls, n)
    ensures calls[n].Hit?
  {
  }

  /** A key never has more times stored than requests are allowed. */
  lemma {:induction false} StoredWithinQuota(maxKeys: int, p: Policy, calls: seq<Call>, n: nat, key: string)
    requires NeverForgotten(maxKeys, p, calls, key) && n <= |calls| && p.requests >= 0
    ensures |Get(State(maxKeys, p, calls, n), key)| <= p.requests
    decreases n
  {
    hide NeverForgotten;
    hide Recent;
    hide State;
    hide Get;
    hide AllowedTimes;
    if n == 0 {
      NothingStored(maxKeys, p, calls, key);
    } else {
      StoredWithinQuota(maxKeys, p, calls, n - 1, key);
      OneCall(maxKeys, p, calls, n - 1, key);
    }
  }

  /** No call of the key is allowed from `n` up to `m`. */
  predicate NoneAllowed(maxKeys: int, p: Policy, calls: seq<Call>, n: nat, m: nat, key: string)
    requires n <= m <= |calls|
  {
    forall i | n <= i < m && calls[i].key == key :: !AllowedAt(maxKeys, p, calls, i)
  }

  lemma {:induction false} SameTimes(maxKeys: int, p: Policy, calls: seq<Call>, n: nat, m: nat, key: string)
    requires n <= m <= |calls| && NoneAllowed(maxKeys, p, calls, n, m, key)
    ensures AllowedTimes(maxKeys, p, calls, m, key) == AllowedTimes(maxKeys, p, calls, n, key)
    decreases m
  {
    hide AllowedAt;
    if n < m {
      SameTimes(maxKeys, p, calls, n, m - 1, key);
    }
  }

  /** A refused caller is told exactly how long to wait: until `resetMs` has passed the key stays refused, and the first
      call after that is allowed. */
  lemma ResetExactly(maxKeys: int, p: Policy, calls: seq<Call>, n: nat, m: nat)
    requires n < m < |calls| && calls[n].Hit? && calls[m].Hit? && calls[m].key == calls[n].key && p.requests >= 1
    requires Forward(calls) && NeverForgotten(maxKeys, p, calls, calls[n].key)
    requires NoneAllowed(maxKeys, p, calls, n, m, calls[n].key)
    ensures var r := Report(Get(State(maxKeys, p, calls, n), calls[n].key), p, calls[n].now);
            && r.resetMs > 0
            && (AllowedAt(maxKeys, p, calls, m) <==> calls[m].now >= calls[n].now + r.resetMs)
  {
    hide State;
    hide Get;
    hide Recent;
    hide AllowedTimes;
    var key, now, later := calls[n].key, calls[n].now, calls[m].now;
    var stored, times := Get(State(maxKeys, p, calls, n), key), AllowedTimes(maxKeys, p, calls, n, key);
    assert now <= later;
    assert !AllowedAt(maxKeys, p, calls, n);
    CountsExactly(maxKeys, p, calls, m);
    hide NeverForgotten;
    SameTimes(maxKeys, p, calls, n, m, key);
    StoredAre(maxKeys, p, calls, n);
    StoredWithinQuota(maxKeys, p, calls, n, key);
    TimesSorted(maxKeys, p, calls, n, key);
    Waits(times, p, now, later);
  }

  lemma StoredAre(maxKeys: int, p: Policy, calls: seq<Call>, n: nat)
    requires n < |calls| && calls[n].Hit? && Forward(calls) && NeverForgotten(maxKeys, p, calls, calls[n].key)
    ensures var key, cutoff := calls[n].key, calls[n].now - p.windowMs;
            Recent(Get(State(maxKeys, p, calls, n), key), cutoff) == Recent(AllowedTimes(maxKeys, p, calls, n, key), cutoff)
  {
    hide State;
    hide Get;
    hide Recent;
    hide AllowedTimes;
    hide NeverForgotten;
    StoredAreAllowed(maxKeys, p, calls, n, calls[n].key, calls[n].now - p.windowMs);
  }

  /** Full now, the window has room again once its oldest time has left it. */
  lemma Waits(times: seq<int>, p: Policy, now: int, later: int)
    requires Sorted(times) && now <= later && p.requests >= 1 && |Recent(times, now - p.windowMs)| == p.requests
    ensures var r := ResetAfter(Recent(times, now - p.windowMs), p, now);
            r > 0 && (|Recent(times, later - p.windowMs)| < p.requests <==> later >= now + r)
  {
    var j := RecentIsSuffix(times, now - p.windowMs);
    var k := RecentIsSuffix(times, later - p.windowMs);
    assert |times| - j == p.requests;
    assert times[j..][0] == times[j];
  }

  lemma RecentGrows(maxKeys: int, p: Policy, calls: seq<Call>, n: nat, key: string, since: int)
    requires n < |calls|
    ensures Recent(AllowedTimes(maxKeys, p, calls, n + 1, key), since)
            == Recent(AllowedTimes(maxKeys, p, calls, n, key), since) + if Counts(maxKeys, p, calls, n, key, since) then [calls[n].now] else []
  {
    hide Recent;
    hide State;
    hide Report;
    var times := AllowedTimes(maxKeys, p, calls, n, key);
    if calls[n].key == key && AllowedAt(maxKeys, p, calls, n) {
      RecentAppend(times, calls[n].now, since);
    } else {
      assert times + [] == times;
    }
  }

  /** The recent times are those of the counted calls. */
  lemma {:induction false} RecentMembers(maxKeys: int, p: Policy, calls: seq<Call>, n: nat, key: string, since: int, t: int)
    requires n <= |calls|
    ensures t in Recent(AllowedTimes(maxKeys, p, calls, n, key), since) <==>
              exists i :: i in Counted(maxKeys, p, calls, n, key, since) && calls[i].now == t
    decreases n
  {
    hide Counts;
    hide State;
    hide Recent;
    hide AllowedTimes;
    if n == 0 {
      NothingCounted(maxKeys, p, calls, key, since);
    } else {
      RecentMembers(maxKeys, p, calls, n - 1, key, since, t);
      RecentGrows(maxKeys, p, calls, n - 1, key, since);
      var before, after := Counted(maxKeys, p, calls, n - 1, key, since), Counted(maxKeys, p, calls, n, key, since);
      assert after == if Counts(maxKeys, p, calls, n - 1, key, since) then before + {n - 1} else before;
    }
  }

  /** The reset time of a call, allowed or not, is when the oldest call then counted leaves the window. */
  lemma ResetIsOldest(maxKeys: int, p: Policy, calls: seq<Call>, n: nat)
    requires n < |calls| && calls[n].Hit? && p.requests >= 1 && p.windowMs > 0
    requires Forward(calls) && NeverForgotten(maxKeys, p, calls, calls[n].key)
    ensures var key, now := calls[n].key, calls[n].now;
            var counted, r := Counted(maxKeys, p, calls, n + 1, key, now - p.windowMs), Report(Get(State(maxKeys, p, calls, n), key), p, now);
            && (exists i :: i in counted && now + r.resetMs == calls[i].now + p.windowMs)
            && forall i | i in counted :: now + r.resetMs <= calls[i].now + p.windowMs
  {
    hide State;
    hide Get;
    hide Recent;
    hide AllowedTimes;
    hide Counted;
    var key, now := calls[n].key, calls[n].now;
    var since, stored := now - p.windowMs, Get(State(maxKeys, p, calls, n), key);
    var times := AllowedTimes(maxKeys, p, calls, n + 1, key);
    StoredAre(maxKeys, p, calls, n);
    hide NeverForgotten;
    RecentGrows(maxKeys, p, calls, n, key, since);
    var recent := Recent(times, since);
    assert recent == Updated(stored, p, now);
    TimesSorted(maxKeys, p, calls, n + 1, key);
    var k := RecentIsSuffix(times, since);
    assert recent != [] && recent[0] in recent && recent[0] == times[k];
    RecentMembers(maxKeys, p, calls, n + 1, key, since, recent[0]);
    forall i | i in Counted(maxKeys, p, calls, n + 1, key, since)
      ensures recent[0] <= calls[i].now
    {
      RecentMembers(maxKeys, p, calls, n + 1, key, since, calls[i].now);
      assert calls[i].now in recent;
    }
  }

  // ---------------------------------------------------------------------------
  // Who goes first
  // ---------------------------------------------------------------------------

  /** Of sorted times, all have left the window exactly when the last has. */
  lemma ExpiredExactly(w: Window, cutoff: int)
    requires Sorted(w.stamps)
    ensures Expired(w, cutoff) <==> forall i | 0 <= i < |w.stamps| :: w.stamps[i] <= cutoff
    ensures Expired(w, cutoff) <==> Recent(w.stamps, cutoff) == []
  {
    var k := RecentIsSuffix(w.stamps, cutoff);
  }

  /** Nothing recent, room left in the quota, or neither. */
  function Class(w: Window, p: Policy, now: int): nat {
    if w.stamps == [] || w.stamps[|w.stamps| - 1] <= now - p.windowMs then 0 else if |w.stamps| < p.requests then 1 else 2
  }

  /** The first window of the lowest class there is. */
  predicate FirstOfLowest(ws: seq<Window>, p: Policy, now: int, i: nat) {
    && i < |ws|
    && (forall j | 0 <= j < |ws| :: Class(ws[i], p, now) <= Class(ws[j], p, now))
    && (forall j | 0 <= j < i :: Class(ws[i], p, now) < Class(ws[j], p, now))
  }

  /** When there are too many windows, the least recently used of the lowest class goes; the caller's never does. */
  lemma DroppedExactly(ws: seq<Window>, maxKeys: int, key: string, p: Policy, now: int, i: nat)
    requires FirstOfLowest(Without(ws, key), p, now, i) && maxKeys <= |Without(ws, key)| && Updated(Get(ws, key), p, now) != []
    ensures Consumed(ws, maxKeys, key, p, now) == RemoveAt(Without(ws, key), i) + [Window(key, Updated(Get(ws, key), p, now))]
  {
    WithoutFacts(ws, key);
    hide Without;
    hide Get;
    hide Updated;
    hide Victim;
    var others, last := Without(ws, key), Window(key, Updated(Get(ws, key), p, now));
    var all := others + [last];
    forall j | 0 <= j < |others|
      ensures all[j] == others[j] && all[j].key != key
    {
      assert others[j] in others;
    }
    VictimIsLeast(all, key, p, now);
    hide Class;
    assert Victim(all, key, p, now) == i;
    assert RemoveAt(all, i) == RemoveAt(others, i) + [last];
  }

  lemma VictimIsOther(all: seq<Window>, key: string, p: Policy, now: int)
    requires |all| >= 2 && all[0].key != key && all[|all| - 1].key == key
    ensures Victim(all, key, p, now) < |all| - 1
  {
  }

  lemma VictimIsLeast(all: seq<Window>, key: string, p: Policy, now: int)
    requires |all| >= 2 && all[|all| - 1].key == key && forall j | 0 <= j < |all| - 1 :: all[j].key != key
    ensures var v := Victim(all, key, p, now);
            && v < |all| - 1
            && (forall j | 0 <= j < |all| - 1 :: Class(all[v], p, now) <= Class(all[j], p, now))
            && (forall j | 0 <= j < v :: Class(all[v], p, now) < Class(all[j], p, now))
  {
    VictimIsOther(all, key, p, now);
  }

  // ---------------------------------------------------------------------------
  // Runs that forget nothing
  // ---------------------------------------------------------------------------

  function KeysOf(calls: seq<Call>): set<string> { set i | 0 <= i < |calls| :: calls[i].key }

  lemma {:induction false} KeysTracked(maxKeys: int, p: Policy, calls: seq<Call>, n: nat)
    requires n <= |calls| && maxKeys >= 0
    ensures Distinct(State(maxKeys, p, calls, n)) && |State(maxKeys, p, calls, n)| <= maxKeys
    ensures forall w | w in State(maxKeys, p, calls, n) :: w.key in KeysOf(calls)
    decreases n
  {
    hide Consumed;
    if n > 0 {
      KeysTracked(maxKeys, p, calls, n - 1);
      var ws, c := State(maxKeys, p, calls, n - 1), calls[n - 1];
      assert c.key in KeysOf(calls);
      if c.Hit? {
        ConsumedBound(ws, maxKeys, c.key, p, c.now);
        KeysAfter(ws, maxKeys, c.key, p, c.now);
      } else {
        WithoutFacts(ws, c.key);
      }
    }
  }

  lemma KeysAfter(ws: seq<Window>, maxKeys: int, key: string, p: Policy, now: int)
    ensures forall w | w in Consumed(ws, maxKeys, key, p, now) :: w.key == key || w in ws
  {
    hide Updated;
    hide Get;
    hide Victim;
    WithoutFacts(ws, key);
  }

  lemma {:induction false} GetWithout(ws: seq<Window>, key: string, other: string)
    ensures Get(Without(ws, key), other) == if other == key then [] else Get(ws, other)
  {
    if ws != [] {
      GetWithout(ws[1..], key, other);
      var rest := Without(ws[1..], key);
      assert ([ws[0]] + rest)[1..] == rest && [] + rest == rest;
    }
  }

  lemma {:induction false} GetAppend(ws: seq<Window>, w: Window, other: string)
    ensures Get(ws + [w], other) == if (exists v | v in ws :: v.key == other) then Get(ws, other) else if w.key == other then w.stamps else []
  {
    if ws != [] {
      GetAppend(ws[1..], w, other);
      assert (ws + [w])[1..] == ws[1..] + [w] && ws == [ws[0]] + ws[1..];
    } else {
      assert ([] + [w])[0] == w && ([] + [w])[1..] == [];
    }
  }

  /** With room for the caller, a call changes what is stored for the caller only. */
  lemma ConsumedGet(ws: seq<Window>, maxKeys: int, key: string, p: Policy, now: int, other: string)
    requires |Without(ws, key)| < maxKeys
    ensures Get(Consumed(ws, maxKeys, key, p, now), other) == if other == key then Updated(Get(ws, key), p, now) else Get(ws, other)
  {
    hide Updated;
    hide Without;
    hide Victim;
    GetWithout(ws, key, other);
    GetWithout(ws, key, key);
    WithoutFacts(ws, key);
    GetAppend(Without(ws, key), Window(key, Updated(Get(ws, key), p, now)), other);
    GetMissing(Without(ws, key), other);
    hide Get;
  }

  lemma {:induction false} GetMissing(ws: seq<Window>, other: string)
    ensures (forall v | v in ws :: v.key != other) ==> Get(ws, other) == []
  {
    if ws != [] {
      GetMissing(ws[1..], other);
    }
  }

  lemma {:induction false} DistinctFewer(ws: seq<Window>, keys: set<string>)
    requires Distinct(ws) && forall w | w in ws :: w.key in keys
    ensures |ws| <= |keys|
  {
    if ws != [] {
      var k := ws[0].key;
      forall w | w in ws[1..]
        ensures w.key in keys - {k}
      {
        var i :| 0 <= i < |ws[1..]| && ws[1..][i] == w;
        assert ws[i + 1] == w;
      }
      assert ws[0] in ws;
      DistinctFewer(ws[1..], keys - {k});
    }
  }

  /** Where no more than `maxKeys` keys ever call and a key is not reset, nothing about it is forgotten. */
  lemma NothingForgotten(maxKeys: int, p: Policy, calls: seq<Call>, key: string)
    requires |KeysOf(calls)| <= maxKeys && forall i | 0 <= i < |calls| :: calls[i] != Reset(key)
    ensures NeverForgotten(maxKeys, p, calls, key)
  {
    hide Consumed;
    hide Updated;
    hide Get;
    hide Without;
    forall i | 0 <= i < |calls|
      ensures Get(State(maxKeys, p, calls, i + 1), key)
              == if calls[i].Hit? && calls[i].key == key then Updated(Get(State(maxKeys, p, calls, i), key), p, calls[i].now)
                 else Get(State(maxKeys, p, calls, i), key)
    {
      var ws, c := State(maxKeys, p, calls, i), calls[i];
      KeysTracked(maxKeys, p, calls, i);
      GetWithout(ws, c.key, key);
      assert c.key in KeysOf(calls);
      if c.Hit? {
        RoomForCaller(ws, KeysOf(calls), c.key);
        ConsumedGet(ws, maxKeys, c.key, p, c.now, key);
      }
    }
  }

  lemma RoomForCaller(ws: seq<Window>, keys: set<string>, key: string)
    requires Distinct(ws) && key in keys && forall w | w in ws :: w.key in keys
    ensures |Without(ws, key)| < |keys|
  {
    WithoutFacts(ws, key);
    hide Without;
    DistinctFewer(Without(ws, key), keys - {key});
  }
}
