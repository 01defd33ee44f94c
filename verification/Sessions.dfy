/** The expiry queue with its two indexes, and the session tables around it. */
module Sessions {
  import opened Base
  import opened Store

  /** `i64` division: it truncates towards zero. */
  function TruncDiv(a: int, b: int): int
    requires b > 0
  {
    if a >= 0 then a / b else -((-a) / b)
  }

  /** The deadline bucket of a session touched so that it should expire at `t`. */
  function Bucket(t: int, interval: int): int
    requires interval > 0
  {
    TruncDiv(t + interval - 1, interval) * interval
  }

  /** Deadlines are multiples of the interval. A session is listed neither early nor later than one
      interval after `t` exactly when the rounded sum is not negative, or `t - 1` is itself a
      multiple; truncation towards zero lists every other session late. */
  lemma BucketWindow(t: int, interval: int)
    requires interval > 0
    ensures Bucket(t, interval) % interval == 0
    ensures t <= Bucket(t, interval) < t + interval <==> t + interval - 1 >= 0 || (t - 1) % interval == 0
  {
    var n := t + interval - 1;
    var q := TruncDiv(n, interval);
    assert q * interval == interval * q;
    MultipleMod(q, interval);
    if n < 0 {
      var m := -n;
      assert m == interval * (m / interval) + m % interval;
      assert q * interval == -(m / interval * interval);
      assert Bucket(t, interval) == n + m % interval;
      NegatedMod(m, interval);
      assert t - 1 == n + -1 * interval;
      ShiftedMod(n, interval);
    } else {
      assert n == interval * (n / interval) + n % interval;
    }
  }

  lemma MultipleMod(q: int, d: int)
    requires d > 0
    ensures q * d % d == 0
  {
    var r, k := q * d % d, q - q * d / d;
    assert q * d == d * (q * d / d) + r;
    assert r == d * k;
    assert k >= 1 ==> d * k >= d;
    assert k <= -1 ==> d * k <= -d;
  }

  lemma NegatedMod(m: int, d: int)
    requires d > 0
    ensures m % d == 0 <==> (-m) % d == 0
  {
    if m % d == 0 {
      assert -m == -(m / d) * d;
      MultipleMod(-(m / d), d);
    }
    if (-m) % d == 0 {
      assert m == -((-m) / d) * d;
      MultipleMod(-((-m) / d), d);
    }
  }

  lemma ShiftedMod(n: int, d: int)
    requires d > 0
    ensures (n - d) % d == 0 <==> n % d == 0
  {
    if n % d == 0 {
      assert n - d == (n / d - 1) * d;
      MultipleMod(n / d - 1, d);
    }
    if (n - d) % d == 0 {
      assert n == ((n - d) / d + 1) * d;
      MultipleMod((n - d) / d + 1, d);
    }
  }

  lemma LeastKey(keys: set<int>) returns (k: int)
    requires keys != {}
    ensures k in keys && forall j :: j in keys ==> k <= j
  {
    Inhabited(keys);
    var first :| first in keys;
    k := first;
    if keys != {first} {
      var rest := LeastKey(keys - {first});
      if rest < first { k := rest; }
    }
    forall j | j in keys ensures k <= j { assert j == first || j in keys - {first}; }
  }

  class SessionExpiryQueue {
    var sessionToExpiry: map<int, int>
    var expiryToSessions: map<int, set<int>>
    const intervalMs: int

    /** The two maps are inverse to each other and no bucket is empty. */
    ghost predicate Valid()
      reads this
    {
      && intervalMs > 0
      && (forall id :: id in sessionToExpiry ==>
            sessionToExpiry[id] in expiryToSessions && id in expiryToSessions[sessionToExpiry[id]])
      && (forall k, id :: k in expiryToSessions && id in expiryToSessions[k] ==>
            id in sessionToExpiry && sessionToExpiry[id] == k)
      && (forall k :: k in expiryToSessions ==> expiryToSessions[k] != {})
    }

    /** The relation the two indexes speed up. */
    ghost function Deadlines(): map<int, int>
      reads this
    {
      sessionToExpiry
    }

    /** Listed in the order of their deadlines. */
    ghost predicate ByDeadline(ids: seq<int>)
      reads this
    {
      && (forall i :: 0 <= i < |ids| ==> ids[i] in sessionToExpiry)
      && (forall i, j :: 0 <= i < j < |ids| ==> sessionToExpiry[ids[i]] <= sessionToExpiry[ids[j]])
    }

    constructor (interval: int)
      requires interval > 0
      ensures Valid() && Deadlines() == map[] && intervalMs == interval
    {
      sessionToExpiry, expiryToSessions, intervalMs := map[], map[], interval;
    }

    constructor Clone(from: SessionExpiryQueue)
      requires from.Valid()
      ensures Valid() && Deadlines() == from.Deadlines() && intervalMs == from.intervalMs
    {
      sessionToExpiry := from.sessionToExpiry;
      expiryToSessions := from.expiryToSessions;
      intervalMs := from.intervalMs;
    }

    method Remove(id: int) returns (existed: bool)
      requires Valid()
      modifies this
      ensures Valid()
      ensures existed == (id in old(Deadlines()))
      ensures Deadlines() == old(Deadlines()) - {id}
    {
      if id !in sessionToExpiry { return false; }
      Detach(id);
      return true;
    }

    method Touch(id: int, timeoutMs: int, now: int)
      requires Valid()
      modifies this
      ensures Valid()
      ensures Deadlines() == old(Deadlines())[id := Bucket(now + timeoutMs, intervalMs)]
    {
      if id in sessionToExpiry {
        Detach(id);
      }
      var bucketKey := TruncDiv(now + timeoutMs + intervalMs - 1, intervalMs) * intervalMs;
      var bucket := if bucketKey in expiryToSessions then expiryToSessions[bucketKey] else {};
      expiryToSessions := expiryToSessions[bucketKey := bucket + {id}];
      sessionToExpiry := sessionToExpiry[id := bucketKey];
    }

    /** Takes a session out of its bucket, and the bucket out of the queue when it empties. */
    method Detach(id: int)
      requires Valid() && id in sessionToExpiry
      modifies this
      ensures Valid() && Deadlines() == old(Deadlines()) - {id}
    {
      var oldExpiry := sessionToExpiry[id];
      sessionToExpiry := sessionToExpiry - {id};
      if oldExpiry in expiryToSessions {
        expiryToSessions := expiryToSessions[oldExpiry := expiryToSessions[oldExpiry] - {id}];
        if expiryToSessions[oldExpiry] == {} {
          expiryToSessions := expiryToSessions - {oldExpiry};
        }
      }
    }

    /** Lists, once each and earliest first, exactly the sessions whose deadline has come. */
    method GetExpired(now: int) returns (ids: seq<int>)
      requires Valid()
      ensures Distinct(ids)
      ensures forall id :: id in ids <==> id in Deadlines() && Deadlines()[id] <= now
      ensures ByDeadline(ids)
    {
      ids := [];
      var keys := set k | k in expiryToSessions && k <= now;
      ghost var seen := {};
      while keys != {}
        invariant keys !! seen && keys + seen == set k | k in expiryToSessions && k <= now
        invariant forall id :: id in ids <==> id in sessionToExpiry && sessionToExpiry[id] in seen
        invariant forall k, j :: k in seen && j in keys ==> k < j
        invariant Distinct(ids)
        invariant ByDeadline(ids)
        decreases keys
      {
        ghost var least := LeastKey(keys);
        var k :| k in keys && forall j :: j in keys ==> k <= j;
        ids := AppendBucket(ids, k);
        keys := keys - {k};
        seen := seen + {k};
      }
    }

    method AppendBucket(ids: seq<int>, k: int) returns (more: seq<int>)
      requires Valid() && k in expiryToSessions && Distinct(ids)
      requires forall id :: id in ids ==> id in sessionToExpiry && sessionToExpiry[id] < k
      requires ByDeadline(ids)
      ensures Distinct(more)
      ensures forall id :: id in more <==> id in ids || (id in sessionToExpiry && sessionToExpiry[id] == k)
      ensures ByDeadline(more)
    {
      more := ids;
      var rest := expiryToSessions[k];
      while rest != {}
        invariant rest <= expiryToSessions[k]
        invariant forall id :: id in more <==> id in ids || id in expiryToSessions[k] - rest
        invariant Distinct(more)
        invariant ByDeadline(more)
        decreases rest
      {
        Inhabited(rest);
        var id :| id in rest;
        more := more + [id];
        rest := rest - {id};
      }
    }
  }

  class SessionState {
    var sessionAndTimeout: map<int, int>
    var ephemerals: map<int, set<string>>
    var nextSessionId: int
    const expiryQueue: SessionExpiryQueue

    ghost function Repr(): set<object> { {this, expiryQueue} }

    /** Every queued session is still registered: expiry lists no closed session. No registered session
        has an id yet to be given. */
    ghost predicate Valid()
      reads Repr()
    {
      && expiryQueue.Valid() && expiryQueue.Deadlines().Keys <= sessionAndTimeout.Keys
      && forall id :: id in sessionAndTimeout ==> id < nextSessionId
    }

    constructor (interval: int)
      requires interval > 0
      ensures Valid() && fresh(Repr())
      ensures sessionAndTimeout == map[] && ephemerals == map[] && nextSessionId == 1
      ensures expiryQueue.Deadlines() == map[] && expiryQueue.intervalMs == interval
    {
      var queue := new SessionExpiryQueue(interval);
      sessionAndTimeout, ephemerals, nextSessionId, expiryQueue := map[], map[], 1, queue;
    }

    constructor Clone(from: SessionState)
      requires from.Valid()
      ensures Valid() && fresh(Repr())
      ensures sessionAndTimeout == from.sessionAndTimeout && ephemerals == from.ephemerals
      ensures nextSessionId == from.nextSessionId
      ensures expiryQueue.Deadlines() == from.expiryQueue.Deadlines()
      ensures expiryQueue.intervalMs == from.expiryQueue.intervalMs
    {
      var queue := new SessionExpiryQueue.Clone(from.expiryQueue);
      sessionAndTimeout, ephemerals := from.sessionAndTimeout, from.ephemerals;
      nextSessionId, expiryQueue := from.nextSessionId, queue;
    }

    method CreateSession(timeoutMs: int, now: int) returns (id: int)
      requires Valid()
      modifies Repr()
      ensures Valid()
      ensures id == old(nextSessionId) && nextSessionId == id + 1
      ensures id !in old(sessionAndTimeout) && id !in old(expiryQueue.Deadlines())
      ensures sessionAndTimeout == old(sessionAndTimeout)[id := timeoutMs]
      ensures ephemerals == old(ephemerals)
      ensures expiryQueue.Deadlines() ==
              old(expiryQueue.Deadlines())[id := Bucket(now + timeoutMs, expiryQueue.intervalMs)]
    {
      id := nextSessionId;
      nextSessionId := nextSessionId + 1;
      sessionAndTimeout := sessionAndTimeout[id := timeoutMs];
      expiryQueue.Touch(id, timeoutMs, now);
    }

    method TouchSession(id: int, now: int)
      requires Valid()
      modifies expiryQueue
      ensures Valid()
      ensures expiryQueue.Deadlines() ==
              if id in sessionAndTimeout
              then old(expiryQueue.Deadlines())[id := Bucket(now + sessionAndTimeout[id], expiryQueue.intervalMs)]
              else old(expiryQueue.Deadlines())
    {
      if id in sessionAndTimeout {
        expiryQueue.Touch(id, sessionAndTimeout[id], now);
      }
    }

    method AddEphemeral(id: int, path: string)
      requires Valid()
      modifies this
      ensures Valid()
      ensures ephemerals == Store.AddEphemeral(old(ephemerals), id, path)
      ensures sessionAndTimeout == old(sessionAndTimeout) && nextSessionId == old(nextSessionId)
    {
      var paths := if id in ephemerals then ephemerals[id] else {};
      ephemerals := ephemerals[id := paths + {path}];
    }

    method RemoveEphemeral(id: int, path: string)
      requires Valid()
      modifies this
      ensures Valid()
      ensures ephemerals == Store.RemoveEphemeral(old(ephemerals), id, path)
      ensures sessionAndTimeout == old(sessionAndTimeout) && nextSessionId == old(nextSessionId)
    {
      if id in ephemerals {
        var paths := ephemerals[id] - {path};
        if paths == {} {
          ephemerals := ephemerals - {id};
        } else {
          ephemerals := ephemerals[id := paths];
        }
      }
    }

    /** Closes the session and lists what it owned; the order of the list is the hash set's. */
    method CloseSession(id: int) returns (paths: seq<string>)
      requires Valid()
      modifies Repr()
      ensures Valid()
      ensures Distinct(paths) && ToSet(paths) == Owned(old(ephemerals), id)
      ensures ephemerals == old(ephemerals) - {id}
      ensures sessionAndTimeout == old(sessionAndTimeout) - {id} && nextSessionId == old(nextSessionId)
      ensures expiryQueue.Deadlines() == old(expiryQueue.Deadlines()) - {id}
    {
      sessionAndTimeout := sessionAndTimeout - {id};
      var _ := expiryQueue.Remove(id);
      var rest := if id in ephemerals then ephemerals[id] else {};
      ephemerals := ephemerals - {id};
      paths := [];
      while rest != {}
        invariant Valid() && Distinct(paths)
        invariant rest !! ToSet(paths) && ToSet(paths) + rest == Owned(old(ephemerals), id)
        invariant ephemerals == old(ephemerals) - {id}
        invariant sessionAndTimeout == old(sessionAndTimeout) - {id} && nextSessionId == old(nextSessionId)
        invariant expiryQueue.Deadlines() == old(expiryQueue.Deadlines()) - {id}
        decreases rest
      {
        var p :| p in rest;
        assert ToSet(paths + [p]) == ToSet(paths) + {p};
        paths := paths + [p];
        rest := rest - {p};
      }
    }

    method GetExpired(now: int) returns (ids: seq<int>)
      requires Valid()
      ensures Distinct(ids)
      ensures forall id :: id in ids <==> id in expiryQueue.Deadlines() && expiryQueue.Deadlines()[id] <= now
      ensures forall id :: id in ids ==> id in sessionAndTimeout
    {
      ids := expiryQueue.GetExpired(now);
    }

    /** A session that is not alive has no deadline, so it is never listed for expiry; an id that was
        never given is not alive. */
    method IsAlive(id: int) returns (alive: bool)
      requires Valid()
      ensures alive == (id in sessionAndTimeout)
      ensures !alive ==> id !in expiryQueue.Deadlines()
      ensures id >= nextSessionId ==> !alive
    {
      alive := id in sessionAndTimeout;
    }

    method RestoreSession(id: int, timeoutMs: int)
      requires Valid()
      modifies this
      ensures Valid() && ephemerals == old(ephemerals)
      ensures sessionAndTimeout == old(sessionAndTimeout)[id := timeoutMs]
      ensures nextSessionId == if id >= old(nextSessionId) then id + 1 else old(nextSessionId)
    {
      sessionAndTimeout := sessionAndTimeout[id := timeoutMs];
      if id >= nextSessionId {
        nextSessionId := id + 1;
      }
    }
  }
}
