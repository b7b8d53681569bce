/**
 * The per-address sliding-window rate limiter. The reference keeps every call ever made and counts;
 * the limiter keeps only recent allowed times, compacts them in place and drops idle addresses.
 */
module RateLimiter {

  datatype Call = Call(ip: string, at: int, allowed: bool)

  // ---------- the reference: full history ----------

  /** The times after `cutoff`, in order. */
  function Recent(times: seq<int>, cutoff: int): (r: seq<int>)
    ensures |r| <= |times| && forall t :: t in r ==> t in times && t > cutoff
  {
    if times == [] then []
    else
      var t := times[|times| - 1];
      Recent(times[..|times| - 1], cutoff) + (if t > cutoff then [t] else [])
  }

  function AllowedTimes(log: seq<Call>, ip: string): seq<int>
  {
    if log == [] then []
    else
      var c := log[|log| - 1];
      AllowedTimes(log[..|log| - 1], ip) + (if c.ip == ip && c.allowed then [c.at] else [])
  }

  /** Allowed when fewer than `limit` earlier allowed calls of the address lie in the window. */
  predicate ShouldAllow(limit: int, window: int, log: seq<Call>, ip: string, now: int)
  {
    |Recent(AllowedTimes(log, ip), now - window)| < limit
  }

  function ReferenceLog(limit: int, window: int, calls: seq<(string, int)>): seq<Call>
  {
    if calls == [] then []
    else
      var (ip, now) := calls[|calls| - 1];
      var log := ReferenceLog(limit, window, calls[..|calls| - 1]);
      log + [Call(ip, now, ShouldAllow(limit, window, log, ip, now))]
  }

  /** The earlier calls that count against a call of `ip` at `now`. */
  function Counting(log: seq<Call>, ip: string, cutoff: int): set<int>
  {
    set i | 0 <= i < |log| && log[i].ip == ip && log[i].allowed && log[i].at > cutoff
  }

  lemma CountingSnoc(log: seq<Call>, c: Call, ip: string, cutoff: int)
    ensures |Counting(log + [c], ip, cutoff)| ==
            |Counting(log, ip, cutoff)| + if c.ip == ip && c.allowed && c.at > cutoff then 1 else 0
  {
    var n := |log|;
    var before, all := Counting(log, ip, cutoff), Counting(log + [c], ip, cutoff);
    assert n !in before;
    assert all == before + if c.ip == ip && c.allowed && c.at > cutoff then {n} else {};
  }

  lemma {:induction false} RecentCounts(log: seq<Call>, ip: string, cutoff: int)
    ensures |Recent(AllowedTimes(log, ip), cutoff)| == |Counting(log, ip, cutoff)|
  {
    if log == [] {
      assert Counting(log, ip, cutoff) == {};
    } else {
      var front, c := log[..|log| - 1], log[|log| - 1];
      RecentCounts(front, ip, cutoff);
      assert log == front + [c];
      CountingSnoc(front, c, ip, cutoff);
      AllowedSnoc(front, c, ip);
      hide Recent, Counting, AllowedTimes;
      RecentSnoc(AllowedTimes(front, ip), c.at, cutoff);
    }
  }

  /** The rule, by counting: a call is allowed when fewer than `limit` allowed ones lie inside the window. */
  lemma AllowedByCount(limit: int, window: int, log: seq<Call>, ip: string, now: int)
    ensures ShouldAllow(limit, window, log, ip, now) <==>
            |set i | 0 <= i < |log| && log[i].ip == ip && log[i].allowed && log[i].at > now - window| < limit
  {
    RecentCounts(log, ip, now - window);
    assert Counting(log, ip, now - window) ==
           set i | 0 <= i < |log| && log[i].ip == ip && log[i].allowed && log[i].at > now - window;
  }

  // ---------- the limiter ----------

  function Bucket(hits: map<string, seq<int>>, ip: string): seq<int>
  {
    if ip in hits then hits[ip] else []
  }

  predicate NonDecreasing(times: seq<int>)
  {
    forall i, j :: 0 <= i < j < |times| ==> times[i] <= times[j]
  }

  /** The buckets and the full log agree on every window that can still be asked about. */
  ghost predicate Agrees(hits: map<string, seq<int>>, log: seq<Call>, horizon: int)
  {
    forall ip, cutoff :: cutoff >= horizon ==> Recent(Bucket(hits, ip), cutoff) == Recent(AllowedTimes(log, ip), cutoff)
  }

  ghost predicate Bounded(hits: map<string, seq<int>>, limit: int, latest: int)
  {
    forall ip :: ip in hits ==>
      NonDecreasing(hits[ip]) && (forall t :: t in hits[ip] ==> t <= latest) && (hits[ip] != [] ==> |hits[ip]| <= limit)
  }

  lemma {:induction false} RecentOfRecent(times: seq<int>, early: int, late: int)
    requires early <= late
    ensures Recent(Recent(times, early), late) == Recent(times, late)
  {
    if times != [] {
      var front, t := times[..|times| - 1], times[|times| - 1];
      RecentOfRecent(front, early, late);
      if t > early {
        var r := Recent(front, early) + [t];
        assert r[..|r| - 1] == Recent(front, early);
      } else {
        assert Recent(front, early) + [] == Recent(front, early);
      }
    }
  }

  lemma {:induction false} NothingRecent(times: seq<int>, cutoff: int)
    requires forall t :: t in times ==> t <= cutoff
    ensures Recent(times, cutoff) == []
  {
    if times != [] {
      var front := times[..|times| - 1];
      assert times[|times| - 1] in times && forall t :: t in front ==> t in times;
      NothingRecent(front, cutoff);
    }
  }

  lemma {:induction false} RecentKeepsOrder(times: seq<int>, cutoff: int)
    requires NonDecreasing(times)
    ensures NonDecreasing(Recent(times, cutoff))
  {
    if times != [] {
      var front := times[..|times| - 1];
      RecentKeepsOrder(front, cutoff);
      var r := Recent(front, cutoff);
      forall i | 0 <= i < |r| ensures r[i] <= times[|times| - 1] {
        assert r[i] in front;
      }
    }
  }

  lemma RecentSnoc(times: seq<int>, t: int, cutoff: int)
    ensures Recent(times + [t], cutoff) == Recent(times, cutoff) + (if t > cutoff then [t] else [])
  {
    assert (times + [t])[..|times + [t]| - 1] == times;
  }

  /** Compacts the times after `cutoff` to the front, reading the very slots it overwrites. */
  method CompactInPlace(slots: array<int>, cutoff: int) returns (kept: nat)
    modifies slots
    ensures kept <= slots.Length && slots[..kept] == Recent(old(slots[..]), cutoff)
  {
    ghost var times := slots[..];
    kept := 0;
    for r := 0 to slots.Length
      invariant kept <= r
      invariant slots[..kept] == Recent(times[..r], cutoff)
      invariant slots[r..] == times[r..]
    {
      var t := slots[r];
      assert t == slots[r..][0] == times[r..][0];
      assert times[..r + 1] == times[..r] + [t];
      RecentSnoc(times[..r], t, cutoff);
      if t > cutoff {
        slots[kept] := t;
        assert slots[..kept + 1] == slots[..kept] + [t];
        kept := kept + 1;
      }
      assert slots[r + 1..] == times[r..][1..];
    }
    assert times[..slots.Length] == times;
  }

  /** The newest time lies after `cutoff`. */
  predicate EndsAfter(times: seq<int>, cutoff: int)
  {
    times != [] && times[|times| - 1] > cutoff
  }

  class Limiter {
    const limit: int
    const window: int
    var hits: map<string, seq<int>>
    var lastPurge: int
    /** Every call answered so far. */
    ghost var log: seq<Call>

    /** A new limiter; its last purge lies before any call by more than a window. */
    constructor (limit: int, window: int, lastPurge: int)
      ensures Valid() && log == [] && this.limit == limit && this.window == window
    {
      this.limit, this.window, this.lastPurge := limit, window, lastPurge;
      hits, log := map[], [];
    }

    ghost predicate Valid()
      reads this
    {
      if log == [] then hits == map[]
      else
        var latest := log[|log| - 1].at;
        Agrees(hits, log, latest - window) && Bounded(hits, limit, latest)
    }

    /** Drops every address whose newest time is out of the window. */
    method Purge(cutoff: int)
      modifies this`hits
      ensures hits.Keys <= old(hits).Keys && forall ip :: ip in hits ==> hits[ip] == old(hits)[ip]
      ensures forall ip :: ip in old(hits) ==> (ip in hits <==> EndsAfter(old(hits)[ip], cutoff))
    {
      var todo := hits.Keys;
      while todo != {}
        invariant hits.Keys <= old(hits).Keys && todo <= hits.Keys
        invariant forall ip :: ip in hits ==> hits[ip] == old(hits)[ip]
        invariant forall ip :: ip in old(hits) && ip !in todo ==> (ip in hits <==> EndsAfter(old(hits)[ip], cutoff))
        invariant forall ip :: ip in todo ==> ip in hits
        decreases todo
      {
        var ip :| ip in todo;
        var times := hits[ip];
        if times == [] || times[|times| - 1] <= cutoff {
          hits := hits - {ip};
        }
        todo := todo - {ip};
      }
    }

    /** One decision: what the full history says, for calls that come in time order. */
    method Allow(ip: string, now: int) returns (allowed: bool)
      requires Valid() && (log != [] ==> log[|log| - 1].at <= now)
      modifies this`hits, this`lastPurge, this`log
      ensures Valid() && log == old(log) + [Call(ip, now, allowed)]
      ensures allowed == ShouldAllow(limit, window, old(log), ip, now)
      ensures forall k :: k in hits && hits[k] != [] ==> |hits[k]| <= limit
      ensures lastPurge == if now - old(lastPurge) > window then now else old(lastPurge)
      ensures now - old(lastPurge) > window ==> forall k :: k in hits && k != ip ==> EndsAfter(hits[k], now - window)
    {
      hide Recent, AllowedTimes, Agrees, Bounded, Bucket;
      var cutoff := now - window;
      ghost var before := hits;
      BeforeCall(hits, log, limit, window, now);
      if now - lastPurge > window {
        Purge(cutoff);
        PurgeKeepsAgreement(before, hits, log, limit, now, cutoff);
        lastPurge := now;
      }
      var bucket := Bucket(hits, ip);
      var slots := new int[|bucket|](i requires 0 <= i < |bucket| => bucket[i]);
      assert slots[..] == bucket;
      var count := CompactInPlace(slots, cutoff);
      var kept := slots[..count];
      AgreesAt(hits, log, cutoff, ip);
      allowed := count < limit;
      ghost var purged := hits;
      hits := hits[ip := if allowed then kept + [now] else kept];
      DecisionKeepsAgreement(purged, hits, log, limit, ip, now, cutoff, allowed);
      log := log + [Call(ip, now, allowed)];
      BucketsFit(hits, limit, now);
    }
  }

  lemma AgreesAt(hits: map<string, seq<int>>, log: seq<Call>, horizon: int, ip: string)
    requires Agrees(hits, log, horizon)
    ensures Recent(Bucket(hits, ip), horizon) == Recent(AllowedTimes(log, ip), horizon)
  {
  }

  lemma BucketsFit(hits: map<string, seq<int>>, limit: int, latest: int)
    requires Bounded(hits, limit, latest)
    ensures forall k :: k in hits && hits[k] != [] ==> |hits[k]| <= limit
  {
  }

  lemma BeforeCall(hits: map<string, seq<int>>, log: seq<Call>, limit: int, window: int, now: int)
    requires log == [] ==> hits == map[]
    requires log != [] ==>
               var latest := log[|log| - 1].at;
               latest <= now && Agrees(hits, log, latest - window) && Bounded(hits, limit, latest)
    ensures Agrees(hits, log, now - window) && Bounded(hits, limit, now)
  {
  }

  /** The purge only forgets times no later window can contain. */
  lemma PurgeKeepsAgreement(before: map<string, seq<int>>, after: map<string, seq<int>>, log: seq<Call>,
                            limit: int, now: int, cutoff: int)
    requires Agrees(before, log, cutoff) && Bounded(before, limit, now)
    requires after.Keys <= before.Keys && forall ip :: ip in after ==> after[ip] == before[ip]
    requires forall ip :: ip in before && ip !in after ==>
               var times := before[ip]; times == [] || times[|times| - 1] <= cutoff
    ensures Agrees(after, log, cutoff) && Bounded(after, limit, now)
  {
    forall ip, c | c >= cutoff ensures Recent(Bucket(after, ip), c) == Recent(AllowedTimes(log, ip), c) {
      assert Recent(Bucket(before, ip), c) == Recent(AllowedTimes(log, ip), c);
      if ip in before && ip !in after {
        var times := before[ip];
        forall t | t in times ensures t <= c {
          var i :| 0 <= i < |times| && times[i] == t;
        }
        NothingRecent(times, c);
      }
    }
  }

  lemma DecisionKeepsAgreement(before: map<string, seq<int>>, after: map<string, seq<int>>, log: seq<Call>, limit: int,
                               ip: string, now: int, cutoff: int, allowed: bool)
    requires Agrees(before, log, cutoff) && Bounded(before, limit, now)
    requires var kept := Recent(Bucket(before, ip), cutoff);
             allowed == (|kept| < limit) && after == before[ip := if allowed then kept + [now] else kept]
    ensures Agrees(after, log + [Call(ip, now, allowed)], cutoff) && Bounded(after, limit, now)
  {
    hide Recent, AllowedTimes, Bounded;
    var call := Call(ip, now, allowed);
    forall k, c | c >= cutoff
      ensures Recent(Bucket(after, k), c) == Recent(AllowedTimes(log + [call], k), c)
    {
      assert Recent(Bucket(before, k), c) == Recent(AllowedTimes(log, k), c);
      AllowedSnoc(log, call, k);
      if k == ip {
        RecentOfRecent(Bucket(before, ip), cutoff, c);
        RecentSnoc(Recent(Bucket(before, ip), cutoff), now, c);
        RecentSnoc(AllowedTimes(log, k), now, c);
      }
    }
    DecisionKeepsBounds(before, after, limit, ip, now, cutoff, allowed);
  }

  lemma AllowedSnoc(log: seq<Call>, call: Call, ip: string)
    ensures AllowedTimes(log + [call], ip) ==
            if call.ip == ip && call.allowed then AllowedTimes(log, ip) + [call.at] else AllowedTimes(log, ip)
  {
    assert (log + [call])[..|log + [call]| - 1] == log;
  }

  lemma DecisionKeepsBounds(before: map<string, seq<int>>, after: map<string, seq<int>>, limit: int,
                            ip: string, now: int, cutoff: int, allowed: bool)
    requires Bounded(before, limit, now)
    requires var kept := Recent(Bucket(before, ip), cutoff);
             allowed == (|kept| < limit) && after == before[ip := if allowed then kept + [now] else kept]
    ensures Bounded(after, limit, now)
  {
    var kept := Recent(Bucket(before, ip), cutoff);
    RecentKeepsOrder(Bucket(before, ip), cutoff);
    forall t | t in kept ensures t <= now {
      assert t in Bucket(before, ip) && ip in before;
    }
    var bucket := after[ip];
    forall i, j | 0 <= i < j < |bucket| ensures bucket[i] <= bucket[j] {
      assert kept[i] in kept;
      assert j < |kept| ==> kept[i] <= kept[j];
    }
  }

  predicate InTimeOrder(calls: seq<(string, int)>)
  {
    forall i, j :: 0 <= i < j < |calls| ==> calls[i].1 <= calls[j].1
  }

  /** A whole run of calls in time order is answered exactly as the reference answers it. */
  method AnswerAll(limit: int, window: int, lastPurge: int, calls: seq<(string, int)>) returns (log: seq<Call>)
    requires InTimeOrder(calls)
    ensures log == ReferenceLog(limit, window, calls)
  {
    hide Agrees, Bounded, ShouldAllow;
    var limiter := new Limiter(limit, window, lastPurge);
    log := [];
    for i := 0 to |calls|
      invariant limiter.Valid() && limiter.log == log == ReferenceLog(limit, window, calls[..i])
      invariant limiter.limit == limit && limiter.window == window && fresh(limiter)
      invariant |log| == i && (i > 0 ==> log[i - 1].at == calls[i - 1].1)
    {
      var (ip, now) := calls[i];
      assert calls[..i + 1][..i] == calls[..i];
      var allowed := limiter.Allow(ip, now);
      log := log + [Call(ip, now, allowed)];
    }
    assert calls[..|calls|] == calls;
  }
}
