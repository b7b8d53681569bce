/**
 * The cached catalog snapshot of a source. Rebuilding holds the lock and reads the repository in five
 * steps; the repository changes at any time, and only discarding the cache has to wait for the lock.
 */
module CatalogCache {
  import opened Wrappers

  datatype Component = Published | Withdrawn | Availability | Tools | Advisories

  /** The order in which a build reads the repository. */
  const READ_ORDER: seq<Component> := [Published, Withdrawn, Availability, Tools, Advisories]

  /** A failed read of these leaves their index empty; a failed read of the others ends the build. */
  predicate FailureTolerated(c: Component)
  {
    c == Availability || c == Advisories
  }

  const DEFAULT_TTL := 30_000_000_000

  function EffectiveTtl(ttl: int): (effective: int)
    ensures effective > 0 && (ttl > 0 ==> effective == ttl)
  {
    if ttl <= 0 then DEFAULT_TTL else ttl
  }

  /**
   * What a build has read: for each component, in the order above, how many repository changes its
   * contents already included, or nothing when the read failed.
   */
  type Reads = seq<Option<nat>>

  datatype Snapshot = Snapshot(seen: Reads, generatedAt: int)

  type Id = nat

  /** `needs` is how many changes had been committed before the latest `Invalidate` that returned before the call. */
  datatype Call =
    | Waiting(needs: nat, now: int)
    | Building(needs: nat, now: int, seen: Reads)
    | Returned(needs: nat, now: int, answer: Option<Snapshot>)

  /**
   * `changes` lists the components each committed change touches; `settled` counts the changes committed
   * before the latest `Invalidate`; `holder` is the call that holds the lock.
   */
  datatype State = State(
    changes: seq<set<Component>>,
    settled: nat,
    cached: Option<Snapshot>,
    cachedAt: int,
    holder: Option<Id>,
    calls: map<Id, Call>)

  /** Every atomic step of the repository, of `Invalidate` and of `CachedSnapshot`. */
  datatype Event =
    | Commit(touched: set<Component>)
    | Invalidate
    | Arrive(id: Id, at: int)
    | Enter(caller: Id)
    | Read(ok: bool)
    | Finish

  predicate Fresh(s: State, ttl: int, now: int)
  {
    s.cached.Some? && now - s.cachedAt < EffectiveTtl(ttl)
  }

  function SetCall(s: State, id: Id, call: Call, holder: Option<Id>): State
  {
    s.(calls := s.calls[id := call], holder := holder)
  }

  /** One step, if it is possible in this state: the lock is held from `Enter` to the end of a build. */
  function Step(s: State, ttl: int, e: Event): Option<State>
  {
    match e
    case Commit(touched) => Some(s.(changes := s.changes + [touched]))
    case Invalidate => if s.holder.Some? then None else Some(s.(cached := None, settled := |s.changes|))
    case Arrive(id, now) => if id in s.calls then None else Some(s.(calls := s.calls[id := Waiting(s.settled, now)]))
    case Enter(id) =>
      if s.holder.Some? || id !in s.calls || !s.calls[id].Waiting? then None else
        var c := s.calls[id];
        if Fresh(s, ttl, c.now) then Some(SetCall(s, id, Returned(c.needs, c.now, s.cached), None))
        else Some(SetCall(s, id, Building(c.needs, c.now, []), Some(id)))
    case Read(ok) =>
      if s.holder.None? || s.holder.value !in s.calls then None else
        var c := s.calls[s.holder.value];
        if !c.Building? || |c.seen| >= |READ_ORDER| then None
        else if ok then
          Some(SetCall(s, s.holder.value, c.(seen := c.seen + [Some(|s.changes|)]), s.holder))
        else if FailureTolerated(READ_ORDER[|c.seen|]) then
          Some(SetCall(s, s.holder.value, c.(seen := c.seen + [None]), s.holder))
        else Some(SetCall(s, s.holder.value, Returned(c.needs, c.now, None), None))
    case Finish =>
      if s.holder.None? || s.holder.value !in s.calls then None else
        var c := s.calls[s.holder.value];
        if !c.Building? || |c.seen| != |READ_ORDER| then None else
          var snapshot := Snapshot(c.seen, c.now);
          Some(SetCall(s.(cached := Some(snapshot), cachedAt := c.now), s.holder.value,
                       Returned(c.needs, c.now, Some(snapshot)), None))
  }

  function Run(s: State, ttl: int, events: seq<Event>): Option<State>
    decreases |events|
  {
    if events == [] then Some(s) else
      var next := Step(s, ttl, events[0]);
      if next.None? then None else Run(next.value, ttl, events[1..])
  }

  /** A repository with some history, an empty cache and no calls. */
  predicate Init(s: State)
  {
    s.settled <= |s.changes| && s.cached.None? && s.holder.None? && s.calls == map[]
  }

  // ---------- what a snapshot shows ----------

  /** The snapshot includes change `k`, in every component the change touches. */
  predicate Shows(snapshot: Snapshot, changes: seq<set<Component>>, k: nat)
    requires k < |changes| && |snapshot.seen| == |READ_ORDER|
  {
    forall i :: 0 <= i < |READ_ORDER| && READ_ORDER[i] in changes[k] ==>
                  snapshot.seen[i].Some? && k < snapshot.seen[i].value
  }

  /** Every component the change touches could be read when the snapshot was built. */
  predicate ReadAllOf(snapshot: Snapshot, touched: set<Component>)
    requires |snapshot.seen| == |READ_ORDER|
  {
    forall i :: 0 <= i < |READ_ORDER| && READ_ORDER[i] in touched ==> snapshot.seen[i].Some?
  }

  // ---------- the invariant ----------

  /** The reads made so far are no older than `from`; only tolerated ones may have failed. */
  predicate ReadSince(seen: Reads, from: nat, now: nat)
  {
    |seen| <= |READ_ORDER| &&
    forall i :: 0 <= i < |seen| ==>
                  (seen[i].Some? ==> from <= seen[i].value <= now) &&
                  (seen[i].None? ==> FailureTolerated(READ_ORDER[i]))
  }

  predicate CallOk(s: State, ttl: int, id: Id, c: Call)
  {
    c.needs <= s.settled &&
    (c.Building? ==> s.holder == Some(id) && ReadSince(c.seen, s.settled, |s.changes|)) &&
    (c.Returned? && c.answer.Some? ==>
       |c.answer.value.seen| == |READ_ORDER| && ReadSince(c.answer.value.seen, c.needs, |s.changes|) &&
       c.now - c.answer.value.generatedAt < EffectiveTtl(ttl))
  }

  ghost predicate Inv(s: State, ttl: int)
  {
    s.settled <= |s.changes| &&
    (s.cached.Some? ==>
       |s.cached.value.seen| == |READ_ORDER| && ReadSince(s.cached.value.seen, s.settled, |s.changes|) &&
       s.cached.value.generatedAt == s.cachedAt) &&
    (forall id :: id in s.calls ==> CallOk(s, ttl, id, s.calls[id]))
  }

  /** Every interleaving keeps the invariant. */
  lemma StepKeepsInv(s: State, ttl: int, e: Event)
    requires Inv(s, ttl) && Step(s, ttl, e).Some?
    ensures Inv(Step(s, ttl, e).value, ttl)
  {
    match e {
      case Enter(_) => EnterKeepsInv(s, ttl, e);
      case Read(_) => ReadKeepsInv(s, ttl, e);
      case Finish => FinishKeepsInv(s, ttl, e);
      case _ =>
    }
  }

  lemma EnterKeepsInv(s: State, ttl: int, e: Event)
    requires Inv(s, ttl) && e.Enter? && Step(s, ttl, e).Some?
    ensures Inv(Step(s, ttl, e).value, ttl)
  {
    assert CallOk(s, ttl, e.caller, s.calls[e.caller]);
  }

  lemma ReadKeepsInv(s: State, ttl: int, e: Event)
    requires Inv(s, ttl) && e.Read? && Step(s, ttl, e).Some?
    ensures Inv(Step(s, ttl, e).value, ttl)
  {
    assert CallOk(s, ttl, s.holder.value, s.calls[s.holder.value]);
  }

  lemma FinishKeepsInv(s: State, ttl: int, e: Event)
    requires Inv(s, ttl) && e.Finish? && Step(s, ttl, e).Some?
    ensures Inv(Step(s, ttl, e).value, ttl)
  {
    assert CallOk(s, ttl, s.holder.value, s.calls[s.holder.value]);
  }

  /** Later steps only add changes and calls, and never change what a call needs or was answered. */
  predicate Extends(later: State, s: State)
  {
    s.changes <= later.changes && s.settled <= later.settled &&
    forall id :: id in s.calls ==>
                   id in later.calls && later.calls[id].needs == s.calls[id].needs &&
                   (s.calls[id].Returned? ==> later.calls[id] == s.calls[id])
  }

  lemma {:induction false} RunKeepsInv(s: State, ttl: int, events: seq<Event>)
    requires Inv(s, ttl) && Run(s, ttl, events).Some?
    ensures Inv(Run(s, ttl, events).value, ttl) && Extends(Run(s, ttl, events).value, s)
    decreases |events|
  {
    hide Step, Inv, Extends;
    if events == [] {
      ExtendsItself(s);
    } else {
      var next := Step(s, ttl, events[0]).value;
      StepKeepsInv(s, ttl, events[0]);
      StepExtends(s, ttl, events[0]);
      RunKeepsInv(next, ttl, events[1..]);
      ExtendsAgain(Run(next, ttl, events[1..]).value, next, s);
    }
  }

  lemma ExtendsItself(s: State)
    ensures Extends(s, s)
  {
  }

  lemma StepExtends(s: State, ttl: int, e: Event)
    requires Inv(s, ttl) && Step(s, ttl, e).Some?
    ensures Extends(Step(s, ttl, e).value, s)
  {
  }

  lemma ExtendsAgain(last: State, later: State, s: State)
    requires Extends(last, later) && Extends(later, s)
    ensures Extends(last, s)
  {
    forall id | id in s.calls
      ensures id in last.calls && last.calls[id].needs == s.calls[id].needs
      ensures s.calls[id].Returned? ==> last.calls[id] == s.calls[id]
    {
      assert id in later.calls;
    }
  }

  lemma {:induction false} RunSplit(s: State, ttl: int, events: seq<Event>, n: nat)
    requires n <= |events| && Run(s, ttl, events).Some?
    ensures Run(s, ttl, events[..n]).Some?
    ensures Run(Run(s, ttl, events[..n]).value, ttl, events[n..]) == Run(s, ttl, events)
    decreases |events|
  {
    if n > 0 {
      var next := Step(s, ttl, events[0]).value;
      RunSplit(next, ttl, events[1..], n - 1);
      assert events[..n][1..] == events[1..][..n - 1] && events[1..][n - 1..] == events[n..];
    } else {
      assert events[..0] == [] && events[0..] == events;
    }
  }

  function After(s: State, ttl: int, events: seq<Event>, n: nat): (r: State)
    requires n <= |events| && Run(s, ttl, events).Some?
    ensures Run(s, ttl, events[..n]) == Some(r)
  {
    RunSplit(s, ttl, events, n);
    Run(s, ttl, events[..n]).value
  }

  // ---------- which reads made a snapshot ----------

  lemma OneStep(s: State, ttl: int, e: Event)
    ensures Run(s, ttl, [e]) == Step(s, ttl, e)
  {
    var next := Step(s, ttl, e);
    if next.Some? { assert Run(next.value, ttl, [e][1..]) == next; }
  }

  lemma {:induction false} RunThen(s: State, ttl: int, first: seq<Event>, second: seq<Event>)
    requires Run(s, ttl, first).Some?
    ensures Run(s, ttl, first + second) == Run(Run(s, ttl, first).value, ttl, second)
    decreases |first|
  {
    hide Step;
    if first == [] {
      assert first + second == second;
    } else {
      RunThen(Step(s, ttl, first[0]).value, ttl, first[1..], second);
      assert (first + second)[1..] == first[1..] + second;
    }
  }

  /** Whether each read of a run succeeded, in order. */
  function ReadFlags(events: seq<Event>): seq<bool>
  {
    if events == [] then []
    else
      var last := events[|events| - 1];
      ReadFlags(events[..|events| - 1]) + if last.Read? then [last.ok] else []
  }

  /** The reads made so far are the last ones of the run: each has contents exactly if it succeeded. */
  predicate Matches(seen: Reads, flags: seq<bool>)
  {
    |seen| <= |flags| &&
    forall i :: 0 <= i < |seen| ==> (seen[i].Some? <==> flags[|flags| - |seen| + i])
  }

  /** Call `id` has entered at some step, and there have been `n` reads since. */
  ghost predicate Begun(events: seq<Event>, id: Id, n: nat)
  {
    exists b: nat :: b < |events| && events[b] == Enter(id) && |ReadFlags(events[..b])| + n == |ReadFlags(events)|
  }

  /** The snapshot was put in the cache by the `Finish` at step `f`, from the reads since its call entered. */
  ghost predicate MadeAt(s: State, ttl: int, events: seq<Event>, snapshot: Snapshot, f: nat)
  {
    f < |events| && events[f].Finish? &&
    Run(s, ttl, events[..f + 1]).Some? && Run(s, ttl, events[..f + 1]).value.cached == Some(snapshot) &&
    |snapshot.seen| == |READ_ORDER| && Matches(snapshot.seen, ReadFlags(events[..f])) &&
    exists id :: Begun(events[..f], id, |READ_ORDER|)
  }

  ghost predicate Made(s: State, ttl: int, events: seq<Event>, snapshot: Snapshot)
  {
    exists f :: MadeAt(s, ttl, events, snapshot, f)
  }

  /** The reads of the build that finished at step `f` succeeded for every component the change touches. */
  predicate ReadsSucceeded(events: seq<Event>, f: nat, touched: set<Component>)
    requires f < |events|
  {
    var flags := ReadFlags(events[..f]);
    |flags| >= |READ_ORDER| &&
    forall i :: 0 <= i < |READ_ORDER| && READ_ORDER[i] in touched ==> flags[|flags| - |READ_ORDER| + i]
  }

  /** Every snapshot around was made by some build, and the build under way matches the latest reads. */
  ghost predicate AllMade(s: State, ttl: int, events: seq<Event>, now: State)
  {
    (now.cached.Some? ==> Made(s, ttl, events, now.cached.value)) &&
    forall id :: id in now.calls ==> CallMade(s, ttl, events, id, now.calls[id])
  }

  ghost predicate CallMade(s: State, ttl: int, events: seq<Event>, id: Id, c: Call)
  {
    match c
    case Waiting(_, _) => true
    case Building(_, _, seen) => Matches(seen, ReadFlags(events)) && Begun(events, id, |seen|)
    case Returned(_, _, answer) => answer.Some? ==> Made(s, ttl, events, answer.value)
  }

  lemma MadeStays(s: State, ttl: int, events: seq<Event>, e: Event, snapshot: Snapshot)
    requires Made(s, ttl, events, snapshot)
    ensures Made(s, ttl, events + [e], snapshot)
  {
    var f: nat :| MadeAt(s, ttl, events, snapshot, f);
    assert f < |events|;
    assert (events + [e])[..f + 1] == events[..f + 1] && (events + [e])[..f] == events[..f];
    assert MadeAt(s, ttl, events + [e], snapshot, f);
  }

  lemma FlagsStep(events: seq<Event>, e: Event)
    ensures ReadFlags(events + [e]) == if e.Read? then ReadFlags(events) + [e.ok] else ReadFlags(events)
  {
    assert (events + [e])[..|events|] == events;
  }

  lemma MatchesOneMore(seen: Reads, flags: seq<bool>, read: Option<nat>)
    requires Matches(seen, flags)
    ensures Matches(seen + [read], flags + [read.Some?])
  {
  }

  /** One more step keeps track of every snapshot. */
  lemma AllMadeStep(s: State, ttl: int, events: seq<Event>, now: State, e: Event)
    requires Run(s, ttl, events) == Some(now) && Step(now, ttl, e).Some? && Inv(now, ttl)
    requires AllMade(s, ttl, events, now)
    ensures AllMade(s, ttl, events + [e], Step(now, ttl, e).value)
  {
    hide Run, ReadFlags, Matches, Made, MadeAt, Step, Inv;
    var next := Step(now, ttl, e).value;
    if next.cached.Some? {
      if e.Finish? {
        FinishMakes(s, ttl, events, now, e);
      } else {
        KeptFrom(now, ttl, e);
        MadeStays(s, ttl, events, e, now.cached.value);
      }
    }
    forall id | id in next.calls ensures CallMade(s, ttl, events + [e], id, next.calls[id]) {
      CallMadeStep(s, ttl, events, now, e, id);
    }
  }

  lemma KeptFrom(now: State, ttl: int, e: Event)
    requires Step(now, ttl, e).Some? && !e.Finish? && Step(now, ttl, e).value.cached.Some?
    ensures now.cached == Step(now, ttl, e).value.cached
  {
  }

  /** The snapshot of a `Finish` is made by it. */
  lemma FinishMakes(s: State, ttl: int, events: seq<Event>, now: State, e: Event)
    requires Run(s, ttl, events) == Some(now) && e.Finish? && Step(now, ttl, e).Some? && AllMade(s, ttl, events, now)
    ensures var next := Step(now, ttl, e).value;
            next.cached.Some? && Made(s, ttl, events + [e], next.cached.value)
  {
    var next := Step(now, ttl, e).value;
    hide Run, ReadFlags, Matches;
    var more := events + [e];
    RunThen(s, ttl, events, [e]);
    OneStep(now, ttl, e);
    assert more[..|events| + 1] == more && more[..|events|] == events;
    assert CallMade(s, ttl, events, now.holder.value, now.calls[now.holder.value]);
    assert MadeAt(s, ttl, more, next.cached.value, |events|);
  }

  lemma CallMadeStep(s: State, ttl: int, events: seq<Event>, now: State, e: Event, id: Id)
    requires Run(s, ttl, events) == Some(now) && Step(now, ttl, e).Some? && Inv(now, ttl)
    requires AllMade(s, ttl, events, now)
    requires id in Step(now, ttl, e).value.calls
    ensures CallMade(s, ttl, events + [e], id, Step(now, ttl, e).value.calls[id])
  {
    hide Run, ReadFlags, Matches, Made, MadeAt, ReadSince, Begun;
    FlagsStep(events, e);
    if now.cached.Some? { MadeStays(s, ttl, events, e, now.cached.value); }
    if id in now.calls {
      assert CallMade(s, ttl, events, id, now.calls[id]) && CallOk(now, ttl, id, now.calls[id]);
      match now.calls[id] {
        case Returned(_, _, answer) =>
          if answer.Some? { MadeStays(s, ttl, events, e, answer.value); }
        case Building(_, _, seen) =>
          BegunStep(events, e, id, |seen|);
          if e.Read? { MatchesOneMore(seen, ReadFlags(events), if e.ok then Some(|now.changes|) else None); }
          if e.Finish? { FinishMakes(s, ttl, events, now, e); }
        case Waiting(_, _) =>
          NothingRead(ReadFlags(events + [e]));
          BeginsNow(events, e);
      }
    }
  }

  lemma BegunStep(events: seq<Event>, e: Event, id: Id, n: nat)
    requires Begun(events, id, n)
    ensures Begun(events + [e], id, if e.Read? then n + 1 else n)
  {
    var b: nat :| b < |events| && events[b] == Enter(id) && |ReadFlags(events[..b])| + n == |ReadFlags(events)|;
    FlagsStep(events, e);
    assert (events + [e])[..b] == events[..b] && (events + [e])[b] == events[b];
  }

  lemma BeginsNow(events: seq<Event>, e: Event)
    ensures e.Enter? ==> Begun(events + [e], e.caller, 0)
  {
    FlagsStep(events, e);
    assert (events + [e])[..|events|] == events;
    assert e.Enter? ==> (events + [e])[|events|] == Enter(e.caller);
  }

  lemma NothingRead(flags: seq<bool>)
    ensures Matches([], flags)
  {
  }

  lemma {:induction false} SnapshotsAreMade(s: State, ttl: int, events: seq<Event>)
    requires Init(s) && Run(s, ttl, events).Some?
    ensures AllMade(s, ttl, events, Run(s, ttl, events).value)
    decreases |events|
  {
    if events != [] {
      hide Run, Step, Inv, AllMade, Init;
      var n := |events| - 1;
      var front, e := events[..n], events[n];
      assert front + [e] == events;
      RunSplit(s, ttl, events, n);
      SnapshotsAreMade(s, ttl, front);
      var now := Run(s, ttl, front).value;
      InitInv(s, ttl);
      RunKeepsInv(s, ttl, front);
      RunThen(s, ttl, front, [e]);
      OneStep(now, ttl, e);
      AllMadeStep(s, ttl, front, now, e);
    }
  }

  // ---------- the guarantees, for every interleaving ----------

  /**
   * A change is committed at step `i`, an `Invalidate` at step `j` discards the cache, a call arrives at
   * step `l`. Then whatever snapshot the call is given was made by a build that finished at some step `f`; it
   * shows the change exactly when that build's reads of every component the change touches succeeded; and
   * its age is below the lifetime.
   */
  lemma CallSeesSettledChange(s: State, ttl: int, events: seq<Event>, i: nat, j: nat, l: nat)
    requires Init(s) && Run(s, ttl, events).Some? && i < j < l < |events|
    requires events[i].Commit? && events[j].Invalidate? && events[l].Arrive?
    ensures var end := Run(s, ttl, events).value;
            var (id, k) := (events[l].id, |After(s, ttl, events, i).changes|);
            id in end.calls && k < |end.changes| && end.changes[k] == events[i].touched &&
            (end.calls[id].Returned? && end.calls[id].answer.Some? ==>
               var a := end.calls[id].answer.value;
               |a.seen| == |READ_ORDER| &&
               (exists f :: MadeAt(s, ttl, events, a, f) &&
                            (Shows(a, end.changes, k) <==> ReadsSucceeded(events, f, events[i].touched))) &&
               end.calls[id].now - a.generatedAt < EffectiveTtl(ttl))
  {
    hide Step, Inv, Run, MadeAt, ReadsSucceeded, Shows;
    SettledAnswer(s, ttl, events, i, j, l);
    SnapshotsAreMade(s, ttl, events);
    var end := Run(s, ttl, events).value;
    var id := events[l].id;
    if end.calls[id].Returned? && end.calls[id].answer.Some? {
      var a := end.calls[id].answer.value;
      assert CallMade(s, ttl, events, id, end.calls[id]);
      var f :| MadeAt(s, ttl, events, a, f);
      SucceededReads(s, ttl, events, a, f, events[i].touched);
    }
  }

  /** What a snapshot could read is what the reads of its build say. */
  lemma SucceededReads(s: State, ttl: int, events: seq<Event>, a: Snapshot, f: nat, touched: set<Component>)
    requires MadeAt(s, ttl, events, a, f)
    ensures f < |events| && |a.seen| == |READ_ORDER| && (ReadAllOf(a, touched) <==> ReadsSucceeded(events, f, touched))
  {
    hide Run, ReadFlags;
  }

  /** The same in terms of what the snapshot holds. */
  lemma SettledAnswer(s: State, ttl: int, events: seq<Event>, i: nat, j: nat, l: nat)
    requires Init(s) && Run(s, ttl, events).Some? && i < j < l < |events|
    requires events[i].Commit? && events[j].Invalidate? && events[l].Arrive?
    ensures var end := Run(s, ttl, events).value;
            var (id, k) := (events[l].id, |After(s, ttl, events, i).changes|);
            id in end.calls && k < |end.changes| && end.changes[k] == events[i].touched &&
            (end.calls[id].Returned? && end.calls[id].answer.Some? ==>
               var a := end.calls[id].answer.value;
               |a.seen| == |READ_ORDER| && (Shows(a, end.changes, k) <==> ReadAllOf(a, events[i].touched)) &&
               end.calls[id].now - a.generatedAt < EffectiveTtl(ttl))
  {
    hide Step, Inv, Run;
    var end := Run(s, ttl, events).value;
    InitInv(s, ttl);
    var s0, s1 := After(s, ttl, events, i), After(s, ttl, events, i + 1);
    Stage(s, ttl, events, i, i + 1);
    Stage(s, ttl, events, i + 1, j);
    Stage(s, ttl, events, j, j + 1);
    Stage(s, ttl, events, j + 1, l);
    Stage(s, ttl, events, l, l + 1);
    Stage(s, ttl, events, l + 1, |events|);
    NextStep(s, ttl, events, i);
    NextStep(s, ttl, events, j);
    NextStep(s, ttl, events, l);
    var k := |s0.changes|;
    CommitStep(s0, ttl, events[i]);
    InvalidateStep(After(s, ttl, events, j), ttl, events[j]);
    ArriveStep(After(s, ttl, events, l), ttl, events[l]);
    WholeRun(s, ttl, events);
    AnswersAreSettled(end, ttl, events[l].id, k);
  }

  lemma InitInv(s: State, ttl: int)
    requires Init(s)
    ensures Inv(s, ttl)
  {
  }

  lemma AnswersAreSettled(s: State, ttl: int, id: Id, k: nat)
    requires Inv(s, ttl) && id in s.calls && k < s.calls[id].needs
    ensures k < |s.changes|
    ensures s.calls[id].Returned? && s.calls[id].answer.Some? ==>
              var a := s.calls[id].answer.value;
              |a.seen| == |READ_ORDER| && (Shows(a, s.changes, k) <==> ReadAllOf(a, s.changes[k])) &&
              s.calls[id].now - a.generatedAt < EffectiveTtl(ttl)
  {
    assert CallOk(s, ttl, id, s.calls[id]);
  }

  lemma CommitStep(s: State, ttl: int, e: Event)
    requires e.Commit? && Step(s, ttl, e).Some?
    ensures Step(s, ttl, e).value.changes == s.changes + [e.touched]
  {
  }

  lemma InvalidateStep(s: State, ttl: int, e: Event)
    requires e.Invalidate? && Step(s, ttl, e).Some?
    ensures Step(s, ttl, e).value.settled == |s.changes|
  {
  }

  lemma ArriveStep(s: State, ttl: int, e: Event)
    requires e.Arrive? && Step(s, ttl, e).Some?
    ensures var r := Step(s, ttl, e).value; e.id in r.calls && r.calls[e.id].needs == s.settled
  {
  }

  lemma NextStep(s: State, ttl: int, events: seq<Event>, n: nat)
    requires n < |events| && Run(s, ttl, events).Some?
    ensures Step(After(s, ttl, events, n), ttl, events[n]) == Some(After(s, ttl, events, n + 1))
  {
    var prefix := events[..n + 1];
    RunSplit(s, ttl, events, n + 1);
    RunSplit(s, ttl, prefix, n);
    assert prefix[..n] == events[..n] && prefix[n..] == [events[n]];
    var middle := After(s, ttl, events, n);
    assert Run(middle, ttl, [events[n]]) == Some(After(s, ttl, events, n + 1));
    OneStep(middle, ttl, events[n]);
  }

  lemma WholeRun(s: State, ttl: int, events: seq<Event>)
    requires Run(s, ttl, events).Some?
    ensures Run(s, ttl, events) == Some(After(s, ttl, events, |events|))
  {
    assert events[..|events|] == events;
  }

  lemma Stage(s: State, ttl: int, events: seq<Event>, m: nat, n: nat)
    requires m <= n <= |events| && Run(s, ttl, events).Some? && Inv(s, ttl)
    ensures Extends(After(s, ttl, events, n), After(s, ttl, events, m))
    ensures Inv(After(s, ttl, events, n), ttl)
  {
    hide Step, Inv, Extends, Run;
    RunSplit(s, ttl, events, m);
    RunSplit(s, ttl, events, n);
    var prefix := events[..n];
    RunSplit(s, ttl, prefix, m);
    assert prefix[..m] == events[..m];
    RunKeepsInv(s, ttl, events[..m]);
    RunKeepsInv(After(s, ttl, events, m), ttl, prefix[m..]);
  }

  /** The lock admits one build at a time, and while it is held neither another call nor `Invalidate` proceeds. */
  lemma OneBuildAtATime(s: State, ttl: int, events: seq<Event>, id: Id, other: Id)
    requires Init(s) && Run(s, ttl, events).Some?
    requires var calls := Run(s, ttl, events).value.calls;
             id in calls && other in calls && calls[id].Building? && calls[other].Building?
    ensures id == other && Step(Run(s, ttl, events).value, ttl, Invalidate).None?
  {
    InitInv(s, ttl);
    RunKeepsInv(s, ttl, events);
    var end := Run(s, ttl, events).value;
    assert CallOk(end, ttl, id, end.calls[id]) && CallOk(end, ttl, other, end.calls[other]);
  }

  // ---------- when the cache is used, told from the events ----------

  /** When the call arrived. */
  function ArrivalOf(events: seq<Event>, id: Id): Option<int>
  {
    if events == [] then None
    else
      var e := events[|events| - 1];
      if e.Arrive? && e.id == id then Some(e.at) else ArrivalOf(events[..|events| - 1], id)
  }

  /** The call that took the lock last. */
  function LastEntered(events: seq<Event>): Option<Id>
  {
    if events == [] then None
    else
      var e := events[|events| - 1];
      if e.Enter? then Some(e.caller) else LastEntered(events[..|events| - 1])
  }

  /** The arrival of the call whose build finished last, unless an `Invalidate` came after it. */
  function LastBuilt(events: seq<Event>): Option<int>
  {
    if events == [] then None
    else
      var front, e := events[..|events| - 1], events[|events| - 1];
      if e.Invalidate? then None
      else if e.Finish? && LastEntered(front).Some? then ArrivalOf(front, LastEntered(front).value)
      else LastBuilt(front)
  }

  /** The state knows no more about times than the events tell. */
  ghost predicate Told(s: State, events: seq<Event>)
  {
    && (forall id :: id in s.calls ==> ArrivalOf(events, id) == Some(s.calls[id].now))
    && (s.holder.Some? ==> LastEntered(events) == s.holder)
    && LastBuilt(events) == if s.cached.Some? then Some(s.cachedAt) else None
  }

  lemma StepIsTold(s: State, ttl: int, events: seq<Event>, e: Event)
    requires Told(s, events) && Step(s, ttl, e).Some?
    ensures Told(Step(s, ttl, e).value, events + [e])
  {
    assert (events + [e])[..|events|] == events;
  }

  lemma {:induction false} RunIsTold(s: State, ttl: int, events: seq<Event>)
    requires Init(s) && Run(s, ttl, events).Some?
    ensures Told(Run(s, ttl, events).value, events)
  {
    if events != [] {
      hide Told, Step;
      var n := |events| - 1;
      RunSplit(s, ttl, events, n);
      RunIsTold(s, ttl, events[..n]);
      NextStep(s, ttl, events, n);
      WholeRun(s, ttl, events);
      StepIsTold(After(s, ttl, events, n), ttl, events[..n], events[n]);
      assert events == events[..n] + [events[n]];
    } else {
      assert Told(s, []);
    }
  }

  /**
   * A call that takes the lock is answered from the cache exactly when a build has finished since the last
   * `Invalidate` whose call arrived less than the time to live before it: 30 seconds unless set otherwise.
   */
  lemma CacheIsUsedExactly(s: State, ttl: int, events: seq<Event>, id: Id)
    requires Init(s) && Run(s, ttl, events).Some? && Step(Run(s, ttl, events).value, ttl, Enter(id)).Some?
    ensures ArrivalOf(events, id).Some?
    ensures var next := Step(Run(s, ttl, events).value, ttl, Enter(id)).value;
            id in next.calls &&
            (next.calls[id].Returned? <==>
               LastBuilt(events).Some? &&
               ArrivalOf(events, id).value - LastBuilt(events).value < (if ttl > 0 then ttl else 30 * 1_000_000_000))
  {
    RunIsTold(s, ttl, events);
  }

  /** A failing read ends the build, except of availability and of advisories. */
  lemma FailedReads(s: State, ttl: int, id: Id)
    requires s.holder == Some(id) && id in s.calls && s.calls[id].Building? && |s.calls[id].seen| < 5
    ensures var next := Step(s, ttl, Read(false));
            next.Some? && id in next.value.calls &&
            (next.value.calls[id].Building? <==> |s.calls[id].seen| in {2, 4}) &&
            (next.value.calls[id].Returned? ==> next.value.calls[id].answer == None && next.value.holder == None)
  {
    assert READ_ORDER[0] == Published && READ_ORDER[1] == Withdrawn && READ_ORDER[2] == Availability &&
           READ_ORDER[3] == Tools && READ_ORDER[4] == Advisories;
  }

  /** Whatever a call is given, its artifacts, withdrawals and tools have been read. */
  lemma AnswersAreComplete(s: State, ttl: int, events: seq<Event>, id: Id)
    requires Init(s) && Run(s, ttl, events).Some? && id in Run(s, ttl, events).value.calls
    ensures var c := Run(s, ttl, events).value.calls[id];
            c.Returned? && c.answer.Some? ==>
              |c.answer.value.seen| == 5 && c.answer.value.seen[0].Some? && c.answer.value.seen[1].Some? &&
              c.answer.value.seen[3].Some?
  {
    InitInv(s, ttl);
    RunKeepsInv(s, ttl, events);
    var end := Run(s, ttl, events).value;
    assert CallOk(end, ttl, id, end.calls[id]);
    assert READ_ORDER[0] == Published && READ_ORDER[1] == Withdrawn && READ_ORDER[3] == Tools;
  }

  // ---------- what does not hold ----------

  const EMPTY := State([], 0, None, 0, None, map[])

  /** An advisory is published and the cache discarded; then a build fails to read the advisories. */
  const LOST_ADVISORY: seq<Event> := [
    Commit({Advisories}), Invalidate, Arrive(1, 0), Enter(1),
    Read(true), Read(true), Read(true), Read(true), Read(false), Finish,
    Arrive(2, 1), Enter(2)]

  /** The run is possible, and ends with a call that was given a snapshot without a change settled before it. */
  predicate MissesSettledChange(run: Option<State>, id: Id, k: nat)
  {
    run.Some? && id in run.value.calls && k < run.value.calls[id].needs && k < |run.value.changes| &&
    match run.value.calls[id]
    case Returned(_, _, Some(snapshot)) => |snapshot.seen| == |READ_ORDER| && !Shows(snapshot, run.value.changes, k)
    case _ => false
  }

  /**
   * The incomplete snapshot is cached all the same: a later call, too, is answered without the advisory,
   * although its change was settled before either call.
   */
  lemma SettledChangeCanBeMissing()
    ensures Init(EMPTY) && MissesSettledChange(Run(EMPTY, 0, LOST_ADVISORY), 1, 0)
    ensures MissesSettledChange(Run(EMPTY, 0, LOST_ADVISORY), 2, 0)
  {
    hide Step, Run, Shows;
    var waiting, given := Waiting(1, 0), Returned(1, 0, Some(INCOMPLETE));
    var begun := State([{Advisories}], 1, None, 0, None, map[1 := waiting]);
    var built := begun.(cached := Some(INCOMPLETE), calls := map[1 := given]);
    var asked := built.(calls := map[1 := given, 2 := Waiting(1, 1)]);
    var end := built.(calls := map[1 := given, 2 := Returned(1, 1, Some(INCOMPLETE))]);
    var states := [EMPTY, EMPTY.(changes := [{Advisories}]), begun.(calls := map[]), begun,
                   Reading(0), Reading(1), Reading(2), Reading(3), Reading(4), Reading(5), built, asked, end];
    Opening();
    FiveReads();
    Closing();
    forall n | 0 <= n < |LOST_ADVISORY| ensures Step(states[n], 0, LOST_ADVISORY[n]) == Some(states[n + 1]) {}
    RunOfStates(states, 0, LOST_ADVISORY);
    Misses();
  }

  const INCOMPLETE := Snapshot([Some(1), Some(1), Some(1), Some(1), None], 0)

  function Reading(n: nat): State
    requires n <= 5
  {
    State([{Advisories}], 1, None, 0, Some(1), map[1 := Building(1, 0, INCOMPLETE.seen[..n])])
  }

  lemma Opening()
    ensures var s1 := EMPTY.(changes := [{Advisories}]);
            var s2 := State([{Advisories}], 1, None, 0, None, map[]);
            var s3 := s2.(calls := map[1 := Waiting(1, 0)]);
            Step(EMPTY, 0, Commit({Advisories})) == Some(s1) && Step(s1, 0, Invalidate) == Some(s2) &&
            Step(s2, 0, Arrive(1, 0)) == Some(s3) && Step(s3, 0, Enter(1)) == Some(Reading(0))
  {
    assert EMPTY.changes + [{Advisories}] == [{Advisories}];
    assert INCOMPLETE.seen[..0] == [];
    assert map[1 := Waiting(1, 0)][1 := Building(1, 0, [])] == map[1 := Building(1, 0, [])];
  }

  lemma FiveReads()
    ensures forall n :: 0 <= n < 5 ==> Step(Reading(n), 0, Read(n < 4)) == Some(Reading(n + 1))
  {
    forall n | 0 <= n < 5 ensures Step(Reading(n), 0, Read(n < 4)) == Some(Reading(n + 1)) {
      assert INCOMPLETE.seen[..n + 1] == INCOMPLETE.seen[..n] + [INCOMPLETE.seen[n]];
      assert Reading(n).calls[1 := Building(1, 0, INCOMPLETE.seen[..n + 1])] == Reading(n + 1).calls;
    }
  }

  lemma Closing()
    ensures var given := Returned(1, 0, Some(INCOMPLETE));
            var built := State([{Advisories}], 1, Some(INCOMPLETE), 0, None, map[1 := given]);
            var asked := built.(calls := map[1 := given, 2 := Waiting(1, 1)]);
            var end := built.(calls := map[1 := given, 2 := Returned(1, 1, Some(INCOMPLETE))]);
            Step(Reading(5), 0, Finish) == Some(built) && Step(built, 0, Arrive(2, 1)) == Some(asked) &&
            Step(asked, 0, Enter(2)) == Some(end)
  {
    var given := Returned(1, 0, Some(INCOMPLETE));
    assert INCOMPLETE.seen[..5] == INCOMPLETE.seen;
    assert Reading(5).calls[1 := given] == map[1 := given];
    assert map[1 := given][2 := Waiting(1, 1)] == map[1 := given, 2 := Waiting(1, 1)];
    assert map[1 := given, 2 := Waiting(1, 1)][2 := Returned(1, 1, Some(INCOMPLETE))]
        == map[1 := given, 2 := Returned(1, 1, Some(INCOMPLETE))];
  }

  lemma Misses()
    ensures !Shows(INCOMPLETE, [{Advisories}], 0)
  {
    assert READ_ORDER[4] == Advisories && INCOMPLETE.seen[4].None?;
  }

  lemma {:induction false} RunOfStates(states: seq<State>, ttl: int, events: seq<Event>)
    requires |states| == |events| + 1
    requires forall n :: 0 <= n < |events| ==> Step(states[n], ttl, events[n]) == Some(states[n + 1])
    ensures Run(states[0], ttl, events) == Some(states[|events|])
    decreases |events|
  {
    hide Step;
    if events != [] {
      RunOfStates(states[1..], ttl, events[1..]);
    }
  }

  // ---------- the service itself ----------

  function Commits(batch: seq<set<Component>>): (events: seq<Event>)
    ensures |events| == |batch| && forall i :: 0 <= i < |batch| ==> events[i] == Commit(batch[i])
  {
    seq(|batch|, i requires 0 <= i < |batch| => Commit(batch[i]))
  }

  lemma {:induction false} RunCommits(s: State, ttl: int, batch: seq<set<Component>>)
    ensures Run(s, ttl, Commits(batch)) == Some(s.(changes := s.changes + batch))
    decreases |batch|
  {
    if batch == [] {
      assert s.changes + batch == s.changes;
    } else {
      RunCommits(s.(changes := s.changes + [batch[0]]), ttl, batch[1..]);
      assert Commits(batch)[1..] == Commits(batch[1..]);
      assert s.changes + [batch[0]] + batch[1..] == s.changes + batch;
    }
  }

  /** What happens while the lock is held, from read `i` on: commits, then the read, up to a failure that counts. */
  function BuildEvents(batches: seq<seq<set<Component>>>, ok: seq<bool>, i: nat): seq<Event>
    requires |batches| == |ok| == |READ_ORDER| && i <= |READ_ORDER|
    decreases |READ_ORDER| - i
  {
    if i == |READ_ORDER| then [Finish]
    else
      Commits(batches[i]) + ([Read(ok[i])] +
      if ok[i] || FailureTolerated(READ_ORDER[i]) then BuildEvents(batches, ok, i + 1) else [])
  }

  class Service {
    const ttl: int
    var cached: Option<Snapshot>
    var cachedAt: int

    constructor (ttl: int)
      ensures this.ttl == ttl && cached.None?
    {
      this.ttl, cached, cachedAt := ttl, None, 0;
    }

    ghost predicate Mirrors(s: State)
      reads this
    {
      cached == s.cached && cachedAt == s.cachedAt
    }

    method Discard(ghost s: State)
      requires Mirrors(s) && s.holder.None?
      modifies this
      ensures Step(s, ttl, Invalidate).Some? && Mirrors(Step(s, ttl, Invalidate).value)
    {
      cached := None;
    }

    /**
     * A call that has come to hold the lock, with the changes committed before each of its reads and what
     * becomes of the reads. Its steps are a run of the system above, which ends with the same cache and
     * the same answer.
     */
    method CachedSnapshot(now: int, committed: nat, batches: seq<seq<set<Component>>>, ok: seq<bool>, ghost s: State,
                          ghost id: Id)
      returns (answer: Option<Snapshot>, ghost end: State)
      requires Mirrors(s) && committed == |s.changes| && |batches| == |ok| == |READ_ORDER|
      requires s.holder.None? && id in s.calls && s.calls[id].Waiting? && s.calls[id].now == now
      modifies this
      ensures Run(s, ttl, [Enter(id)] + if Fresh(s, ttl, now) then [] else BuildEvents(batches, ok, 0)) == Some(end)
      ensures Mirrors(end) && end.holder.None? && id in end.calls
      ensures end.calls[id] == Returned(s.calls[id].needs, now, answer)
    {
      ghost var needs := s.calls[id].needs;
      OneStep(s, ttl, Enter(id));
      end := Step(s, ttl, Enter(id)).value;
      if cached.Some? && now - cachedAt < EffectiveTtl(ttl) {
        assert [Enter(id)] + [] == [Enter(id)];
        return cached, end;
      }
      RunThen(s, ttl, [Enter(id)], BuildEvents(batches, ok, 0));
      ghost var run := Run(end, ttl, BuildEvents(batches, ok, 0));
      var seen: Reads := [];
      var count := committed;
      for i := 0 to |READ_ORDER|
        invariant |seen| == i && count == |end.changes|
        invariant Run(end, ttl, BuildEvents(batches, ok, i)) == run && Mirrors(end) && end.holder == Some(id)
        invariant id in end.calls && end.calls[id] == Building(needs, now, seen)
      {
        hide Step, Run;
        count := count + |batches[i]|;
        end := ReadStep(end, ttl, batches, ok, i, id);
        if ok[i] {
          seen := seen + [Some(count)];
        } else if FailureTolerated(READ_ORDER[i]) {
          seen := seen + [None];
        } else {
          return None, end;
        }
      }
      OneStep(end, ttl, Finish);
      end := Step(end, ttl, Finish).value;
      cached, cachedAt := Some(Snapshot(seen, now)), now;
      return cached, end;
    }
  }

  /** The commits before read `i`, and the read. */
  lemma ReadStep(s: State, ttl: int, batches: seq<seq<set<Component>>>, ok: seq<bool>, i: nat, id: Id)
    returns (end: State)
    requires |batches| == |ok| == |READ_ORDER| && i < |READ_ORDER| && s.holder == Some(id)
    requires id in s.calls && s.calls[id].Building? && |s.calls[id].seen| == i
    ensures end.cached == s.cached && end.cachedAt == s.cachedAt && id in end.calls
    ensures end.changes == s.changes + batches[i]
    ensures var (c, proceeds) := (s.calls[id], ok[i] || FailureTolerated(READ_ORDER[i]));
            (proceeds ==>
               end.holder == Some(id) &&
               end.calls[id] == c.(seen := c.seen + [if ok[i] then Some(|end.changes|) else None]) &&
               Run(s, ttl, BuildEvents(batches, ok, i)) == Run(end, ttl, BuildEvents(batches, ok, i + 1))) &&
            (!proceeds ==>
               end.holder.None? && end.calls[id] == Returned(c.needs, c.now, None) &&
               Run(s, ttl, BuildEvents(batches, ok, i)) == Some(end))
  {
    var read := Read(ok[i]);
    var rest := if ok[i] || FailureTolerated(READ_ORDER[i]) then BuildEvents(batches, ok, i + 1) else [];
    var changed := s.(changes := s.changes + batches[i]);
    RunCommits(s, ttl, batches[i]);
    RunThen(s, ttl, Commits(batches[i]), [read] + rest);
    OneStep(changed, ttl, read);
    RunThen(changed, ttl, [read], rest);
    end := Step(changed, ttl, read).value;
  }
}
