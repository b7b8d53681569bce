/**
 * The background availability sweep: each round probes the longest-unchecked due objects, at most
 * `maxPerSweep` of them. Times are instants as integers; the zero time stands before every sweep.
 */
module Availability {
  import opened Wrappers
  import opened Sorting

  // ---------- records and probes ----------

  datatype Status = Healthy | Degraded | Unavailable

  datatype Category = NoError | SizeMismatch | Timeout | NotFound | StorageError

  datatype Check = Check(status: Status, lastSuccessAt: Option<int>, lastFailureAt: Option<int>,
                         consecutiveFailures: nat, category: Category, checkedAt: int, expiresAt: int)

  type Records = map<string, Check>

  datatype Artifact = Artifact(sha: string, size: nat)

  /** What the storage answers for one object's metadata. */
  datatype Head = Found(size: nat) | Gone | DeadlineExceeded | Failed

  datatype Config = Config(ttl: int, recheckAfter: int, maxPerSweep: nat, failureThreshold: int)

  /** The world of one sweep: storage answers, database calls that fail, and when the caller gives up. */
  datatype World = World(head: string -> Head, unreadable: set<string>, unwritable: set<string>, cancelAfter: nat)

  datatype Todo = Todo(sha: string, size: nat, checkedAt: int, prev: Option<Check>)

  const ZERO_TIME := 0

  function Read(records: Records, w: World, sha: string): Option<Check>
  {
    if sha in records && sha !in w.unreadable then Some(records[sha]) else None
  }

  /** The outcome of one probe: whether it counts as healthy, and the error category. */
  function Classify(h: Head, wantSize: nat): Category
  {
    match h
    case Found(size) => if size == wantSize then NoError else SizeMismatch
    case Gone => NotFound
    case DeadlineExceeded => Timeout
    case Failed => StorageError
  }

  function CheckOne(c: Config, item: Todo, h: Head, now: int): Check
  {
    var category := Classify(h, item.size);
    var failures := if item.prev.Some? then item.prev.value.consecutiveFailures else 0;
    var lastSuccess := if item.prev.Some? then item.prev.value.lastSuccessAt else None;
    var lastFailure := if item.prev.Some? then item.prev.value.lastFailureAt else None;
    if category.NoError? then
      Check(Healthy, Some(now), lastFailure, 0, category, now, now + c.ttl)
    else
      var status := if category.SizeMismatch? || category.NotFound? || failures + 1 >= c.failureThreshold
                    then Unavailable else Degraded;
      Check(status, lastSuccess, Some(now), failures + 1, category, now, now + c.ttl)
  }

  // ---------- one sweep ----------

  /** The due artifacts with the time they were last checked, in listing order. */
  function Due(c: Config, records: Records, arts: seq<Artifact>, w: World, now: int): seq<Todo>
  {
    if arts == [] then []
    else
      var a, rest := arts[|arts| - 1], Due(c, records, arts[..|arts| - 1], w, now);
      var prev := Read(records, w, a.sha);
      if prev.Some? && now - prev.value.checkedAt < c.recheckAfter then rest
      else rest + [Todo(a.sha, a.size, if prev.Some? then prev.value.checkedAt else ZERO_TIME, prev)]
  }

  predicate OlderFirst(a: Todo, b: Todo)
  {
    a.checkedAt <= b.checkedAt
  }

  /** A possible work queue: the due artifacts oldest first, ties in any order. */
  ghost predicate IsQueue(c: Config, records: Records, arts: seq<Artifact>, w: World, now: int, queue: seq<Todo>)
  {
    multiset(queue) == multiset(Due(c, records, arts, w, now)) && Sorted(queue, OlderFirst)
  }

  function AfterProbes(c: Config, records: Records, probed: seq<Todo>, w: World, now: int): Records
  {
    if probed == [] then records
    else
      var before := AfterProbes(c, records, probed[..|probed| - 1], w, now);
      var item := probed[|probed| - 1];
      if item.sha in w.unwritable then before else before[item.sha := CheckOne(c, item, w.head(item.sha), now)]
  }

  /** The library sort: not stable, so callers may rely on the order but not on how ties fall. */
  method SortByAge(queue: seq<Todo>) returns (sorted: seq<Todo>)
    ensures multiset(sorted) == multiset(queue) && Sorted(sorted, OlderFirst)
  {
    SortSorts(queue, OlderFirst);
    sorted := Sort(queue, OlderFirst);
  }

  function Min(a: nat, b: nat): nat
  {
    if a < b then a else b
  }

  lemma DueStep(c: Config, records: Records, arts: seq<Artifact>, i: nat, w: World, now: int)
    requires i < |arts|
    ensures var a := arts[i];
            var prev := Read(records, w, a.sha);
            Due(c, records, arts[..i + 1], w, now) == Due(c, records, arts[..i], w, now) +
            if prev.Some? && now - prev.value.checkedAt < c.recheckAfter then []
            else [Todo(a.sha, a.size, if prev.Some? then prev.value.checkedAt else ZERO_TIME, prev)]
  {
    assert arts[..i + 1][..i] == arts[..i];
  }

  lemma ProbeStep(c: Config, records: Records, queue: seq<Todo>, k: nat, w: World, now: int)
    requires k < |queue|
    ensures var before := AfterProbes(c, records, queue[..k], w, now);
            AfterProbes(c, records, queue[..k + 1], w, now) ==
            if queue[k].sha in w.unwritable then before
            else before[queue[k].sha := CheckOne(c, queue[k], w.head(queue[k].sha), now)]
  {
    assert queue[..k + 1][..k] == queue[..k];
  }

  lemma NoWork(c: Config, records: Records, queue: seq<Todo>, arts: seq<Artifact>, w: World, now: int)
    ensures AfterProbes(c, records, queue[..0], w, now) == records && Due(c, records, arts[..0], w, now) == []
  {
  }

  class Checker {
    const config: Config
    var records: Records

    constructor (config: Config)
      ensures this.config == config && records == map[]
    {
      this.config, this.records := config, map[];
    }

    /** One round. Only the head of the queue is probed, and the records change by exactly those probes. */
    method Sweep(arts: seq<Artifact>, w: World, now: int)
      returns (checked: nat, cancelled: bool, ghost queue: seq<Todo>)
      modifies this
      ensures IsQueue(config, old(records), arts, w, now, queue)
      ensures checked == Min(Min(|queue|, config.maxPerSweep), w.cancelAfter)
      ensures cancelled <==> w.cancelAfter < Min(|queue|, config.maxPerSweep)
      ensures records == AfterProbes(config, old(records), queue[..checked], w, now)
    {
      hide AfterProbes, CheckOne, Due;
      var due: seq<Todo> := [];
      NoWork(config, records, [], arts, w, now);
      for i := 0 to |arts|
        invariant due == Due(config, records, arts[..i], w, now) && records == old(records)
      {
        var a := arts[i];
        DueStep(config, records, arts, i, w, now);
        var prev := Read(records, w, a.sha);
        if prev.Some? && now - prev.value.checkedAt < config.recheckAfter { continue; }
        due := due + [Todo(a.sha, a.size, if prev.Some? then prev.value.checkedAt else ZERO_TIME, prev)];
      }
      assert arts[..|arts|] == arts;
      var work := SortByAge(due);
      queue := work;
      if |work| > config.maxPerSweep { work := work[..config.maxPerSweep]; }
      checked, cancelled := 0, false;
      NoWork(config, records, queue, arts, w, now);
      while checked < |work|
        invariant checked <= |work| && checked <= w.cancelAfter && queue[..|work|] == work
        invariant records == AfterProbes(config, old(records), queue[..checked], w, now)
      {
        if checked == w.cancelAfter {
          cancelled := true;
          return;
        }
        var item := work[checked];
        ProbeStep(config, old(records), queue, checked, w, now);
        assert queue[checked] == work[checked] by { assert queue[..|work|][checked] == queue[checked]; }
        if item.sha !in w.unwritable {
          records := records[item.sha := CheckOne(config, item, w.head(item.sha), now)];
        }
        checked := checked + 1;
      }
    }
  }

  // ---------- runs of sweeps ----------

  /** One sweep of a history: its inputs and the queue it happened to build. */
  datatype Round = Round(arts: seq<Artifact>, world: World, now: int, queue: seq<Todo>)

  function Shas(arts: seq<Artifact>): set<string>
  {
    set a | a in arts :: a.sha
  }

  predicate DistinctShas(arts: seq<Artifact>)
  {
    forall i, j :: 0 <= i < j < |arts| ==> arts[i].sha != arts[j].sha
  }

  /** A sweep of distinct objects; any database call may fail and the caller may give up. */
  ghost predicate IsSweep(c: Config, records: Records, r: Round)
  {
    IsQueue(c, records, r.arts, r.world, r.now, r.queue) && DistinctShas(r.arts)
  }

  /** The items a sweep gets to. */
  function Probed(c: Config, r: Round): seq<Todo>
  {
    r.queue[..Min(Min(|r.queue|, c.maxPerSweep), r.world.cancelAfter)]
  }

  function ProbedShas(c: Config, r: Round): set<string>
  {
    set t | t in Probed(c, r) :: t.sha
  }

  function AfterRound(c: Config, records: Records, r: Round): Records
  {
    AfterProbes(c, records, Probed(c, r), r.world, r.now)
  }

  function Run(c: Config, records: Records, rounds: seq<Round>): Records
  {
    if rounds == [] then records
    else AfterRound(c, Run(c, records, rounds[..|rounds| - 1]), rounds[|rounds| - 1])
  }

  /** Sweeps one after the other, at positive and strictly increasing times. */
  ghost predicate IsRun(c: Config, records: Records, rounds: seq<Round>)
  {
    rounds == [] ||
    (var n := |rounds| - 1;
     && IsRun(c, records, rounds[..n])
     && IsSweep(c, Run(c, records, rounds[..n]), rounds[n])
     && rounds[n].now > 0 && (n > 0 ==> rounds[n].now > rounds[n - 1].now))
  }

  lemma RunStep(c: Config, records: Records, rounds: seq<Round>)
    requires rounds != [] && IsRun(c, records, rounds)
    ensures var (front, r) := (rounds[..|rounds| - 1], rounds[|rounds| - 1]);
            IsRun(c, records, front) && IsSweep(c, Run(c, records, front), r) && r.now > 0 &&
            (front != [] ==> r.now > front[|front| - 1].now) &&
            Run(c, records, rounds) == AfterRound(c, Run(c, records, front), r)
  {
  }

  // ---------- what a sweep sees ----------

  function At(records: Records, sha: string): int
  {
    if sha in records then records[sha].checkedAt else ZERO_TIME
  }

  predicate IsDue(c: Config, records: Records, sha: string, now: int)
  {
    sha !in records || now - records[sha].checkedAt >= c.recheckAfter
  }

  /** The age a sweep sees: an unreadable record looks like none. */
  function SeenAt(records: Records, w: World, sha: string): int
  {
    if sha in w.unreadable then ZERO_TIME else At(records, sha)
  }

  predicate SeenDue(c: Config, records: Records, w: World, sha: string, now: int)
  {
    sha in w.unreadable || IsDue(c, records, sha, now)
  }

  /** The queue holds each published object that looks due once, with the age and record that the sweep sees. */
  lemma {:induction false} DueMembers(c: Config, records: Records, arts: seq<Artifact>, w: World, now: int)
    ensures forall t :: t in Due(c, records, arts, w, now) ==>
              Artifact(t.sha, t.size) in arts && SeenDue(c, records, w, t.sha, now) &&
              t.checkedAt == SeenAt(records, w, t.sha) && t.prev == Read(records, w, t.sha)
    ensures forall a :: a in arts && SeenDue(c, records, w, a.sha, now) ==>
              Todo(a.sha, a.size, SeenAt(records, w, a.sha), Read(records, w, a.sha)) in Due(c, records, arts, w, now)
  {
    if arts != [] {
      var front, a := arts[..|arts| - 1], arts[|arts| - 1];
      DueMembers(c, records, front, w, now);
      assert arts == front + [a];
    }
  }

  lemma {:induction false} DueDistinct(c: Config, records: Records, arts: seq<Artifact>, w: World, now: int)
    requires DistinctShas(arts)
    ensures DistinctItems(Due(c, records, arts, w, now))
  {
    if arts != [] {
      var front := arts[..|arts| - 1];
      DueDistinct(c, records, front, w, now);
      DueMembers(c, records, front, w, now);
      assert forall t :: t in Due(c, records, front, w, now) ==> Artifact(t.sha, t.size) in front;
    }
  }

  predicate DistinctItems(queue: seq<Todo>)
  {
    forall i, j :: 0 <= i < j < |queue| ==> queue[i].sha != queue[j].sha
  }

  lemma QueueMembers(c: Config, records: Records, r: Round)
    requires IsSweep(c, records, r)
    ensures forall t :: t in r.queue ==>
              Artifact(t.sha, t.size) in r.arts && SeenDue(c, records, r.world, t.sha, r.now) &&
              t.checkedAt == SeenAt(records, r.world, t.sha) && t.prev == Read(records, r.world, t.sha)
    ensures forall a :: a in r.arts && SeenDue(c, records, r.world, a.sha, r.now) ==>
              Todo(a.sha, a.size, SeenAt(records, r.world, a.sha), Read(records, r.world, a.sha)) in r.queue
    ensures DistinctItems(r.queue) && DistinctItems(Probed(c, r))
  {
    hide SeenDue, SeenAt, Read;
    var due := Due(c, records, r.arts, r.world, r.now);
    DueMembers(c, records, r.arts, r.world, r.now);
    DueDistinct(c, records, r.arts, r.world, r.now);
    forall t ensures t in due <==> t in r.queue { SameElements(due, r.queue, t); }
    DistinctPermutation(due, r.queue);
    assert forall i :: 0 <= i < |r.queue| ==> r.queue[i] in due;
  }

  /** The records of objects that are not probed, or cannot be written, stay. */
  lemma {:induction false} OtherRecordsStay(c: Config, records: Records, probed: seq<Todo>, w: World, now: int,
                                            s: string)
    requires s in w.unwritable || forall t :: t in probed ==> t.sha != s
    ensures var after := AfterProbes(c, records, probed, w, now);
            (s in after <==> s in records) && (s in after ==> after[s] == records[s])
  {
    if probed != [] {
      hide CheckOne;
      var front, item := probed[..|probed| - 1], probed[|probed| - 1];
      assert item in probed && forall t :: t in front ==> t in probed;
      OtherRecordsStay(c, records, front, w, now, s);
    }
  }

  /** A probe of distinct objects is recorded, unless the write fails. */
  lemma {:induction false} ProbeIsRecorded(c: Config, records: Records, probed: seq<Todo>, w: World, now: int,
                                           k: nat)
    requires DistinctItems(probed) && k < |probed| && probed[k].sha !in w.unwritable
    ensures var after, t := AfterProbes(c, records, probed, w, now), probed[k];
            t.sha in after && after[t.sha] == CheckOne(c, t, w.head(t.sha), now)
    decreases |probed|
  {
    hide CheckOne;
    var n := |probed| - 1;
    if k < n {
      assert probed[..n][k] == probed[k];
      ProbeIsRecorded(c, records, probed[..n], w, now, k);
      assert probed[n].sha != probed[k].sha;
    }
  }

  /** Probes of distinct objects write exactly their own records, as far as the writes succeed. */
  lemma ProbeEffect(c: Config, records: Records, probed: seq<Todo>, w: World, now: int)
    requires DistinctItems(probed)
    ensures var after := AfterProbes(c, records, probed, w, now);
            && (forall t :: t in probed && t.sha !in w.unwritable ==>
                  t.sha in after && after[t.sha] == CheckOne(c, t, w.head(t.sha), now))
            && forall s :: s in w.unwritable || (forall t :: t in probed ==> t.sha != s) ==>
                 (s in after <==> s in records) && (s in after ==> after[s] == records[s])
  {
    hide AfterProbes, CheckOne;
    var after := AfterProbes(c, records, probed, w, now);
    forall t | t in probed && t.sha !in w.unwritable
      ensures t.sha in after && after[t.sha] == CheckOne(c, t, w.head(t.sha), now)
    {
      var k: nat :| k < |probed| && probed[k] == t;
      ProbeIsRecorded(c, records, probed, w, now, k);
    }
    forall s | s in w.unwritable || forall t :: t in probed ==> t.sha != s
      ensures (s in after <==> s in records) && (s in after ==> after[s] == records[s])
    {
      OtherRecordsStay(c, records, probed, w, now, s);
    }
  }

  /** A round moves exactly the objects it probes and can record; all others keep their records. */
  lemma RoundEffect(c: Config, records: Records, r: Round)
    requires IsSweep(c, records, r)
    ensures var after := AfterRound(c, records, r);
            && (forall p :: p in ProbedShas(c, r) && p !in r.world.unwritable ==> p in after && At(after, p) == r.now)
            && forall p :: p !in ProbedShas(c, r) || p in r.world.unwritable ==>
                 (p in after <==> p in records) && (p in after ==> after[p] == records[p])
  {
    hide SeenDue, SeenAt, Read, IsQueue;
    QueueMembers(c, records, r);
    var probed := Probed(c, r);
    ProbeEffect(c, records, probed, r.world, r.now);
    forall p | p !in ProbedShas(c, r) ensures forall t :: t in probed ==> t.sha != p {
      forall t | t in probed ensures t.sha != p { assert t.sha in ProbedShas(c, r); }
    }
  }

  // ---------- fairness ----------

  /** The other objects that stand at or before `sha` in the order of the records. */
  function Ahead(records: Records, universe: set<string>, sha: string): set<string>
  {
    set p | p in universe && p != sha && At(records, p) <= At(records, sha)
  }

  /** The objects a sweep probes, reads and records. */
  function Advanced(c: Config, r: Round): set<string>
  {
    set p | p in ProbedShas(c, r) && p !in r.world.unreadable && p !in r.world.unwritable
  }

  /** How many objects have been probed, read and recorded over a run, counting each round by itself. */
  function Advances(c: Config, rounds: seq<Round>): nat
  {
    if rounds == [] then 0 else Advances(c, rounds[..|rounds| - 1]) + |Advanced(c, rounds[|rounds| - 1])|
  }

  lemma InPrefix(c: Config, r: Round, k: nat)
    requires k < |Probed(c, r)|
    ensures r.queue[k] in Probed(c, r) && r.queue[k].sha in ProbedShas(c, r)
  {
    assert Probed(c, r)[k] == r.queue[k];
  }

  /** When an object that is due is not probed, all that is probed stood ahead of it, and nothing was left out. */
  lemma PassedOver(c: Config, records: Records, r: Round, sha: string)
    requires IsSweep(c, records, r)
    requires sha in Shas(r.arts) && SeenDue(c, records, r.world, sha, r.now) && sha !in ProbedShas(c, r)
    ensures |Probed(c, r)| == Min(c.maxPerSweep, r.world.cancelAfter)
    ensures forall t :: t in Probed(c, r) ==>
              t.sha in Shas(r.arts) && t.sha != sha && SeenAt(records, r.world, t.sha) <= SeenAt(records, r.world, sha)
  {
    hide SeenDue, SeenAt;
    QueueMembers(c, records, r);
    var probed := Probed(c, r);
    var a :| a in r.arts && a.sha == sha;
    var own := Todo(sha, a.size, SeenAt(records, r.world, sha), Read(records, r.world, sha));
    var k: nat :| k < |r.queue| && r.queue[k] == own;
    if k < |probed| { InPrefix(c, r, k); }
    forall t | t in probed
      ensures t.sha in Shas(r.arts) && t.sha != sha && SeenAt(records, r.world, t.sha) <= SeenAt(records, r.world, sha)
    {
      var i :| 0 <= i < |probed| && probed[i] == t;
      assert OlderFirst(r.queue[i], r.queue[k]);
      assert Artifact(t.sha, t.size) in r.arts;
      assert t.sha in ProbedShas(c, r);
    }
  }

  /** A due object that is passed over keeps its place, and all that was read and recorded moves behind it. */
  lemma PlaceImproves(c: Config, records: Records, r: Round, universe: set<string>, sha: string)
    requires IsSweep(c, records, r) && Shas(r.arts) <= universe && 0 <= At(records, sha) < r.now
    requires sha in Shas(r.arts) && SeenDue(c, records, r.world, sha, r.now) && sha !in ProbedShas(c, r)
    ensures var after := AfterRound(c, records, r);
            && (sha in after <==> sha in records) && At(after, sha) == At(records, sha)
            && |Ahead(after, universe, sha)| + |Advanced(c, r)| <= |Ahead(records, universe, sha)|
  {
    hide IsSweep, SeenDue, AfterRound, Probed;
    PassedOver(c, records, r, sha);
    RoundEffect(c, records, r);
    var after := AfterRound(c, records, r);
    var moved := Advanced(c, r);
    forall p | p in moved ensures p in Ahead(records, universe, sha) && p !in Ahead(after, universe, sha) {
      var t :| t in Probed(c, r) && t.sha == p;
    }
    forall p | p in Ahead(after, universe, sha) ensures p in Ahead(records, universe, sha) {
      assert p in ProbedShas(c, r) && p !in r.world.unwritable ==> At(after, p) == r.now;
    }
    assert Ahead(after, universe, sha) <= Ahead(records, universe, sha) - moved;
    SubsetSize(Ahead(after, universe, sha), Ahead(records, universe, sha) - moved);
  }

  lemma SubsetSize(a: set<string>, b: set<string>)
    requires a <= b
    ensures |a| <= |b|
  {
    assert b == a + (b - a);
  }

  /** Published in every round, and never probed. */
  ghost predicate NeverProbed(c: Config, rounds: seq<Round>, universe: set<string>, sha: string)
  {
    forall r :: r in rounds ==> sha in Shas(r.arts) && Shas(r.arts) <= universe && sha !in ProbedShas(c, r)
  }

  lemma {:induction false} PlaceImprovesOverRun(c: Config, records: Records, rounds: seq<Round>,
                                                universe: set<string>, sha: string)
    requires IsRun(c, records, rounds) && rounds != [] && c.recheckAfter > 0 && 0 <= At(records, sha)
    requires NeverProbed(c, rounds, universe, sha) && IsDue(c, records, sha, rounds[0].now)
    ensures var after := Run(c, records, rounds);
            && (sha in after <==> sha in records) && At(after, sha) == At(records, sha)
            && rounds[0].now <= rounds[|rounds| - 1].now
            && |Ahead(after, universe, sha)| + Advances(c, rounds) <= |Ahead(records, universe, sha)|
  {
    hide IsRun, Run, IsSweep, AfterRound, NeverProbed, ProbedShas, Ahead, Advanced, Shas;
    var n := |rounds| - 1;
    var front, r := rounds[..n], rounds[n];
    RunStep(c, records, rounds);
    NeverProbedSplits(c, rounds, universe, sha);
    RunOfNone(c, records, front);
    if n > 0 {
      PlaceImprovesOverRun(c, records, front, universe, sha);
      assert front[0] == rounds[0] && front[n - 1] == rounds[n - 1];
    }
    PlaceImproves(c, Run(c, records, front), r, universe, sha);
  }

  lemma RunOfNone(c: Config, records: Records, rounds: seq<Round>)
    ensures rounds == [] ==> Run(c, records, rounds) == records
  {
  }

  /**
   * Fairness under faults: an object that is due and stays published is probed before as many probes as there
   * are objects have been read and recorded, whatever database calls fail and wherever sweeps are cut short.
   */
  lemma DueObjectIsProbedDespiteFaults(c: Config, records: Records, rounds: seq<Round>, universe: set<string>,
                                       sha: string)
    requires IsRun(c, records, rounds) && c.recheckAfter > 0 && 0 <= At(records, sha)
    requires forall r :: r in rounds ==> sha in Shas(r.arts) && Shas(r.arts) <= universe
    requires rounds != [] ==> IsDue(c, records, sha, rounds[0].now)
    requires universe != {} && Advances(c, rounds) >= |universe|
    ensures exists k :: 0 <= k < |rounds| && sha in ProbedShas(c, rounds[k])
  {
    if !exists k :: 0 <= k < |rounds| && sha in ProbedShas(c, rounds[k]) {
      PlaceImprovesOverRun(c, records, rounds, universe, sha);
      assert rounds[0] in rounds;
      assert Ahead(records, universe, sha) <= universe - {sha};
      SubsetSize(Ahead(records, universe, sha), universe - {sha});
    }
  }

  lemma {:induction false} ShaCount(items: seq<Todo>)
    requires DistinctItems(items)
    ensures |set t | t in items :: t.sha| == |items|
  {
    if items != [] {
      var n := |items| - 1;
      ShaCount(items[..n]);
      assert items == items[..n] + [items[n]];
      assert (set t | t in items :: t.sha) == (set t | t in items[..n] :: t.sha) + {items[n].sha};
    }
  }

  /** At most `d` objects of the round cannot be read or recorded, and the caller does not give up. */
  predicate FewFaults(c: Config, r: Round, d: nat)
  {
    |r.world.unreadable + r.world.unwritable| <= d && r.world.cancelAfter >= c.maxPerSweep
  }

  /** A round that passes over a due object is full, so all but `d` of its probes count. */
  lemma FullRoundAdvances(c: Config, records: Records, r: Round, sha: string, d: nat)
    requires IsSweep(c, records, r) && FewFaults(c, r, d)
    requires sha in Shas(r.arts) && SeenDue(c, records, r.world, sha, r.now) && sha !in ProbedShas(c, r)
    ensures |Advanced(c, r)| + d >= c.maxPerSweep
  {
    hide IsSweep, SeenDue, Probed, SeenAt;
    PassedOver(c, records, r, sha);
    ProbedAreDistinct(c, records, r);
    ShaCount(Probed(c, r));
    var faulty := r.world.unreadable + r.world.unwritable;
    assert ProbedShas(c, r) <= Advanced(c, r) + faulty;
    SubsetSize(ProbedShas(c, r), Advanced(c, r) + faulty);
  }

  lemma ProbedAreDistinct(c: Config, records: Records, r: Round)
    requires IsSweep(c, records, r)
    ensures DistinctItems(Probed(c, r))
  {
    QueueMembers(c, records, r);
  }

  /** All but `d` of a full number of probes count. */
  predicate IsFull(c: Config, r: Round, d: nat)
  {
    |Advanced(c, r)| + d >= c.maxPerSweep
  }

  lemma {:induction false} RunPrefix(c: Config, records: Records, rounds: seq<Round>, n: nat)
    requires IsRun(c, records, rounds) && n <= |rounds|
    ensures IsRun(c, records, rounds[..n])
    decreases |rounds|
  {
    hide IsSweep, Run;
    if n == |rounds| {
      assert rounds[..n] == rounds;
    } else {
      var front := rounds[..|rounds| - 1];
      assert front[..n] == rounds[..n];
      RunPrefix(c, records, front, n);
    }
  }

  /** Every round of a run that never probes a due object is full. */
  lemma RoundIsFull(c: Config, records: Records, rounds: seq<Round>, universe: set<string>, sha: string, d: nat, i: nat)
    requires IsRun(c, records, rounds) && c.recheckAfter > 0 && 0 <= At(records, sha)
    requires NeverProbed(c, rounds, universe, sha) && i < |rounds| && IsDue(c, records, sha, rounds[0].now)
    requires FewFaults(c, rounds[i], d)
    ensures IsFull(c, rounds[i], d)
  {
    hide IsRun, Run, IsSweep, Shas, FewFaults, ProbedShas, IsDue, SeenDue, At, Advanced;
    var prefix := rounds[..i + 1];
    RunPrefix(c, records, rounds, i + 1);
    RunStep(c, records, prefix);
    assert prefix[0] == rounds[0] && prefix[i] == rounds[i] && rounds[i] in rounds;
    assert NeverProbed(c, prefix, universe, sha) by { assert forall q :: q in prefix ==> q in rounds; }
    StaysDue(c, records, prefix, universe, sha);
    FullRoundAdvances(c, Run(c, records, prefix[..i]), rounds[i], sha, d);
  }

  lemma NeverProbedSplits(c: Config, rounds: seq<Round>, universe: set<string>, sha: string)
    requires rounds != [] && NeverProbed(c, rounds, universe, sha)
    ensures NeverProbed(c, rounds[..|rounds| - 1], universe, sha)
    ensures var r := rounds[|rounds| - 1]; sha in Shas(r.arts) && Shas(r.arts) <= universe && sha !in ProbedShas(c, r)
  {
    hide Shas, ProbedShas;
    assert rounds[|rounds| - 1] in rounds;
    assert forall q :: q in rounds[..|rounds| - 1] ==> q in rounds;
  }

  /** An object that is never probed still looks due in the last round. */
  lemma StaysDue(c: Config, records: Records, rounds: seq<Round>, universe: set<string>, sha: string)
    requires rounds != [] && IsRun(c, records, rounds) && c.recheckAfter > 0 && 0 <= At(records, sha)
    requires NeverProbed(c, rounds, universe, sha) && IsDue(c, records, sha, rounds[0].now)
    ensures var before, r := Run(c, records, rounds[..|rounds| - 1]), rounds[|rounds| - 1];
            SeenDue(c, before, r.world, sha, r.now) && 0 <= At(before, sha) < r.now
  {
    hide IsRun, Run, IsSweep, NeverProbed, Ahead, Advances;
    var front := rounds[..|rounds| - 1];
    RunStep(c, records, rounds);
    RunOfNone(c, records, front);
    NeverProbedSplits(c, rounds, universe, sha);
    if front != [] { PlaceImprovesOverRun(c, records, front, universe, sha); }
  }

  lemma {:induction false} AdvancesAddUp(c: Config, rounds: seq<Round>, d: nat)
    requires d <= c.maxPerSweep && forall i :: 0 <= i < |rounds| ==> IsFull(c, rounds[i], d)
    ensures Advances(c, rounds) >= |rounds| * (c.maxPerSweep - d)
  {
    if rounds != [] {
      hide Advanced;
      var n := |rounds| - 1;
      assert forall i :: 0 <= i < n ==> rounds[..n][i] == rounds[i];
      AdvancesAddUp(c, rounds[..n], d);
      OneMoreTime(n, c.maxPerSweep - d);
    }
  }

  lemma OneMoreTime(n: nat, m: nat)
    ensures (n + 1) * m == n * m + m
  {
  }

  function CeilDiv(n: nat, m: nat): nat
    requires m >= 1
  {
    (n + m - 1) / m
  }

  lemma CeilDivCovers(n: nat, k: nat, m: nat)
    requires m >= 1 && k >= CeilDiv(n, m)
    ensures k * m >= n
  {
    var q := (n + m - 1) / m;
    assert n + m - 1 == q * m + (n + m - 1) % m;
    assert k * m == q * m + (k - q) * m;
  }

  /**
   * With at most `n` objects around, of which in each sweep at most `d < maxPerSweep` cannot be read or
   * recorded, an object that is due and stays published is probed within `n / (maxPerSweep - d)` sweeps,
   * rounded up.
   */
  lemma DueObjectIsProbedInTime(c: Config, records: Records, rounds: seq<Round>, universe: set<string>, sha: string,
                                d: nat)
    requires IsRun(c, records, rounds) && c.recheckAfter > 0 && 0 <= At(records, sha) && d < c.maxPerSweep
    requires universe != {} && |rounds| >= CeilDiv(|universe|, c.maxPerSweep - d)
    requires forall r :: r in rounds ==> sha in Shas(r.arts) && Shas(r.arts) <= universe && FewFaults(c, r, d)
    requires rounds != [] ==> IsDue(c, records, sha, rounds[0].now)
    ensures exists k :: 0 <= k < |rounds| && sha in ProbedShas(c, rounds[k])
  {
    if !exists k :: 0 <= k < |rounds| && sha in ProbedShas(c, rounds[k]) {
      hide IsRun, IsFull, Advances, ProbedShas, Shas, FewFaults, IsDue;
      CeilDivCovers(|universe|, |rounds|, c.maxPerSweep - d);
      forall i | 0 <= i < |rounds| ensures IsFull(c, rounds[i], d) {
        RoundIsFull(c, records, rounds, universe, sha, d, i);
      }
      AdvancesAddUp(c, rounds, d);
      DueObjectIsProbedDespiteFaults(c, records, rounds, universe, sha);
    }
  }

  // ---------- objects that starve ----------

  /**
   * A recorded object, and others that a sweep always puts before it: a record that cannot be read looks
   * like none, and one that cannot be written never comes to be.
   */
  predicate InTheWay(records: Records, w: World, bad: seq<string>, sha: string, own: Check)
  {
    && sha in records && records[sha] == own && own.checkedAt > 0 && sha !in w.unreadable && sha !in bad
    && forall b :: b in bad ==> b in w.unreadable || (b in w.unwritable && b !in records)
  }

  function Objects(shas: seq<string>): (arts: seq<Artifact>)
    ensures |arts| == |shas| && forall i :: 0 <= i < |arts| ==> arts[i] == Artifact(shas[i], 0)
  {
    seq(|shas|, i requires 0 <= i < |shas| => Artifact(shas[i], 0))
  }

  function NeverChecked(shas: seq<string>): (queue: seq<Todo>)
    ensures |queue| == |shas| && forall i :: 0 <= i < |queue| ==> queue[i] == Todo(shas[i], 0, ZERO_TIME, None)
  {
    seq(|shas|, i requires 0 <= i < |shas| => Todo(shas[i], 0, ZERO_TIME, None))
  }

  function SweepAt(w: World, bad: seq<string>, sha: string, own: Check, now: int): Round
  {
    Round(Objects(bad) + [Artifact(sha, 0)], w, now, NeverChecked(bad) + [Todo(sha, 0, own.checkedAt, Some(own))])
  }

  /** `n` sweeps, one per unit of time from the moment on at which the recorded object is due. */
  function Sweeps(c: Config, w: World, bad: seq<string>, sha: string, own: Check, n: nat): (rounds: seq<Round>)
    ensures |rounds| == n
    ensures forall i :: 0 <= i < n ==> rounds[i] == SweepAt(w, bad, sha, own, own.checkedAt + c.recheckAfter + i)
  {
    seq(n, i requires 0 <= i < n => SweepAt(w, bad, sha, own, own.checkedAt + c.recheckAfter + i))
  }

  lemma {:induction false} DueInTheWay(c: Config, records: Records, w: World, bad: seq<string>, sha: string,
                                       own: Check, now: int, i: nat)
    requires InTheWay(records, w, bad, sha, own) && i <= |bad|
    ensures Due(c, records, Objects(bad)[..i], w, now) == NeverChecked(bad)[..i]
  {
    NoWork(c, records, [], Objects(bad), w, now);
    if i > 0 {
      hide Due;
      DueInTheWay(c, records, w, bad, sha, own, now, i - 1);
      DueStep(c, records, Objects(bad), i - 1, w, now);
      assert bad[i - 1] in bad;
    }
  }

  lemma SweepInTheWay(c: Config, records: Records, w: World, bad: seq<string>, sha: string, own: Check, now: int)
    requires InTheWay(records, w, bad, sha, own) && Distinct(bad) && now >= own.checkedAt + c.recheckAfter
    ensures IsSweep(c, records, SweepAt(w, bad, sha, own, now))
  {
    var r := SweepAt(w, bad, sha, own, now);
    var n := |bad|;
    DueInTheWay(c, records, w, bad, sha, own, now, n);
    DueStep(c, records, r.arts, n, w, now);
    hide Due;
    assert r.arts[..n] == Objects(bad)[..n] && r.arts[..n + 1] == r.arts;
    assert NeverChecked(bad)[..n] == NeverChecked(bad);
    assert Due(c, records, r.arts, w, now) == r.queue;
  }

  /** As many objects in the way as a sweep can probe: the recorded object is passed over, and nothing changes. */
  lemma SweepPassesOver(c: Config, records: Records, w: World, bad: seq<string>, sha: string, own: Check, now: int)
    requires InTheWay(records, w, bad, sha, own) && Distinct(bad) && now >= own.checkedAt + c.recheckAfter
    requires |bad| >= c.maxPerSweep
    ensures var r := SweepAt(w, bad, sha, own, now);
            sha in Shas(r.arts) && IsDue(c, records, sha, now) && sha !in ProbedShas(c, r) &&
            InTheWay(AfterRound(c, records, r), w, bad, sha, own)
  {
    var r := SweepAt(w, bad, sha, own, now);
    SweepInTheWay(c, records, w, bad, sha, own, now);
    hide IsSweep, AfterRound;
    RoundEffect(c, records, r);
    assert r.arts[|bad|] in r.arts;
    forall t | t in Probed(c, r) ensures t.sha in bad {
      var i :| 0 <= i < |Probed(c, r)| && Probed(c, r)[i] == t;
      assert t == NeverChecked(bad)[i];
    }
  }

  /** Every one of the sweeps passes over a due object, however many there are. */
  lemma {:induction false} FaultyRecordsStarveOthers(c: Config, records: Records, w: World, bad: seq<string>,
                                                     sha: string, own: Check, n: nat)
    requires c.recheckAfter > 0 && Distinct(bad) && |bad| >= c.maxPerSweep && InTheWay(records, w, bad, sha, own)
    ensures var rounds := Sweeps(c, w, bad, sha, own, n);
            && IsRun(c, records, rounds) && InTheWay(Run(c, records, rounds), w, bad, sha, own)
            && forall r :: r in rounds ==> sha in Shas(r.arts) && sha !in ProbedShas(c, r) && r.world == w
  {
    var rounds := Sweeps(c, w, bad, sha, own, n);
    if n > 0 {
      var now := own.checkedAt + c.recheckAfter + n - 1;
      var front := Sweeps(c, w, bad, sha, own, n - 1);
      assert rounds[..n - 1] == front && rounds == front + [SweepAt(w, bad, sha, own, now)];
      FaultyRecordsStarveOthers(c, records, w, bad, sha, own, n - 1);
      hide InTheWay, AfterRound, IsSweep, ProbedShas, Shas;
      SweepInTheWay(c, Run(c, records, front), w, bad, sha, own, now);
      SweepPassesOver(c, Run(c, records, front), w, bad, sha, own, now);
    }
  }

  // ---------- when waiting is bounded ----------

  /** `sha` is due at first, published throughout and never probed; each sweep has at most `d` faulty records. */
  ghost predicate Waits(c: Config, d: nat, records: Records, rounds: seq<Round>, universe: set<string>, sha: string)
  {
    && IsRun(c, records, rounds) && 0 <= At(records, sha) && NeverProbed(c, rounds, universe, sha)
    && (forall r :: r in rounds ==> FewFaults(c, r, d))
    && (rounds != [] ==> IsDue(c, records, sha, rounds[0].now))
  }

  /** With `size` objects around, nothing that is due waits for `n` sweeps. */
  ghost predicate NoneWaits(c: Config, d: nat, size: nat, n: nat)
  {
    forall records, rounds, universe, sha ::
      Waits(c, d, records, rounds, universe, sha) ==> |universe| == size ==> |rounds| < n
  }

  ghost predicate WaitIsBounded(c: Config, d: nat, size: nat)
  {
    exists n: nat :: NoneWaits(c, d, size, n)
  }

  /** When all objects fit into one sweep, every due one is probed at once, faults or not. */
  lemma AllFitIn(c: Config, records: Records, r: Round, universe: set<string>, sha: string)
    requires IsSweep(c, records, r) && Shas(r.arts) <= universe && |universe| <= c.maxPerSweep <= r.world.cancelAfter
    requires sha in Shas(r.arts) && SeenDue(c, records, r.world, sha, r.now)
    ensures sha in ProbedShas(c, r)
  {
    if sha !in ProbedShas(c, r) {
      hide IsSweep, SeenDue, SeenAt;
      PassedOver(c, records, r, sha);
      ProbedAreDistinct(c, records, r);
      ShaCount(Probed(c, r));
      SubsetSize(ProbedShas(c, r), universe - {sha});
    }
  }

  /** `size` different names: runs of one letter. */
  function Names(size: nat): (names: seq<string>)
    ensures |names| == size && forall i :: 0 <= i < size ==> |names[i]| == i
  {
    seq(size, i requires 0 <= i < size => seq(i, _ => 'a'))
  }

  lemma {:induction false} NamesAreDistinct(names: seq<string>)
    requires Distinct(names)
    ensures |set s | s in names| == |names|
  {
    if names != [] {
      var n := |names| - 1;
      NamesAreDistinct(names[..n]);
      assert names == names[..n] + [names[n]];
      assert (set s | s in names) == (set s | s in names[..n]) + {names[n]};
    }
  }

  /** A world in which exactly the records of `bad` cannot be read. */
  function Unreadable(bad: seq<string>): World
  {
    World(_ => Found(0), set b | b in bad, {}, |bad|)
  }

  lemma StartsInTheWay(names: seq<string>, m: nat, own: Check)
    requires m < |names| && Distinct(names) && own.checkedAt > 0
    ensures InTheWay(map[names[m] := own], Unreadable(names[..m]), names[..m], names[m], own) && Distinct(names[..m])
  {
  }

  lemma FaultsOf(c: Config, d: nat, bad: seq<string>, r: Round)
    requires Distinct(bad) && |bad| == c.maxPerSweep <= d && r.world == Unreadable(bad)
    ensures FewFaults(c, r, d)
  {
    NamesAreDistinct(bad);
    assert r.world.unreadable + r.world.unwritable == r.world.unreadable;
  }

  lemma PublishedNames(c: Config, w: World, names: seq<string>, m: nat, own: Check, n: nat)
    requires m < |names|
    ensures var rounds := Sweeps(c, w, names[..m], names[m], own, n);
            (forall r :: r in rounds ==> Shas(r.arts) <= set s | s in names) &&
            (rounds != [] ==> rounds[0].now == own.checkedAt + c.recheckAfter)
  {
  }

  /** As many faulty records as a sweep can probe, and one more object: some object waits for any number of sweeps. */
  lemma SomeoneWaits(c: Config, d: nat, size: nat, n: nat)
    requires c.recheckAfter > 0 && c.maxPerSweep <= d && c.maxPerSweep < size
    ensures !NoneWaits(c, d, size, n)
  {
    hide InTheWay, Sweeps, IsRun, Run, ProbedShas, Shas, FewFaults, Unreadable;
    var m := c.maxPerSweep;
    var names := Names(size);
    var (bad, sha) := (names[..m], names[m]);
    var own := Check(Healthy, Some(1), None, 0, NoError, 1, 1 + c.ttl);
    var w := Unreadable(bad);
    var (records, rounds, universe) := (map[sha := own], Sweeps(c, w, bad, sha, own, n), set s | s in names);
    NamesAreDistinct(names);
    StartsInTheWay(names, m, own);
    FaultyRecordsStarveOthers(c, records, w, bad, sha, own, n);
    forall r | r in rounds ensures FewFaults(c, r, d) { FaultsOf(c, d, bad, r); }
    PublishedNames(c, w, names, m, own, n);
    assert Waits(c, d, records, rounds, universe, sha);
  }

  /** Below the cap the wait is bounded by `size / (maxPerSweep - d)` sweeps, rounded up. */
  lemma BoundedBelowTheCap(c: Config, d: nat, size: nat)
    requires c.recheckAfter > 0 && d < c.maxPerSweep && size > 0
    ensures NoneWaits(c, d, size, CeilDiv(size, c.maxPerSweep - d))
  {
    forall records, rounds, universe, sha
      | Waits(c, d, records, rounds, universe, sha) && |universe| == size
      ensures |rounds| < CeilDiv(size, c.maxPerSweep - d)
    {
      if |rounds| >= CeilDiv(size, c.maxPerSweep - d) {
        DueObjectIsProbedInTime(c, records, rounds, universe, sha, d);
      }
    }
  }

  lemma BoundedWhenAllFit(c: Config, d: nat, size: nat)
    requires c.recheckAfter > 0 && size <= c.maxPerSweep
    ensures NoneWaits(c, d, size, 1)
  {
    forall records, rounds, universe, sha
      | Waits(c, d, records, rounds, universe, sha) && |universe| == size
      ensures |rounds| < 1
    {
      if rounds != [] {
        RunPrefix(c, records, rounds, 1);
        RunStep(c, records, rounds[..1]);
        assert rounds[0] in rounds;
        AllFitIn(c, records, rounds[0], universe, sha);
      }
    }
  }

  /**
   * Fairness, exactly: with at most `d` records in each sweep that cannot be read or written, there is a bound on
   * how long a due object waits if and only if `d` is below the cap, or all objects fit into one sweep.
   */
  lemma WaitIsBoundedExactly(c: Config, d: nat, size: nat)
    requires c.recheckAfter > 0 && size > 0
    ensures WaitIsBounded(c, d, size) <==> d < c.maxPerSweep || size <= c.maxPerSweep
  {
    hide NoneWaits;
    if d < c.maxPerSweep {
      BoundedBelowTheCap(c, d, size);
    } else if size <= c.maxPerSweep {
      BoundedWhenAllFit(c, d, size);
    } else {
      forall n: nat ensures !NoneWaits(c, d, size, n) { SomeoneWaits(c, d, size, n); }
    }
  }

  /** So the sweep is fair, whatever the number of objects, exactly for fewer faults than its cap. */
  lemma FairExactlyBelowTheCap(c: Config, d: nat)
    requires c.recheckAfter > 0
    ensures (forall size: nat :: size > 0 ==> WaitIsBounded(c, d, size)) <==> d < c.maxPerSweep
  {
    hide WaitIsBounded;
    forall size: nat | size > 0
      ensures WaitIsBounded(c, d, size) <==> d < c.maxPerSweep || size <= c.maxPerSweep
    {
      WaitIsBoundedExactly(c, d, size);
    }
    assert WaitIsBounded(c, d, c.maxPerSweep + 1) <==> d < c.maxPerSweep;
  }

  // ---------- records summarise the probe history ----------

  /** What the storage answered, when, and which size it should have found. */
  datatype Probe = Probe(at: int, answer: Head, wanted: nat)

  /** The one success: the object is there with the listed size. */
  predicate Succeeded(p: Probe)
  {
    p.answer == Found(p.wanted)
  }

  /** A probe, and whether the sweep could read the old record and write the new one. */
  datatype Trial = Trial(probe: Probe, read: bool, written: bool)

  /** Every probe of one object over a run, oldest first. */
  function Trials(c: Config, rounds: seq<Round>, sha: string): seq<Trial>
  {
    if rounds == [] then []
    else
      var r := rounds[|rounds| - 1];
      Trials(c, rounds[..|rounds| - 1], sha) + TrialsIn(Probed(c, r), sha, r)
  }

  function TrialsIn(probed: seq<Todo>, sha: string, r: Round): seq<Trial>
  {
    if probed == [] then []
    else
      TrialsIn(probed[..|probed| - 1], sha, r) +
      (var item := probed[|probed| - 1];
       if item.sha == sha then [TrialOf(r, item)] else [])
  }

  function TrialOf(r: Round, item: Todo): Trial
  {
    Trial(Probe(r.now, r.world.head(item.sha), item.size),
          item.sha !in r.world.unreadable, item.sha !in r.world.unwritable)
  }

  /** The full probe history. */
  function ProbesOf(trials: seq<Trial>): (h: seq<Probe>)
    ensures |h| == |trials| && forall i :: 0 <= i < |h| ==> h[i] == trials[i].probe
  {
    seq(|trials|, i requires 0 <= i < |trials| => trials[i].probe)
  }

  /** The history as the records know it: a failed write loses its probe, a failed read loses all before it. */
  function Remembered(trials: seq<Trial>): seq<Probe>
  {
    if trials == [] then []
    else
      var t, before := trials[|trials| - 1], Remembered(trials[..|trials| - 1]);
      if !t.written then before else (if t.read then before else []) + [t.probe]
  }

  function FailuresSinceSuccess(h: seq<Probe>): nat
  {
    if h == [] || Succeeded(h[|h| - 1]) then 0 else 1 + FailuresSinceSuccess(h[..|h| - 1])
  }

  /** The time of the last probe that was (or was not) a success. */
  function LastTime(h: seq<Probe>, success: bool): Option<int>
  {
    if h == [] then None
    else if Succeeded(h[|h| - 1]) == success then Some(h[|h| - 1].at)
    else LastTime(h[..|h| - 1], success)
  }

  /** What a record should say after a history of probes, told from the history alone. */
  function Summary(c: Config, h: seq<Probe>): Check
    requires h != []
  {
    var last := h[|h| - 1];
    var failures := FailuresSinceSuccess(h);
    var wrongSize := last.answer.Found? && last.answer.size != last.wanted;
    var status :=
      if last.answer == Found(last.wanted) then Healthy
      else if wrongSize || last.answer.Gone? || failures >= c.failureThreshold then Unavailable
      else Degraded;
    var category :=
      if wrongSize then SizeMismatch else if last.answer.Gone? then NotFound
      else if last.answer.DeadlineExceeded? then Timeout else if last.answer.Failed? then StorageError else NoError;
    Check(status, LastTime(h, true), LastTime(h, false), failures, category, last.at, last.at + c.ttl)
  }

  predicate Summarises(c: Config, records: Records, sha: string, h: seq<Probe>)
  {
    (sha in records <==> h != []) && (h != [] ==> records[sha] == Summary(c, h))
  }

  lemma OneMoreProbe(c: Config, item: Todo, head: Head, now: int, h: seq<Probe>)
    requires item.prev == if h == [] then None else Some(Summary(c, h))
    ensures CheckOne(c, item, head, now) == Summary(c, h + [Probe(now, head, item.size)])
  {
    var p := Probe(now, head, item.size);
    var all := h + [p];
    assert all[|all| - 1] == p && all[..|all| - 1] == h;
    assert LastTime(all, true) == if Succeeded(p) then Some(now) else LastTime(h, true);
    assert LastTime(all, false) == if Succeeded(p) then LastTime(h, false) else Some(now);
    assert FailuresSinceSuccess(all) == if Succeeded(p) then 0 else 1 + FailuresSinceSuccess(h);
  }

  lemma {:induction false} TrialsOfRound(items: seq<Todo>, sha: string, r: Round)
    requires DistinctItems(items)
    ensures forall t :: t in items && t.sha == sha ==> TrialsIn(items, sha, r) == [TrialOf(r, t)]
    ensures (forall t :: t in items ==> t.sha != sha) ==> TrialsIn(items, sha, r) == []
  {
    if items != [] {
      var front, item := items[..|items| - 1], items[|items| - 1];
      assert items == front + [item];
      TrialsOfRound(front, sha, r);
    }
  }

  /** Over every run from an empty table, whatever fails, a record is the summary of the remembered history. */
  lemma {:induction false} RecordsSummariseRemembered(c: Config, rounds: seq<Round>, sha: string)
    requires IsRun(c, map[], rounds)
    ensures Summarises(c, Run(c, map[], rounds), sha, Remembered(Trials(c, rounds, sha)))
  {
    if rounds != [] {
      hide IsRun, IsSweep, Summarises, AfterRound, Remembered, TrialsIn;
      var n := |rounds| - 1;
      var before, r := Run(c, map[], rounds[..n]), rounds[n];
      RunStep(c, map[], rounds);
      RecordsSummariseRemembered(c, rounds[..n], sha);
      RoundKeepsSummary(c, before, r, sha, Trials(c, rounds[..n], sha));
    } else {
      assert Trials(c, rounds, sha) == [];
    }
  }

  lemma RoundKeepsSummary(c: Config, before: Records, r: Round, sha: string, trials: seq<Trial>)
    requires IsSweep(c, before, r) && Summarises(c, before, sha, Remembered(trials))
    ensures Summarises(c, AfterRound(c, before, r), sha, Remembered(trials + TrialsIn(Probed(c, r), sha, r)))
  {
    hide Summary, CheckOne, SeenDue, SeenAt, TrialsIn, IsSweep, Remembered;
    QueueMembers(c, before, r);
    var probed, h := Probed(c, r), Remembered(trials);
    ProbeEffect(c, before, probed, r.world, r.now);
    TrialsOfRound(probed, sha, r);
    if t :| t in probed && t.sha == sha {
      assert t in r.queue;
      var trial := TrialOf(r, t);
      OneMoreTrial(trials, trial);
      if trial.written { OneMoreProbe(c, t, r.world.head(sha), r.now, if trial.read then h else []); }
    } else {
      assert trials + [] == trials;
    }
  }

  lemma OneMoreTrial(trials: seq<Trial>, t: Trial)
    ensures var before := Remembered(trials);
            Remembered(trials + [t]) == if !t.written then before else (if t.read then before else []) + [t.probe]
    ensures ProbesOf(trials + [t]) == ProbesOf(trials) + [t.probe]
  {
    assert (trials + [t])[..|trials|] == trials;
  }

  /** When every probe was read and written, the remembered history is the full one. */
  lemma {:induction false} AllRemembered(trials: seq<Trial>)
    requires forall t :: t in trials ==> t.read && t.written
    ensures Remembered(trials) == ProbesOf(trials)
  {
    if trials != [] {
      var front, t := trials[..|trials| - 1], trials[|trials| - 1];
      assert trials == front + [t];
      AllRemembered(front);
      OneMoreTrial(front, t);
    }
  }

  /**
   * Over every run from an empty table in which each probe of the object could be read and written, its record
   * is the summary of its full probe history; the counter is the number of failures since the last success.
   */
  lemma RecordsSummariseHistory(c: Config, rounds: seq<Round>, sha: string)
    requires IsRun(c, map[], rounds) && forall t :: t in Trials(c, rounds, sha) ==> t.read && t.written
    ensures Summarises(c, Run(c, map[], rounds), sha, ProbesOf(Trials(c, rounds, sha)))
  {
    RecordsSummariseRemembered(c, rounds, sha);
    AllRemembered(Trials(c, rounds, sha));
  }

  // ---------- exactly when the counter is right ----------

  /** The stored number of failures; an object without a record has none. */
  function Counter(records: Records, sha: string): nat
  {
    if sha in records then records[sha].consecutiveFailures else 0
  }

  /** The counter is the number of failures since the last success of the full probe history. */
  predicate CounterIsRight(c: Config, rounds: seq<Round>, sha: string)
  {
    Counter(Run(c, map[], rounds), sha) == FailuresSinceSuccess(ProbesOf(Trials(c, rounds, sha)))
  }

  /**
   * A probe keeps a right counter right: it is written and then starts from a read record, succeeds, or
   * starts from nothing; or it is not written, succeeds, and there was nothing to reset.
   */
  predicate Harmless(t: Trial, failures: nat)
  {
    if t.written then t.read || Succeeded(t.probe) || failures == 0
    else Succeeded(t.probe) && failures == 0
  }

  /** The probes of the object in the round are harmless, given the history before it. */
  predicate HarmlessRound(c: Config, before: seq<Round>, r: Round, sha: string)
  {
    forall t :: t in TrialsIn(Probed(c, r), sha, r) ==>
                  Harmless(t, FailuresSinceSuccess(ProbesOf(Trials(c, before, sha))))
  }

  /** One probe: from a right counter, the counter is right again if and only if the probe is harmless. */
  lemma CountStep(trials: seq<Trial>, t: Trial)
    requires FailuresSinceSuccess(Remembered(trials)) == FailuresSinceSuccess(ProbesOf(trials))
    ensures FailuresSinceSuccess(Remembered(trials + [t])) == FailuresSinceSuccess(ProbesOf(trials + [t])) <==>
            Harmless(t, FailuresSinceSuccess(ProbesOf(trials)))
  {
    OneMoreTrial(trials, t);
    CountOneMore(ProbesOf(trials), t.probe);
    CountOneMore(Remembered(trials), t.probe);
    CountOneMore([], t.probe);
  }

  lemma CountOneMore(h: seq<Probe>, p: Probe)
    ensures FailuresSinceSuccess(h + [p]) == if Succeeded(p) then 0 else FailuresSinceSuccess(h) + 1
    ensures FailuresSinceSuccess([]) == 0
  {
    assert (h + [p])[..|h|] == h;
  }

  lemma CounterOfRun(c: Config, rounds: seq<Round>, sha: string)
    requires IsRun(c, map[], rounds)
    ensures Counter(Run(c, map[], rounds), sha) == FailuresSinceSuccess(Remembered(Trials(c, rounds, sha)))
  {
    hide IsRun, Run, Trials, Remembered;
    RecordsSummariseRemembered(c, rounds, sha);
  }

  /**
   * Over every run, whatever reads and writes fail: the counter is right after every sweep if and only if
   * every probe of the object was harmless.
   */
  lemma {:induction false} CounterExact(c: Config, rounds: seq<Round>, sha: string)
    requires IsRun(c, map[], rounds)
    ensures (forall n :: 0 <= n <= |rounds| ==> CounterIsRight(c, rounds[..n], sha)) <==>
            (forall n :: 0 <= n < |rounds| ==> HarmlessRound(c, rounds[..n], rounds[n], sha))
  {
    hide IsRun, CounterIsRight, HarmlessRound;
    if rounds == [] {
      RightAtFirst(c, sha);
      assert rounds[..0] == [];
    } else {
      var front := rounds[..|rounds| - 1];
      RunStep(c, map[], rounds);
      CounterExact(c, front, sha);
      RightSplits(c, rounds, sha);
      HarmlessSplits(c, rounds, sha);
      assert front[..|front|] == front;
      if CounterIsRight(c, front, sha) { CounterStep(c, front, rounds, sha); }
    }
  }

  lemma RightAtFirst(c: Config, sha: string)
    ensures CounterIsRight(c, [], sha)
  {
  }

  lemma RightSplits(c: Config, rounds: seq<Round>, sha: string)
    requires rounds != []
    ensures var front := rounds[..|rounds| - 1];
            (forall n :: 0 <= n <= |rounds| ==> CounterIsRight(c, rounds[..n], sha)) <==>
            (forall n :: 0 <= n <= |front| ==> CounterIsRight(c, front[..n], sha)) && CounterIsRight(c, rounds, sha)
  {
    hide CounterIsRight;
    var front := rounds[..|rounds| - 1];
    assert rounds[..|rounds|] == rounds;
    forall n | 0 <= n <= |front| ensures front[..n] == rounds[..n] {}
  }

  lemma HarmlessSplits(c: Config, rounds: seq<Round>, sha: string)
    requires rounds != []
    ensures var front := rounds[..|rounds| - 1];
            (forall n :: 0 <= n < |rounds| ==> HarmlessRound(c, rounds[..n], rounds[n], sha)) <==>
            (forall n :: 0 <= n < |front| ==> HarmlessRound(c, front[..n], front[n], sha)) &&
            HarmlessRound(c, front, rounds[|rounds| - 1], sha)
  {
    hide HarmlessRound;
    var front := rounds[..|rounds| - 1];
    forall n | 0 <= n < |front| ensures front[..n] == rounds[..n] && front[n] == rounds[n] {}
  }

  lemma CounterStep(c: Config, front: seq<Round>, rounds: seq<Round>, sha: string)
    requires IsRun(c, map[], rounds) && rounds != [] && front == rounds[..|rounds| - 1] && CounterIsRight(c, front, sha)
    ensures CounterIsRight(c, rounds, sha) <==> HarmlessRound(c, front, rounds[|rounds| - 1], sha)
  {
    hide IsRun, Run, Remembered, IsSweep, AfterRound, TrialsIn;
    var r := rounds[|rounds| - 1];
    RunStep(c, map[], rounds);
    CounterOfRun(c, front, sha);
    CounterOfRun(c, rounds, sha);
    QueueMembers(c, Run(c, map[], front), r);
    TrialsOfRound(Probed(c, r), sha, r);
    var trials := Trials(c, front, sha);
    if t :| t in Probed(c, r) && t.sha == sha {
      CountStep(trials, TrialOf(r, t));
    } else {
      assert trials + [] == trials;
    }
  }

  /**
   * One probe of an object whose record is right: if it fails and is written, the new counter is right if and
   * only if the old record could be read or counted no failure.
   */
  lemma UnreadableRecordLosesCount(c: Config, records: Records, sha: string, size: nat, w: World, now: int,
                                   h: seq<Probe>)
    requires Summarises(c, records, sha, h) && w.head(sha) != Found(size)
    ensures var item := Todo(sha, size, SeenAt(records, w, sha), Read(records, w, sha));
            var p := Probe(now, w.head(sha), size);
            CheckOne(c, item, w.head(sha), now).consecutiveFailures == FailuresSinceSuccess(h + [p]) <==>
            sha !in w.unreadable || FailuresSinceSuccess(h) == 0
  {
    CountOneMore(h, Probe(now, w.head(sha), size));
  }
}
