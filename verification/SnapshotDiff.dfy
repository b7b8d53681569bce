/**
 * Differences between process snapshots, as the sampler sends them, and the table that the process view
 * rebuilds from them. The static part of a process is sent only when the process is added.
 */
module SnapshotDiff {
  import opened Sorting
  import opened Text

  datatype Identity = Identity(pid: nat, startTime: nat)

  /** `info` stands for the static fields, `metrics` for the sampled ones. */
  datatype Snapshot = Snapshot(identity: Identity, info: string, metrics: string)

  datatype Update = Update(key: string, metrics: string)

  datatype Delta = Delta(added: seq<Snapshot>, updated: seq<Update>, removed: seq<string>)

  type Table = map<string, Snapshot>

  function KeyOf(id: Identity): string
  {
    Decimal(id.pid) + ":" + Decimal(id.startTime)
  }

  function FirstColon(s: string): nat
  {
    if s == "" || s[0] == ':' then 0 else 1 + FirstColon(s[1..])
  }

  lemma {:induction false} ColonAfterDigits(digits: string, rest: string)
    requires AllDigits(digits)
    ensures FirstColon(digits + (":" + rest)) == |digits|
  {
    if digits == "" {
      assert digits + (":" + rest) == ":" + rest;
    } else {
      assert (digits + (":" + rest))[1..] == digits[1..] + (":" + rest);
      ColonAfterDigits(digits[1..], rest);
    }
  }

  /** Different processes never share a key. */
  lemma KeyIsInjective(a: Identity, b: Identity)
    requires KeyOf(a) == KeyOf(b)
    ensures a == b
  {
    var (p, q) := (Decimal(a.pid), Decimal(b.pid));
    var (s, t) := (Decimal(a.startTime), Decimal(b.startTime));
    hide Decimal, Number;
    ColonAfterDigits(p, s);
    ColonAfterDigits(q, t);
    var key := KeyOf(a);
    assert key == p + (":" + s) == q + (":" + t);
    assert p == key[..|p|] == q;
    assert s == key[|p| + 1..] == t;
    assert Number(p) == Number(q) && Number(s) == Number(t);
  }

  lemma KeyExample()
    ensures KeyOf(Identity(12, 345)) == "12:345"
  {
    assert Decimal(12) == "12" && Decimal(34) == "34" && Decimal(345) == "345";
  }

  /** A map built by the sampler: every entry stands under its own key. */
  predicate Coherent(table: Table)
  {
    forall key :: key in table ==> KeyOf(table[key].identity) == key
  }

  /** Exactly the sampled processes are in the map, each under its own key. */
  function BuildMap(snapshots: seq<Snapshot>): (table: Table)
    ensures Coherent(table) && table.Keys == set s | s in snapshots :: KeyOf(s.identity)
  {
    hide KeyOf;
    if snapshots == [] then map[]
    else
      var before, last := snapshots[..|snapshots| - 1], snapshots[|snapshots| - 1];
      assert snapshots == before + [last];
      BuildMap(before)[KeyOf(last.identity) := last]
  }

  /** No later sample is of the same process as sample `i`. */
  predicate SampledLast(snapshots: seq<Snapshot>, i: nat)
    requires i < |snapshots|
  {
    forall j :: i < j < |snapshots| ==> snapshots[j].identity != snapshots[i].identity
  }

  /** Each process is in the map as it was sampled last. */
  lemma MapHasLastSamples(snapshots: seq<Snapshot>)
    ensures forall i :: 0 <= i < |snapshots| && SampledLast(snapshots, i) ==>
                          BuildMap(snapshots)[KeyOf(snapshots[i].identity)] == snapshots[i]
  {
    forall i | 0 <= i < |snapshots| && SampledLast(snapshots, i)
      ensures BuildMap(snapshots)[KeyOf(snapshots[i].identity)] == snapshots[i]
    {
      LastSample(snapshots, i);
    }
  }

  lemma {:induction false} LastSample(snapshots: seq<Snapshot>, i: nat)
    requires i < |snapshots| && SampledLast(snapshots, i)
    ensures KeyOf(snapshots[i].identity) in BuildMap(snapshots)
    ensures BuildMap(snapshots)[KeyOf(snapshots[i].identity)] == snapshots[i]
    decreases |snapshots|
  {
    hide KeyOf, BuildMap, SampledLast;
    MapStep(snapshots);
    var n := |snapshots| - 1;
    if i < n {
      LastOfAll(snapshots, i);
      LastSample(snapshots[..n], i);
    }
  }

  lemma MapStep(snapshots: seq<Snapshot>)
    ensures if snapshots == [] then BuildMap(snapshots) == map[] else
              var last := snapshots[|snapshots| - 1];
              BuildMap(snapshots) == BuildMap(snapshots[..|snapshots| - 1])[KeyOf(last.identity) := last]
  {
  }

  lemma LastOfAll(snapshots: seq<Snapshot>, i: nat)
    requires i < |snapshots| - 1 && SampledLast(snapshots, i)
    ensures SampledLast(snapshots[..|snapshots| - 1], i)
    ensures KeyOf(snapshots[|snapshots| - 1].identity) != KeyOf(snapshots[i].identity)
  {
    hide KeyOf;
    var last := snapshots[|snapshots| - 1].identity;
    if KeyOf(last) == KeyOf(snapshots[i].identity) { KeyIsInjective(last, snapshots[i].identity); }
  }

  // ---------- orders ----------

  predicate IdentityAtMost(a: Snapshot, b: Snapshot)
  {
    a.identity.pid < b.identity.pid ||
    (a.identity.pid == b.identity.pid && a.identity.startTime <= b.identity.startTime)
  }

  predicate KeyAtMost(a: Update, b: Update)
  {
    AtMost(a.key, b.key)
  }

  lemma TextOrder(a: string, b: string, c: string)
    ensures AtMost(a, b) || AtMost(b, a)
    ensures AtMost(a, b) && AtMost(b, a) ==> a == b
    ensures AtMost(a, b) && AtMost(b, c) ==> AtMost(a, c)
  {
    hide Less;
    LessTotal(a, b);
    LessIrreflexive(a);
    if Less(a, b) && Less(b, a) { LessTransitive(a, b, a); }
    if Less(a, b) && Less(b, c) { LessTransitive(a, b, c); }
  }

  lemma Orders()
    ensures TotalPreorder(IdentityAtMost) && TotalPreorder(KeyAtMost) && TotalPreorder(AtMost)
  {
    hide AtMost;
    forall a, b, c
      ensures (AtMost(a, b) || AtMost(b, a)) && (AtMost(a, b) && AtMost(b, c) ==> AtMost(a, c))
    {
      TextOrder(a, b, c);
    }
    forall a: Update, b: Update, c: Update
      ensures (KeyAtMost(a, b) || KeyAtMost(b, a)) && (KeyAtMost(a, b) && KeyAtMost(b, c) ==> KeyAtMost(a, c))
    {
      TextOrder(a.key, b.key, c.key);
    }
  }

  // ---------- the difference ----------

  predicate IsAdded(prev: Table, next: Table, s: Snapshot)
  {
    KeyOf(s.identity) in next && KeyOf(s.identity) !in prev && next[KeyOf(s.identity)] == s
  }

  predicate IsUpdated(prev: Table, next: Table, u: Update)
  {
    u.key in next && u.key in prev && prev[u.key].metrics != next[u.key].metrics && u.metrics == next[u.key].metrics
  }

  predicate IsRemoved(prev: Table, next: Table, key: string)
  {
    key in prev && key !in next
  }

  /** Each change is listed exactly once, in order. */
  ghost predicate IsDelta(prev: Table, next: Table, delta: Delta)
  {
    && (forall s :: s in delta.added <==> IsAdded(prev, next, s))
    && Distinct(delta.added) && Sorted(delta.added, IdentityAtMost)
    && (forall u :: u in delta.updated <==> IsUpdated(prev, next, u))
    && Distinct(delta.updated) && Sorted(delta.updated, KeyAtMost)
    && (forall k :: k in delta.removed <==> IsRemoved(prev, next, k))
    && Distinct(delta.removed) && Sorted(delta.removed, AtMost)
  }

  lemma SortedList<T(!new)>(s: seq<T>, le: (T, T) -> bool)
    requires TotalPreorder(le) && Distinct(s)
    ensures Sorted(Sort(s, le), le) && Distinct(Sort(s, le)) && forall x :: x in Sort(s, le) <==> x in s
  {
    SortSorts(s, le);
    DistinctPermutation(s, Sort(s, le));
    forall x ensures x in Sort(s, le) <==> x in s { SameElements(s, Sort(s, le), x); }
  }

  /** The maps are walked in no particular order; the lists are sorted afterwards. */
  method Diff(prev: Table, next: Table) returns (delta: Delta)
    requires Coherent(prev) && Coherent(next)
    ensures IsDelta(prev, next, delta)
  {
    hide Sort, Sorted, KeyOf, AtMost, IsAdded, IsUpdated, IsRemoved, Distinct;
    var added, updated := Changes(prev, next);
    var removed := Removals(prev, next);
    Orders();
    SortedList(added, IdentityAtMost);
    SortedList(updated, KeyAtMost);
    SortedList(removed, AtMost);
    delta := Delta(Sort(added, IdentityAtMost), Sort(updated, KeyAtMost), Sort(removed, AtMost));
  }

  method Changes(prev: Table, next: Table) returns (added: seq<Snapshot>, updated: seq<Update>)
    requires Coherent(prev) && Coherent(next)
    ensures Distinct(added) && forall s :: s in added <==> IsAdded(prev, next, s)
    ensures Distinct(updated) && forall u :: u in updated <==> IsUpdated(prev, next, u)
  {
    hide KeyOf;
    added, updated := [], [];
    var left := next.Keys;
    while left != {}
      invariant left <= next.Keys
      invariant Distinct(added) && forall s :: s in added <==> IsAdded(prev, next, s) && KeyOf(s.identity) !in left
      invariant Distinct(updated) && forall u :: u in updated <==> IsUpdated(prev, next, u) && u.key !in left
      decreases |left|
    {
      var key :| key in left;
      left := left - {key};
      var s := next[key];
      if key !in prev {
        added := added + [s];
      } else if prev[key].metrics != s.metrics {
        updated := updated + [Update(key, s.metrics)];
      }
    }
  }

  method Removals(prev: Table, next: Table) returns (removed: seq<string>)
    ensures Distinct(removed) && forall k :: k in removed <==> IsRemoved(prev, next, k)
  {
    removed := [];
    var left := prev.Keys;
    while left != {}
      invariant left <= prev.Keys
      invariant Distinct(removed) && forall k :: k in removed <==> IsRemoved(prev, next, k) && k !in left
      decreases |left|
    {
      var key :| key in left;
      left := left - {key};
      if key !in next { removed := removed + [key]; }
    }
  }

  lemma {:induction false} SameSet<T>(a: seq<T>, b: seq<T>)
    requires Distinct(a) && Distinct(b) && forall x :: x in a <==> x in b
    ensures multiset(a) == multiset(b)
  {
    forall x ensures multiset(a)[x] == multiset(b)[x] {
      DistinctCount(a, x);
      DistinctCount(b, x);
      assert x in a <==> x in multiset(a);
      assert x in b <==> x in multiset(b);
    }
  }

  /** Two snapshots have one difference only, whatever the order in which their maps were walked. */
  lemma DeltaIsDetermined(prev: Table, next: Table, a: Delta, b: Delta)
    requires IsDelta(prev, next, a) && IsDelta(prev, next, b)
    ensures a == b
  {
    hide Sorted, Less;
    SameSet(a.added, b.added);
    SameSet(a.updated, b.updated);
    SameSet(a.removed, b.removed);
    forall x, y | x in a.added && y in a.added && IdentityAtMost(x, y) && IdentityAtMost(y, x) ensures x == y {
      assert x.identity == y.identity;
    }
    SortedUnique(a.added, b.added, IdentityAtMost);
    forall x, y | x in a.updated && y in a.updated && KeyAtMost(x, y) && KeyAtMost(y, x) ensures x == y {
      TextOrder(x.key, y.key, x.key);
    }
    SortedUnique(a.updated, b.updated, KeyAtMost);
    forall x, y | x in a.removed && y in a.removed && AtMost(x, y) && AtMost(y, x) ensures x == y {
      TextOrder(x, y, x);
    }
    SortedUnique(a.removed, b.removed, AtMost);
  }

  /** Added processes come by pid and start time, changed and gone ones by key. */
  lemma DeltaInOrder(prev: Table, next: Table, delta: Delta, i: nat, j: nat)
    requires IsDelta(prev, next, delta) && i < j
    ensures j < |delta.added| ==>
              var (a, b) := (delta.added[i].identity, delta.added[j].identity);
              a.pid < b.pid || (a.pid == b.pid && a.startTime <= b.startTime)
    ensures j < |delta.updated| ==>
              delta.updated[i].key == delta.updated[j].key || Less(delta.updated[i].key, delta.updated[j].key)
    ensures j < |delta.removed| ==> Less(delta.removed[i], delta.removed[j])
  {
    hide Less, IsAdded, IsUpdated, IsRemoved;
    assert j < |delta.added| ==> IdentityAtMost(delta.added[i], delta.added[j]);
    assert j < |delta.updated| ==> KeyAtMost(delta.updated[i], delta.updated[j]);
    assert j < |delta.removed| ==> AtMost(delta.removed[i], delta.removed[j]);
  }

  // ---------- the table that replays the differences ----------

  class ProcTable {
    var rows: Table

    constructor ()
      ensures rows == map[]
    {
      rows := map[];
    }

    /**
     * Replaying a difference of two snapshots on the rows of the first: new processes come as they are, gone
     * ones go, and a row that stays takes the new sampled values and keeps its own static part.
     */
    method ApplyDelta(delta: Delta, ghost prev: Table, ghost next: Table)
      requires Coherent(prev) && Coherent(next) && IsDelta(prev, next, delta) && rows.Keys == prev.Keys
      modifies this
      ensures rows == Replayed(old(rows), prev, next)
    {
      hide KeyOf, Sorted, Distinct;
      Add(delta.added, prev, next);
      Change(delta.updated, prev, next);
      Remove(delta.removed);
    }

    method Add(added: seq<Snapshot>, ghost prev: Table, ghost next: Table)
      requires Coherent(next) && rows.Keys == prev.Keys && forall s :: s in added <==> IsAdded(prev, next, s)
      modifies this
      ensures rows.Keys == prev.Keys + next.Keys
      ensures forall k :: k in rows ==> rows[k] == if k in prev then old(rows)[k] else next[k]
    {
      hide KeyOf;
      for i := 0 to |added|
        invariant forall k :: k in prev ==> k in rows && rows[k] == old(rows)[k]
        invariant forall k :: k in rows && k !in prev ==> k in next && rows[k] == next[k]
        invariant forall j :: 0 <= j < i ==> KeyOf(added[j].identity) in rows
      {
        assert IsAdded(prev, next, added[i]);
        rows := rows[KeyOf(added[i].identity) := added[i]];
      }
      forall k | k in next && k !in prev ensures k in rows {
        assert next[k] in added;
        var j :| 0 <= j < |added| && added[j] == next[k];
      }
    }

    method Change(updated: seq<Update>, ghost prev: Table, ghost next: Table)
      requires (forall u :: u in updated <==> IsUpdated(prev, next, u)) && prev.Keys <= rows.Keys
      modifies this
      ensures rows.Keys == old(rows).Keys
      ensures forall k :: k in rows ==> rows[k] == Refreshed(old(rows)[k], prev, next, k)
    {
      for i := 0 to |updated|
        invariant rows.Keys == old(rows).Keys
        invariant forall k :: k in rows ==> rows[k] == old(rows)[k] || rows[k] == Refreshed(old(rows)[k], prev, next, k)
        invariant forall j :: 0 <= j < i ==>
                                updated[j].key in rows &&
                                rows[updated[j].key] == Refreshed(old(rows)[updated[j].key], prev, next, updated[j].key)
      {
        var u := updated[i];
        assert IsUpdated(prev, next, u);
        if u.key in rows { rows := rows[u.key := rows[u.key].(metrics := u.metrics)]; }
      }
      forall k | k in rows ensures rows[k] == Refreshed(old(rows)[k], prev, next, k) {
        if k in prev && k in next && prev[k].metrics != next[k].metrics {
          assert Update(k, next[k].metrics) in updated;
          var j :| 0 <= j < |updated| && updated[j] == Update(k, next[k].metrics);
        }
      }
    }

    method Remove(removed: seq<string>)
      modifies this
      ensures rows == map k | k in old(rows) && k !in removed :: old(rows)[k]
    {
      for i := 0 to |removed|
        invariant rows == map k | k in old(rows) && k !in removed[..i] :: old(rows)[k]
      {
        rows := rows - {removed[i]};
        assert removed[..i + 1] == removed[..i] + [removed[i]];
      }
      assert removed[..|removed|] == removed;
    }
  }

  /** A row after the updates: new sampled values if they have changed. */
  function Refreshed(row: Snapshot, prev: Table, next: Table, key: string): Snapshot
  {
    if key in prev && key in next && prev[key].metrics != next[key].metrics
    then row.(metrics := next[key].metrics)
    else row
  }

  /** The table after a difference, in terms of the two snapshots. */
  function Replayed(rows: Table, prev: Table, next: Table): (table: Table)
    requires rows.Keys == prev.Keys
    ensures table.Keys == next.Keys
  {
    map key | key in next :: if key in prev then Refreshed(rows[key], prev, next, key) else next[key]
  }

  // ---------- every run of the sampler ----------

  function Latest(samples: seq<Table>): Table
  {
    if samples == [] then map[] else samples[|samples| - 1]
  }

  /** The table after the differences of a run of samples, the first one taken against nothing. */
  function AfterRun(samples: seq<Table>): (table: Table)
    ensures table.Keys == Latest(samples).Keys
  {
    if samples == [] then map[]
    else
      var before := samples[..|samples| - 1];
      Replayed(AfterRun(before), Latest(before), Latest(samples))
  }

  /** The sample in which a process that is still there first appeared. */
  function FirstSeen(samples: seq<Table>, key: string): (n: nat)
    requires key in Latest(samples)
    ensures n < |samples| && forall i :: n <= i < |samples| ==> key in samples[i]
    ensures n > 0 ==> key !in samples[n - 1]
  {
    var before := samples[..|samples| - 1];
    if key in Latest(before) then FirstSeen(before, key) else |before|
  }

  /** The static part of a process that is still there, as it was when the process appeared. */
  function InfoAtFirst(samples: seq<Table>, key: string): string
    requires key in Latest(samples)
  {
    samples[FirstSeen(samples, key)][key].info
  }

  /**
   * After every run the table is the latest sample, except that a process keeps the static part it had
   * when it appeared.
   */
  lemma {:induction false} TableShowsLatest(samples: seq<Table>)
    requires forall t :: t in samples ==> Coherent(t)
    ensures forall key :: key in AfterRun(samples) ==>
                            AfterRun(samples)[key] == Latest(samples)[key].(info := InfoAtFirst(samples, key))
  {
    if samples != [] {
      hide KeyOf;
      var before := samples[..|samples| - 1];
      TableShowsLatest(before);
      forall key | key in AfterRun(samples)
        ensures AfterRun(samples)[key] == Latest(samples)[key].(info := InfoAtFirst(samples, key))
      {
        if key in Latest(before) {
          assert Latest(before) in samples && Latest(samples) in samples;
          KeyIsInjective(Latest(before)[key].identity, Latest(samples)[key].identity);
        }
      }
    }
  }

  /** So it is exactly the latest sample if and only if no process has changed its static part since it appeared. */
  lemma TableIsLatest(samples: seq<Table>)
    requires forall t :: t in samples ==> Coherent(t)
    ensures AfterRun(samples) == Latest(samples) <==>
            forall key :: key in Latest(samples) ==> InfoAtFirst(samples, key) == Latest(samples)[key].info
  {
    hide AfterRun, FirstSeen, Coherent;
    TableShowsLatest(samples);
    if AfterRun(samples) == Latest(samples) {
      forall key | key in Latest(samples) ensures InfoAtFirst(samples, key) == Latest(samples)[key].info {
        assert key in AfterRun(samples);
      }
    }
  }

  /** A process whose static part has changed between two samples keeps the old one in the table. */
  lemma StaticPartCanLag(prev: Snapshot, next: Snapshot)
    requires prev.identity == next.identity && prev.info != next.info
    ensures var samples := [BuildMap([prev]), BuildMap([next])];
            AfterRun(samples)[KeyOf(next.identity)] == next.(info := prev.info) && AfterRun(samples) != Latest(samples)
  {
    hide KeyOf;
    var samples := [BuildMap([prev]), BuildMap([next])];
    var key := KeyOf(next.identity);
    assert [prev][0] == prev && [next][0] == next;
    assert samples[..1] == [BuildMap([prev])] && samples[..1][..0] == [];
    assert key in Latest(samples) && Latest(samples)[key] == next && Latest(samples[..1])[key] == prev;
    assert FirstSeen(samples, key) == 0;
    TableShowsLatest(samples);
  }
}
