/** The process forest: parent links to child lists, and the breadth-first list of a process's descendants. */
module ProcessTree {
  import opened Wrappers
  import opened Sorting

  datatype Identity = Identity(pid: nat, startTime: nat)

  datatype Entry = Entry(id: Identity, parent: Option<Identity>)

  predicate IdAtMost(a: Identity, b: Identity)
  {
    a.pid < b.pid || (a.pid == b.pid && a.startTime <= b.startTime)
  }

  function Ids(entries: seq<Entry>): set<Identity>
  {
    set e | e in entries :: e.id
  }

  predicate DistinctIds(entries: seq<Entry>)
  {
    forall i, j :: 0 <= i < j < |entries| ==> entries[i].id != entries[j].id
  }

  /** The entry's parent, if that process is itself listed. */
  predicate HasPresentParent(entries: seq<Entry>, e: Entry)
  {
    e.parent.Some? && e.parent.value in Ids(entries)
  }

  // ---------- child lists and roots ----------

  type Children = map<Identity, seq<Identity>>

  predicate IsChild(m: Children, parent: Identity, child: Identity)
  {
    parent in m && child in m[parent]
  }

  /** The processes that name `p` as their parent, in listing order. */
  function Listed(entries: seq<Entry>, p: Identity): seq<Identity>
  {
    if entries == [] then []
    else
      var e := entries[|entries| - 1];
      Listed(entries[..|entries| - 1], p) + (if e.parent == Some(p) then [e.id] else [])
  }

  /** For every listed process, its children in identity order. */
  function ChildrenMap(entries: seq<Entry>): Children
  {
    map p | p in Ids(entries) :: Sort(Listed(entries, p), IdAtMost)
  }

  lemma ListedStep(entries: seq<Entry>, i: nat, p: Identity)
    requires i < |entries|
    ensures Listed(entries[..i + 1], p) ==
            Listed(entries[..i], p) + (if entries[i].parent == Some(p) then [entries[i].id] else [])
  {
    assert entries[..i + 1][..i] == entries[..i];
  }

  lemma ListedNone(entries: seq<Entry>, p: Identity)
    ensures Listed(entries[..0], p) == []
  {
  }

  /** What the map holds for `p`, or an empty list. */
  function ListAt(m: Children, p: Identity): seq<Identity>
  {
    if p in m then m[p] else []
  }

  method BuildChildrenMap(entries: seq<Entry>) returns (m: Children)
    ensures m == ChildrenMap(entries)
  {
    hide Listed, Sort;
    var present := Ids(entries);
    m := map[];
    forall p { ListedNone(entries, p); }
    for i := 0 to |entries|
      invariant m.Keys <= present && forall j :: 0 <= j < i ==> entries[j].id in m
      invariant forall p :: p in present ==> ListAt(m, p) == Listed(entries[..i], p)
    {
      var Entry(id, parent) := entries[i];
      assert entries[i] in entries;
      forall p { ListedStep(entries, i, p); }
      if id !in m { m := m[id := []]; }
      if parent.Some? && parent.value in present {
        var p := parent.value;
        m := m[p := ListAt(m, p) + [id]];
      }
    }
    assert entries[..|entries|] == entries;
    m := map p | p in m :: Sort(m[p], IdAtMost);
  }

  lemma {:induction false} ListedMembers(entries: seq<Entry>, p: Identity, c: Identity)
    ensures c in Listed(entries, p) <==> Entry(c, Some(p)) in entries
  {
    if entries != [] {
      var front, e := entries[..|entries| - 1], entries[|entries| - 1];
      assert entries == front + [e];
      ListedMembers(front, p, c);
    }
  }

  /** The map's links are exactly the entries whose parent is listed. */
  lemma ChildLinks(entries: seq<Entry>, p: Identity, c: Identity)
    ensures IsChild(ChildrenMap(entries), p, c) <==> Entry(c, Some(p)) in entries && p in Ids(entries)
  {
    ListedMembers(entries, p, c);
    SameElements(Listed(entries, p), Sort(Listed(entries, p), IdAtMost), c);
  }

  /** Each listed process has its children by pid, then by start time. */
  lemma ChildrenInOrder(entries: seq<Entry>, p: Identity)
    ensures p in ChildrenMap(entries) <==> exists e :: e in entries && e.id == p
    ensures p in ChildrenMap(entries) ==>
              var children := ChildrenMap(entries)[p];
              forall i, j :: 0 <= i < j < |children| ==> NotAfter(children[i], children[j])
  {
    SortSorts(Listed(entries, p), IdAtMost);
    if p in ChildrenMap(entries) {
      var children := ChildrenMap(entries)[p];
      assert forall i, j :: 0 <= i < j < |children| ==> IdAtMost(children[i], children[j]);
    }
  }

  /** A smaller pid, or the same and started no later. */
  predicate NotAfter(a: Identity, b: Identity)
  {
    a.pid < b.pid || (a.pid == b.pid && a.startTime <= b.startTime)
  }

  lemma RootsInOrder(entries: seq<Entry>)
    ensures var roots := Roots(entries);
            forall i, j :: 0 <= i < j < |roots| ==> NotAfter(roots[i], roots[j])
  {
    SortSorts(RootIds(entries, Ids(entries)), IdAtMost);
    var roots := Roots(entries);
    assert forall i, j :: 0 <= i < j < |roots| ==> IdAtMost(roots[i], roots[j]);
  }

  function RootIds(entries: seq<Entry>, present: set<Identity>): seq<Identity>
  {
    if entries == [] then []
    else
      var e := entries[0];
      (if e.parent.None? || e.parent.value !in present then [e.id] else []) + RootIds(entries[1..], present)
  }

  /** Processes without a listed parent, in identity order. */
  function Roots(entries: seq<Entry>): seq<Identity>
  {
    Sort(RootIds(entries, Ids(entries)), IdAtMost)
  }

  lemma {:induction false} RootIdsMembers(entries: seq<Entry>, present: set<Identity>, x: Identity)
    ensures x in RootIds(entries, present) <==>
            exists e :: e in entries && e.id == x && (e.parent.None? || e.parent.value !in present)
  {
    if entries != [] {
      RootIdsMembers(entries[1..], present, x);
      assert entries == [entries[0]] + entries[1..];
    }
  }

  lemma RootsMembers(entries: seq<Entry>, x: Identity)
    ensures x in Roots(entries) <==> exists e :: e in entries && e.id == x && !HasPresentParent(entries, e)
  {
    RootIdsMembers(entries, Ids(entries), x);
    SameElements(RootIds(entries, Ids(entries)), Roots(entries), x);
  }

  // ---------- descendants ----------

  /** `b` is reached from `a` by `k` child links. */
  ghost predicate ReachIn(m: Children, a: Identity, b: Identity, k: nat)
    decreases k
  {
    if k == 0 then a == b else exists c :: ReachIn(m, a, c, k - 1) && IsChild(m, c, b)
  }

  ghost predicate Reach(m: Children, a: Identity, b: Identity)
  {
    exists k: nat :: ReachIn(m, a, b, k)
  }

  lemma ReachStep(m: Children, a: Identity, b: Identity, c: Identity)
    requires Reach(m, a, b) && IsChild(m, b, c)
    ensures Reach(m, a, c)
  {
    var k: nat :| ReachIn(m, a, b, k);
    assert ReachIn(m, a, c, k + 1);
  }

  lemma {:induction false} ClosedSetHoldsReachable(m: Children, s: set<Identity>, a: Identity, b: Identity, k: nat)
    requires a in s && ReachIn(m, a, b, k)
    requires forall x, y :: x in s && IsChild(m, x, y) ==> y in s
    ensures b in s
    decreases k
  {
    if k > 0 {
      var c :| ReachIn(m, a, c, k - 1) && IsChild(m, c, b);
      ClosedSetHoldsReachable(m, s, a, c, k - 1);
    }
  }

  function Elements(s: seq<Identity>): set<Identity>
  {
    set x | x in s
  }

  function AllChildren(m: Children): set<Identity>
  {
    set p, c | p in m && c in m[p] :: c
  }

  /**
   * Every process reachable from the root, once each, whatever cycles the map contains; a process stands after
   * all that fewer links reach.
   */
  method CollectDescendants(m: Children, root: Identity) returns (result: seq<Identity>)
    ensures Distinct(result)
    ensures forall x :: x in result <==> Reach(m, root, x)
    ensures forall i, j, k: nat :: 0 <= i <= j < |result| && ReachIn(m, root, result[j], k) ==>
                               ReachWithin(m, root, result[i], k)
  {
    result := [];
    var visited: set<Identity> := {root};
    var queue: seq<Identity> := [root];
    ghost var universe := {root} + AllChildren(m);
    ghost var level: map<Identity, nat> := map[root := 0];
    StartSearch(m, root);
    hide ReachIn, InOrder, Searching, Spans;
    while queue != []
      invariant Searching(m, root, result, queue, visited, level) && visited <= universe && Spans(queue, level)
      invariant Followed(m, result, visited, level)
      decreases |universe| - |result|
    {
      var node := queue[0];
      TakeNode(m, root, result, queue, visited, level, universe);
      ghost var before, known := level, visited;
      queue, visited, level := VisitChildren(m, root, node, result + [node], queue[1..], visited, level);
      OneMoreFollowed(m, result, node, known, before, visited, level);
      result := result + [node];
    }
    Finish(m, root, result, visited, level);
  }

  /** The state of the search: `level` is the number of links by which each visited process was reached. */
  ghost predicate Searching(m: Children, root: Identity, result: seq<Identity>, queue: seq<Identity>,
                            visited: set<Identity>, level: map<Identity, nat>)
  {
    && InOrder(result, queue, visited) && root in visited && level.Keys == visited && level[root] == 0
    && Layered(result + queue, level) && forall x :: x in visited ==> ReachIn(m, root, x, level[x])
  }

  /** The children of every finished process have been visited, at most one level further down. */
  ghost predicate Followed(m: Children, result: seq<Identity>, visited: set<Identity>, level: map<Identity, nat>)
  {
    forall x, y :: x in result && IsChild(m, x, y) ==>
                     x in level && y in visited && y in level && level[y] <= level[x] + 1
  }

  /** Appends the children not visited yet. */
  method VisitChildren(m: Children, root: Identity, node: Identity, ghost result: seq<Identity>, queue: seq<Identity>,
                       visited: set<Identity>, ghost level: map<Identity, nat>)
    returns (longer: seq<Identity>, more: set<Identity>, ghost levels: map<Identity, nat>)
    requires Searching(m, root, result, queue, visited, level) && node in result && node in level
    requires forall x :: x in visited ==> x in level && level[x] <= level[node] + 1
    ensures Searching(m, root, result, longer, more, levels) && Spans(longer, levels)
    ensures visited <= more <= visited + AllChildren(m)
    ensures forall x :: x in visited ==> x in levels && levels[x] == level[x]
    ensures forall y :: IsChild(m, node, y) ==> y in more && y in levels && levels[y] <= level[node] + 1
  {
    hide ReachIn, InOrder, Searching, Layered, Spans;
    longer, more, levels := queue, visited, level;
    Visited(m, root, result, queue, visited, level, node);
    if node in m {
      var children := m[node];
      for i := 0 to |children|
        invariant Searching(m, root, result, longer, more, levels) && node in more && more <= levels.Keys
        invariant visited <= more <= visited + AllChildren(m)
        invariant forall x :: x in visited ==> x in levels && levels[x] == level[x]
        invariant forall x :: x in more ==> levels[x] <= level[node] + 1
        invariant forall j :: 0 <= j < i ==> children[j] in more
      {
        var child := children[i];
        if child !in more {
          assert IsChild(m, node, child);
          AddChild(m, root, result, longer, more, levels, node, child);
          longer, more, levels := longer + [child], more + {child}, levels[child := level[node] + 1];
        }
      }
    }
    SpanOf(m, root, result, longer, more, levels, node);
  }

  lemma StartSearch(m: Children, root: Identity)
    ensures Searching(m, root, [], [root], {root}, map[root := 0]) && Spans([root], map[root := 0])
  {
    assert ReachIn(m, root, root, 0);
    assert [] + [root] == [root];
  }

  lemma Visited(m: Children, root: Identity, result: seq<Identity>, queue: seq<Identity>, visited: set<Identity>,
                level: map<Identity, nat>, node: Identity)
    requires Searching(m, root, result, queue, visited, level) && node in result
    ensures node in visited && visited == level.Keys
  {
  }

  lemma TakeNode(m: Children, root: Identity, result: seq<Identity>, queue: seq<Identity>, visited: set<Identity>,
                 level: map<Identity, nat>, universe: set<Identity>)
    requires Searching(m, root, result, queue, visited, level) && visited <= universe && Spans(queue, level)
    requires queue != []
    ensures Searching(m, root, result + [queue[0]], queue[1..], visited, level) && queue[0] in level
    ensures forall x :: x in visited ==> x in level && level[x] <= level[queue[0]] + 1
    ensures |result| < |universe|
  {
    hide ReachIn;
    TakeNext(result, queue, visited);
    ResultFits(result + [queue[0]], queue[1..], visited, universe);
    Newest(result, queue, level);
    assert result + [queue[0]] + queue[1..] == result + queue;
  }

  lemma OneMoreFollowed(m: Children, result: seq<Identity>, node: Identity, visited: set<Identity>,
                        level: map<Identity, nat>, more: set<Identity>, levels: map<Identity, nat>)
    requires Followed(m, result, visited, level) && visited <= more && node in level && node in visited
    requires forall x :: x in visited ==> x in levels && x in level && levels[x] == level[x]
    requires forall x :: x in result ==> x in visited
    requires forall y :: IsChild(m, node, y) ==> y in more && y in levels && levels[y] <= level[node] + 1
    ensures Followed(m, result + [node], more, levels)
  {
  }

  lemma AddChild(m: Children, root: Identity, result: seq<Identity>, queue: seq<Identity>, visited: set<Identity>,
                 level: map<Identity, nat>, node: Identity, child: Identity)
    requires Searching(m, root, result, queue, visited, level) && node in visited && child !in visited
    requires IsChild(m, node, child) && forall x :: x in visited ==> x in level && level[x] <= level[node] + 1
    ensures Searching(m, root, result, queue + [child], visited + {child}, level[child := level[node] + 1])
    ensures child in AllChildren(m)
  {
    OneLink(m, root, node, child, level[node]);
    hide ReachIn, Layered;
    NextLevel(result, queue, level, child, level[node] + 1);
  }

  lemma SpanOf(m: Children, root: Identity, result: seq<Identity>, queue: seq<Identity>, visited: set<Identity>,
               level: map<Identity, nat>, node: Identity)
    requires Searching(m, root, result, queue, visited, level) && node in result
    requires forall x :: x in visited ==> x in level && node in level && level[x] <= level[node] + 1
    ensures Spans(queue, level)
  {
    Span(result, queue, level, node);
  }

  ghost predicate ReachWithin(m: Children, a: Identity, b: Identity, k: nat)
  {
    exists n: nat :: n <= k && ReachIn(m, a, b, n)
  }

  /** Levels do not decrease along the list. */
  ghost predicate Layered(order: seq<Identity>, level: map<Identity, nat>)
  {
    (forall x :: x in order ==> x in level) &&
    forall i, j :: 0 <= i <= j < |order| ==> level[order[i]] <= level[order[j]]
  }

  /** The queue spans at most two levels. */
  ghost predicate Spans(queue: seq<Identity>, level: map<Identity, nat>)
  {
    queue != [] ==>
      queue[0] in level && forall x :: x in queue ==> x in level && level[x] <= level[queue[0]] + 1
  }

  lemma OneLink(m: Children, root: Identity, node: Identity, child: Identity, k: nat)
    requires ReachIn(m, root, node, k) && IsChild(m, node, child)
    ensures ReachIn(m, root, child, k + 1)
  {
  }

  lemma Newest(result: seq<Identity>, queue: seq<Identity>, level: map<Identity, nat>)
    requires queue != [] && Layered(result + queue, level) && Spans(queue, level)
    ensures forall x :: x in result || x in queue ==> x in level && level[x] <= level[queue[0]] + 1
  {
    var order := result + queue;
    forall x | x in result ensures x in level && level[x] <= level[queue[0]] {
      var i :| 0 <= i < |result| && result[i] == x;
      assert order[i] == x && order[|result|] == queue[0] && x in order;
    }
  }

  lemma NextLevel(result: seq<Identity>, queue: seq<Identity>, level: map<Identity, nat>, child: Identity, k: nat)
    requires Layered(result + queue, level) && child !in level
    requires forall x :: x in level ==> level[x] <= k
    ensures Layered(result + (queue + [child]), level[child := k])
  {
    var order := result + queue;
    assert result + (queue + [child]) == order + [child];
    assert forall x :: x in order ==> x != child;
    forall i, j | 0 <= i <= j < |order + [child]|
      ensures level[child := k][(order + [child])[i]] <= level[child := k][(order + [child])[j]]
    {
      if i < |order| { assert order[i] in order; }
      if j < |order| { assert order[j] in order; }
    }
  }

  lemma Span(result: seq<Identity>, queue: seq<Identity>, level: map<Identity, nat>, node: Identity)
    requires Layered(result + queue, level) && node in result && node in level
    requires forall x :: x in queue ==> x in level && level[x] <= level[node] + 1
    ensures Spans(queue, level)
  {
    if queue != [] {
      var order := result + queue;
      var i :| 0 <= i < |result| && result[i] == node;
      assert order[i] == node && order[|result|] == queue[0];
    }
  }

  /** When every link has been followed, the level of a process is the least number of links that reach it. */
  lemma {:induction false} LevelIsLeast(m: Children, root: Identity, result: seq<Identity>, level: map<Identity, nat>,
                                        x: Identity, k: nat)
    requires root in result && (forall y :: y in result ==> y in level) && level[root] == 0
    requires forall y, z :: y in result && IsChild(m, y, z) ==> z in result && level[z] <= level[y] + 1
    requires ReachIn(m, root, x, k)
    ensures x in result && level[x] <= k
    decreases k
  {
    if k > 0 {
      var c :| ReachIn(m, root, c, k - 1) && IsChild(m, c, x);
      LevelIsLeast(m, root, result, level, c, k - 1);
    }
  }

  lemma Finish(m: Children, root: Identity, result: seq<Identity>, visited: set<Identity>, level: map<Identity, nat>)
    requires Searching(m, root, result, [], visited, level) && Followed(m, result, visited, level)
    ensures Distinct(result) && forall x :: x in result <==> Reach(m, root, x)
    ensures forall i, j, k: nat :: 0 <= i <= j < |result| && ReachIn(m, root, result[j], k) ==>
                               ReachWithin(m, root, result[i], k)
  {
    hide ReachIn;
    assert result + [] == result;
    forall x, k: nat | ReachIn(m, root, x, k) ensures x in result && level[x] <= k {
      LevelIsLeast(m, root, result, level, x, k);
    }
    forall i, j, k: nat | 0 <= i <= j < |result| && ReachIn(m, root, result[j], k)
      ensures ReachWithin(m, root, result[i], k)
    {
      assert level[result[i]] <= level[result[j]] <= k;
    }
  }

  /** The finished list and the queue split the visited set, without repeats. */
  ghost predicate InOrder(result: seq<Identity>, queue: seq<Identity>, visited: set<Identity>)
  {
    && Distinct(result) && Distinct(queue)
    && (forall x :: x in visited <==> x in result || x in queue)
    && (forall x :: x in result ==> x !in queue)
  }

  lemma TakeNext(result: seq<Identity>, queue: seq<Identity>, visited: set<Identity>)
    requires InOrder(result, queue, visited) && queue != []
    ensures InOrder(result + [queue[0]], queue[1..], visited)
  {
    assert queue == [queue[0]] + queue[1..];
    assert queue[0] in queue && queue[0] !in result;
    forall i, j | 0 <= i < j < |queue[1..]| ensures queue[1..][i] != queue[1..][j] {
      assert queue[i + 1] != queue[j + 1];
    }
    forall j | 0 <= j < |queue[1..]| ensures queue[1..][j] != queue[0] && queue[1..][j] !in result {
      assert queue[1..][j] == queue[j + 1] && queue[j + 1] in queue;
    }
  }

  lemma ResultFits(result: seq<Identity>, queue: seq<Identity>, visited: set<Identity>, universe: set<Identity>)
    requires InOrder(result, queue, visited) && visited <= universe
    ensures |result| <= |universe|
  {
    DistinctSize(result);
    assert universe == Elements(result) + (universe - Elements(result));
  }

  lemma {:induction false} DistinctSize(s: seq<Identity>)
    requires Distinct(s)
    ensures |Elements(s)| == |s|
  {
    if s != [] {
      DistinctSize(s[1..]);
      assert s == [s[0]] + s[1..];
      assert Elements(s) == {s[0]} + Elements(s[1..]);
    }
  }

  // ---------- the forest ----------

  /** The present parent of each process that has one. */
  function ParentMap(entries: seq<Entry>): map<Identity, Identity>
  {
    Links(entries, Ids(entries))
  }

  function Links(entries: seq<Entry>, present: set<Identity>): map<Identity, Identity>
  {
    if entries == [] then map[]
    else
      var Entry(id, parent) := entries[0];
      var rest := Links(entries[1..], present);
      if parent.Some? && parent.value in present then rest[id := parent.value] else rest
  }

  predicate IsLink(entries: seq<Entry>, present: set<Identity>, c: Identity, p: Identity)
  {
    Entry(c, Some(p)) in entries && p in present
  }

  lemma {:induction false} LinkMembers(entries: seq<Entry>, present: set<Identity>, c: Identity, p: Identity)
    requires DistinctIds(entries)
    ensures c in Links(entries, present) && Links(entries, present)[c] == p <==> IsLink(entries, present, c, p)
    ensures c in Links(entries, present) ==> exists e :: e in entries && e.id == c
  {
    if entries != [] {
      assert entries == [entries[0]] + entries[1..];
      LinkMembers(entries[1..], present, c, p);
    }
  }

  /** The ancestor `k` generations up, if there is one. */
  function Ancestor(parents: map<Identity, Identity>, x: Identity, k: nat): Option<Identity>
    decreases k
  {
    if k == 0 then Some(x) else if x in parents then Ancestor(parents, parents[x], k - 1) else None
  }

  /** No process is its own ancestor. */
  ghost predicate Acyclic(parents: map<Identity, Identity>)
  {
    forall x: Identity, k: nat :: k > 0 ==> Ancestor(parents, x, k) != Some(x)
  }

  lemma {:induction false} AncestorsCompose(parents: map<Identity, Identity>, x: Identity, j: nat, k: nat)
    requires Ancestor(parents, x, j).Some?
    ensures Ancestor(parents, x, j + k) == Ancestor(parents, Ancestor(parents, x, j).value, k)
    decreases j
  {
    if j > 0 { AncestorsCompose(parents, parents[x], j - 1, k); }
  }

  lemma ChildIffParent(entries: seq<Entry>, p: Identity, c: Identity)
    requires DistinctIds(entries)
    ensures IsChild(ChildrenMap(entries), p, c) <==> c in ParentMap(entries) && ParentMap(entries)[c] == p
  {
    ChildLinks(entries, p, c);
    LinkMembers(entries, Ids(entries), c, p);
  }

  ghost predicate Inverse(m: Children, parents: map<Identity, Identity>)
  {
    forall p, c :: IsChild(m, p, c) <==> c in parents && parents[c] == p
  }

  lemma {:induction false} ReachIsAncestry(m: Children, parents: map<Identity, Identity>, a: Identity, b: Identity,
                                           k: nat)
    requires Inverse(m, parents)
    ensures ReachIn(m, a, b, k) <==> Ancestor(parents, b, k) == Some(a)
    decreases k
  {
    if k > 0 {
      if c :| ReachIn(m, a, c, k - 1) && IsChild(m, c, b) {
        ReachIsAncestry(m, parents, a, c, k - 1);
      }
      if Ancestor(parents, b, k) == Some(a) {
        assert IsChild(m, parents[b], b);
        ReachIsAncestry(m, parents, a, parents[b], k - 1);
      }
    }
  }

  lemma ChildrenInvertParents(entries: seq<Entry>)
    requires DistinctIds(entries)
    ensures Inverse(ChildrenMap(entries), ParentMap(entries))
  {
    hide ChildrenMap, ParentMap, DistinctIds, IsChild;
    forall p, c { ChildIffParent(entries, p, c); }
  }

  lemma RootHasNoParent(entries: seq<Entry>, r: Identity)
    requires DistinctIds(entries)
    ensures r in Roots(entries) <==> r in Ids(entries) && r !in ParentMap(entries)
  {
    RootsMembers(entries, r);
    if r in Ids(entries) {
      var e :| e in entries && e.id == r;
      forall f | f in entries && f.id == r ensures f == e { SameEntry(entries, e, f); }
      if r in ParentMap(entries) { LinkMembers(entries, Ids(entries), r, ParentMap(entries)[r]); }
      if HasPresentParent(entries, e) { LinkMembers(entries, Ids(entries), r, e.parent.value); }
    }
  }

  lemma SameEntry(entries: seq<Entry>, e: Entry, f: Entry)
    requires DistinctIds(entries) && e in entries && f in entries && e.id == f.id
    ensures e == f
  {
  }

  /** Two roots never reach the same process: the descendant lists of different roots are disjoint. */
  lemma RootsReachDisjointSets(entries: seq<Entry>, r: Identity, s: Identity, x: Identity)
    requires DistinctIds(entries)
    requires r in Roots(entries) && s in Roots(entries) && Reach(ChildrenMap(entries), r, x)
    requires Reach(ChildrenMap(entries), s, x)
    ensures r == s
  {
    hide ChildrenMap, Roots, ParentMap, DistinctIds, ReachIn, Ancestor;
    var parents := ParentMap(entries);
    RootHasNoParent(entries, r);
    RootHasNoParent(entries, s);
    ChildrenInvertParents(entries);
    var j: nat :| ReachIn(ChildrenMap(entries), r, x, j);
    var k: nat :| ReachIn(ChildrenMap(entries), s, x, k);
    ReachIsAncestry(ChildrenMap(entries), ParentMap(entries), r, x, j);
    ReachIsAncestry(ChildrenMap(entries), ParentMap(entries), s, x, k);
    SameTop(parents, x, r, j, s, k);
  }

  lemma SameTop(parents: map<Identity, Identity>, x: Identity, r: Identity, j: nat, s: Identity, k: nat)
    requires r !in parents && s !in parents
    requires Ancestor(parents, x, j) == Some(r) && Ancestor(parents, x, k) == Some(s)
    ensures r == s
  {
    if j <= k { AncestorsCompose(parents, x, j, k - j); } else { AncestorsCompose(parents, x, k, j - k); }
  }

  /** Some root's descendant list holds `x`. */
  ghost predicate Covered(entries: seq<Entry>, x: Identity)
  {
    exists r :: r in Roots(entries) && Reach(ChildrenMap(entries), r, x)
  }

  /** A process on a cycle has ancestors without end, so no root is among the last of them. */
  lemma {:induction false} CycleGoesOn(parents: map<Identity, Identity>, x: Identity, k: nat, n: nat)
    requires k > 0 && Ancestor(parents, x, k) == Some(x)
    ensures Ancestor(parents, x, n).Some? && Ancestor(parents, x, n).value in parents
    decreases n
  {
    if n >= k {
      AncestorsCompose(parents, x, k, n - k);
      CycleGoesOn(parents, x, k, n - k);
    } else {
      StepsBelow(parents, x, n, k);
    }
  }

  lemma {:induction false} StepsBelow(parents: map<Identity, Identity>, x: Identity, n: nat, k: nat)
    requires n < k && Ancestor(parents, x, k).Some?
    ensures Ancestor(parents, x, n).Some? && Ancestor(parents, x, n).value in parents
    decreases n
  {
    if n > 0 { StepsBelow(parents, parents[x], n - 1, k - 1); }
  }

  ghost predicate Above(parents: map<Identity, Identity>, y: Identity, x: Identity)
  {
    exists j: nat :: j > 0 && Ancestor(parents, y, j) == Some(x)
  }

  /** Climbing from `x` reaches a process without a parent, unless it runs into a cycle. */
  lemma {:induction false} ClimbToRoot(parents: map<Identity, Identity>, universe: set<Identity>, x: Identity,
                                       below: set<Identity>) returns (root: Identity, k: nat)
    requires Acyclic(parents) && below <= universe && x in universe && x !in below
    requires forall y :: y in parents ==> parents[y] in universe
    requires forall y :: y in below ==> Above(parents, y, x)
    ensures root !in parents && root in universe && Ancestor(parents, x, k) == Some(root)
    decreases universe - below
  {
    if x !in parents {
      return x, 0;
    }
    var p := parents[x];
    assert Ancestor(parents, x, 1) == Ancestor(parents, p, 0) == Some(p);
    forall y | y in below + {x} ensures Above(parents, y, p) {
      if y != x {
        var j: nat :| j > 0 && Ancestor(parents, y, j) == Some(x);
        AncestorsCompose(parents, y, j, 1);
        assert Ancestor(parents, y, j + 1) == Some(p);
      }
    }
    assert p !in below + {x} by {
      assert Acyclic(parents) ==> !Above(parents, p, p);
    }
    var n: nat;
    root, n := ClimbToRoot(parents, universe, p, below + {x});
    k := n + 1;
  }

  lemma ParentsAreListed(entries: seq<Entry>, x: Identity)
    requires DistinctIds(entries) && x in ParentMap(entries)
    ensures x in Ids(entries) && ParentMap(entries)[x] in Ids(entries)
  {
    LinkMembers(entries, Ids(entries), x, ParentMap(entries)[x]);
  }

  /** The descendant lists of the roots cover every process exactly when no process is its own ancestor. */
  lemma RootsCoverIffAcyclic(entries: seq<Entry>)
    requires DistinctIds(entries)
    ensures (forall x :: x in Ids(entries) ==> Covered(entries, x)) <==> Acyclic(ParentMap(entries))
  {
    var parents := ParentMap(entries);
    ChildrenInvertParents(entries);
    if Acyclic(parents) {
      forall y | y in parents ensures parents[y] in Ids(entries) { ParentsAreListed(entries, y); }
      forall x | x in Ids(entries) ensures Covered(entries, x) {
        var root, k := ClimbToRoot(parents, Ids(entries), x, {});
        RootHasNoParent(entries, root);
        ReachIsAncestry(ChildrenMap(entries), ParentMap(entries), root, x, k);
      }
    }
    if forall x :: x in Ids(entries) ==> Covered(entries, x) {
      forall x: Identity, k: nat | k > 0 ensures Ancestor(parents, x, k) != Some(x) {
        if Ancestor(parents, x, k) == Some(x) {
          CoveredIsNotOnCycle(entries, x, k);
        }
      }
    }
  }

  lemma CoveredIsNotOnCycle(entries: seq<Entry>, x: Identity, k: nat)
    requires DistinctIds(entries) && k > 0
    requires Ancestor(ParentMap(entries), x, k) == Some(x)
    ensures x in Ids(entries) && !Covered(entries, x)
  {
    CycleGoesOn(ParentMap(entries), x, k, 0);
    ChildrenInvertParents(entries);
    ParentsAreListed(entries, x);
    forall r | r in Roots(entries) ensures !Reach(ChildrenMap(entries), r, x) {
      RootHasNoParent(entries, r);
      forall n: nat ensures !ReachIn(ChildrenMap(entries), r, x, n) {
        ReachIsAncestry(ChildrenMap(entries), ParentMap(entries), r, x, n);
        CycleGoesOn(ParentMap(entries), x, k, n);
      }
    }
  }
}
