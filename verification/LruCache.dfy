/**
 * The thumbnail cache: a hash map and a queue of keys, oldest use first. The reference is the list of all
 * entries ever put, ordered by last use; the cache is the window at its recent end.
 */
module LruCache {
  import opened Sorting
  import opened Wrappers

  /** Keys and values, least recently used first. */
  type Entries<V> = seq<(string, V)>

  predicate DistinctKeys<V>(list: Entries<V>)
  {
    forall i, j :: 0 <= i < j < |list| ==> list[i].0 != list[j].0
  }

  predicate HasKey<V>(list: Entries<V>, key: string)
  {
    exists i :: 0 <= i < |list| && list[i].0 == key
  }

  function Lookup<V>(list: Entries<V>, key: string): (value: Option<V>)
    ensures value.Some? <==> HasKey(list, key)
    ensures value.Some? ==> (key, value.value) in list
  {
    if list == [] then None
    else if list[0].0 == key then Some(list[0].1)
    else
      assert forall i :: 0 <= i < |list| - 1 ==> list[1..][i] == list[i + 1];
      Lookup(list[1..], key)
  }

  function Without<V>(list: Entries<V>, key: string): (rest: Entries<V>)
    ensures |rest| <= |list| && !HasKey(rest, key)
  {
    if list == [] then []
    else if list[0].0 == key then Without(list[1..], key)
    else [list[0]] + Without(list[1..], key)
  }

  /** The list after `key` has been used, with this value. */
  function Use<V>(list: Entries<V>, key: string, value: V): Entries<V>
  {
    Without(list, key) + [(key, value)]
  }

  function Recent<V>(list: Entries<V>, capacity: nat): (window: Entries<V>)
    ensures |window| == if |list| <= capacity then |list| else capacity
  {
    if |list| <= capacity then list else list[|list| - capacity..]
  }

  // ---------- the cache ----------

  function AfterGet<V>(list: Entries<V>, key: string): Entries<V>
  {
    match Lookup(list, key)
    case Some(value) => Use(list, key, value)
    case None => list
  }

  function AfterPut<V>(list: Entries<V>, capacity: nat, key: string, value: V): Entries<V>
  {
    Recent(Use(list, key, value), capacity)
  }

  function Pairs<V>(order: seq<string>, values: map<string, V>): (list: Entries<V>)
    requires forall key :: key in order ==> key in values
    ensures |list| == |order| && forall i :: 0 <= i < |list| ==> list[i] == (order[i], values[order[i]])
  {
    seq(|order|, i requires 0 <= i < |order| => (order[i], values[order[i]]))
  }

  class Cache<V> {
    const capacity: nat
    var values: map<string, V>
    var order: seq<string>

    /** The queue lists every key of the map once, and there are at most `capacity`. */
    ghost predicate Valid()
      reads this
    {
      0 < capacity && |order| <= capacity && Distinct(order) && forall key :: key in order <==> key in values
    }

    ghost function List(): Entries<V>
      requires Valid()
      reads this
    {
      Pairs(order, values)
    }

    constructor (wanted: nat)
      ensures Valid() && List() == [] && capacity == if wanted == 0 then 1 else wanted
    {
      capacity := if wanted == 0 then 1 else wanted;
      values, order := map[], [];
    }

    method Get(key: string) returns (value: Option<V>)
      requires Valid()
      modifies this
      ensures Valid() && value == Lookup(old(List()), key) && List() == AfterGet(old(List()), key)
    {
      hide Pairs, Use, Lookup, HasKey;
      PairsLookup(order, values, key);
      if key !in values { return None; }
      value := Some(values[key]);
      var at := Touch(key);
      PairsUse(old(order), values, at, values[key]);
      assert values[key := values[key]] == values;
    }

    method Put(key: string, value: V) returns (evicted: Option<(string, V)>)
      requires Valid()
      modifies this
      ensures Valid() && List() == AfterPut(old(List()), capacity, key, value)
      ensures evicted == if !HasKey(old(List()), key) && |old(List())| == capacity then Some(old(List())[0]) else None
    {
      hide Pairs, Use, Lookup, HasKey;
      PairsLookup(order, values, key);
      if key in values {
        values := values[key := value];
        var at := Touch(key);
        PairsUse(old(order), old(values), at, value);
        RecentAll(List(), capacity);
        return None;
      }
      evicted := None;
      KeysCount(order, values);
      RecentUse(List(), capacity, key, value);
      if |values| >= capacity {
        var oldest := order[0];
        evicted := Some((oldest, values[oldest]));
        PairsTail(order, values);
        values, order := values - {oldest}, order[1..];
      }
      PairsAppend(order, values, key, value);
      values, order := values[key := value], order + [key];
    }

    /** Moves a key to the recent end of the queue. */
    method Touch(key: string) returns (ghost at: nat)
      requires key in order && Distinct(order)
      modifies `order
      ensures at < |old(order)| && old(order)[at] == key && order == old(order)[..at] + old(order)[at + 1..] + [key]
    {
      var position := 0;
      while order[position] != key
        invariant position < |order| && key in order[position..]
        decreases |order| - position
      {
        position := position + 1;
      }
      order := order[..position] + order[position + 1..] + [key];
      at := position;
    }
  }

  lemma PairsLookup<V>(order: seq<string>, values: map<string, V>, key: string)
    requires Distinct(order) && forall k :: k in order <==> k in values
    ensures HasKey(Pairs(order, values), key) <==> key in values
    ensures Lookup(Pairs(order, values), key) == if key in values then Some(values[key]) else None
  {
  }

  lemma PairsUse<V>(order: seq<string>, values: map<string, V>, at: nat, value: V)
    requires Distinct(order) && (forall k :: k in order ==> k in values) && at < |order|
    ensures Pairs(order[..at] + order[at + 1..] + [order[at]], values[order[at] := value])
         == Use(Pairs(order, values), order[at], value)
  {
    var list := Pairs(order, values);
    WithoutAt(list, at);
  }

  lemma RecentAll<V>(list: Entries<V>, capacity: nat)
    requires |list| <= capacity
    ensures Recent(list, capacity) == list
  {
  }

  lemma TailKeys(order: seq<string>, k: string)
    requires Distinct(order) && order != []
    ensures k in order[1..] <==> k in order && k != order[0]
  {
    assert order == [order[0]] + order[1..];
  }

  /** A new key, and room for it. */
  lemma PairsAppend<V>(order: seq<string>, values: map<string, V>, key: string, value: V)
    requires Distinct(order) && (forall k :: k in order <==> k in values) && key !in values
    ensures Distinct(order + [key])
    ensures Pairs(order + [key], values[key := value]) == Use(Pairs(order, values), key, value)
  {
    var list := Pairs(order, values);
    WithoutAbsent(list, key);
    assert Pairs(order + [key], values[key := value]) == list + [(key, value)];
  }

  /** Dropping the oldest entry. */
  lemma PairsTail<V>(order: seq<string>, values: map<string, V>)
    requires Distinct(order) && (forall k :: k in order <==> k in values) && order != []
    ensures Distinct(order[1..]) && (forall k :: k in order[1..] <==> k in values - {order[0]})
    ensures Pairs(order, values)[0] == (order[0], values[order[0]])
    ensures Pairs(order[1..], values - {order[0]}) == Pairs(order, values)[1..]
  {
    forall k ensures k in order[1..] <==> k in values - {order[0]} {
      TailKeys(order, k);
    }
  }

  /** Appending to a full list and then keeping the recent part is dropping the oldest entry first. */
  lemma RecentUse<V>(list: Entries<V>, capacity: nat, key: string, value: V)
    requires !HasKey(list, key) && 0 < capacity && |list| <= capacity
    ensures Recent(Use(list, key, value), capacity)
         == if |list| == capacity then Use(list[1..], key, value) else Use(list, key, value)
  {
    WithoutAbsent(list, key);
    if |list| == capacity {
      assert !HasKey(list[1..], key) by { assert forall i :: 0 <= i < |list| - 1 ==> list[1..][i] == list[i + 1]; }
      WithoutAbsent(list[1..], key);
      assert (list + [(key, value)])[1..] == list[1..] + [(key, value)];
    }
  }

  lemma {:induction false} WithoutAt<V>(list: Entries<V>, at: nat)
    requires DistinctKeys(list) && at < |list|
    ensures Without(list, list[at].0) == list[..at] + list[at + 1..]
  {
    if at == 0 {
      WithoutAbsent(list[1..], list[0].0);
    } else {
      WithoutAt(list[1..], at - 1);
      assert list[1..][..at - 1] == list[..at][1..] && list[1..][at..] == list[at + 1..];
    }
  }

  lemma {:induction false} WithoutAbsent<V>(list: Entries<V>, key: string)
    requires !HasKey(list, key)
    ensures Without(list, key) == list
  {
    if list != [] {
      assert forall i :: 0 <= i < |list| - 1 ==> list[1..][i] == list[i + 1];
      WithoutAbsent(list[1..], key);
    }
  }

  lemma {:induction false} KeysCount<V>(order: seq<string>, values: map<string, V>)
    requires Distinct(order) && forall k :: k in order <==> k in values
    ensures |values| == |order|
    decreases |order|
  {
    if order == [] {
      assert values == map[];
    } else {
      PairsTail(order, values);
      KeysCount(order[1..], values - {order[0]});
      assert values.Keys == (values - {order[0]}).Keys + {order[0]};
      assert |values| == |values.Keys|;
    }
  }

  // ---------- every run ----------

  datatype Op<V> = Get(key: string) | Put(key: string, value: V)

  /** The cache after a run of calls. */
  function CacheAfter<V>(ops: seq<Op<V>>, capacity: nat): Entries<V>
  {
    if ops == [] then [] else
      var before := CacheAfter(ops[..|ops| - 1], capacity);
      match ops[|ops| - 1]
      case Get(key) => AfterGet(before, key)
      case Put(key, value) => AfterPut(before, capacity, key, value)
  }

  /** All entries ever put, least recently used first: a lookup is a use when the entry is still cached. */
  function History<V>(ops: seq<Op<V>>, capacity: nat): (list: Entries<V>)
    ensures DistinctKeys(list)
  {
    if ops == [] then [] else
      var before := History(ops[..|ops| - 1], capacity);
      match ops[|ops| - 1]
      case Get(key) =>
        (match Lookup(Recent(before, capacity), key)
         case Some(value) => UseDistinct(before, key, value); Use(before, key, value)
         case None => before)
      case Put(key, value) => UseDistinct(before, key, value); Use(before, key, value)
  }

  lemma {:induction false} WithoutDistinct<V>(list: Entries<V>, key: string)
    requires DistinctKeys(list)
    ensures DistinctKeys(Without(list, key))
  {
    if HasKey(list, key) {
      var at :| 0 <= at < |list| && list[at].0 == key;
      WithoutAt(list, at);
    } else {
      WithoutAbsent(list, key);
    }
  }

  lemma UseDistinct<V>(list: Entries<V>, key: string, value: V)
    requires DistinctKeys(list)
    ensures DistinctKeys(Use(list, key, value))
  {
    WithoutDistinct(list, key);
    var rest := Without(list, key);
    assert forall i :: 0 <= i < |rest| ==> rest[i].0 != key;
  }

  lemma {:induction false} WithoutConcat<V>(a: Entries<V>, b: Entries<V>, key: string)
    ensures Without(a + b, key) == Without(a, key) + Without(b, key)
  {
    if a == [] {
      assert a + b == b;
    } else {
      WithoutConcat(a[1..], b, key);
      assert (a + b)[1..] == a[1..] + b;
    }
  }

  lemma RecentOfConcat<V>(a: Entries<V>, b: Entries<V>, capacity: nat)
    requires capacity <= |b|
    ensures Recent(a + b, capacity) == Recent(b, capacity)
  {
  }

  /** Using an entry commutes with forgetting all but the recent ones. */
  lemma RecentOfUse<V>(list: Entries<V>, capacity: nat, key: string, value: V)
    requires DistinctKeys(list) && 0 < capacity
    ensures Recent(Use(list, key, value), capacity) == Recent(Use(Recent(list, capacity), key, value), capacity)
  {
    if |list| > capacity {
      hide Recent, Without;
      var older, window := list[..|list| - capacity], list[|list| - capacity..];
      RecentIsTail(list, capacity);
      assert list == older + window;
      WithoutConcat(older, window, key);
      assert Use(list, key, value) == Without(older, key) + Use(window, key, value);
      RecentDistinct(list, capacity);
      if HasKey(window, key) {
        RecentOfHit(window, capacity, key, value);
      } else {
        WithoutAbsent(window, key);
      }
      RecentOfConcat(Without(older, key), Use(window, key, value), capacity);
    }
  }

  lemma RecentIsTail<V>(list: Entries<V>, capacity: nat)
    requires |list| > capacity
    ensures Recent(list, capacity) == list[|list| - capacity..]
  {
  }

  lemma RecentOfHit<V>(list: Entries<V>, capacity: nat, key: string, value: V)
    requires DistinctKeys(list) && |list| <= capacity && HasKey(list, key)
    ensures |Use(list, key, value)| == |list|
  {
    var at :| 0 <= at < |list| && list[at].0 == key;
    WithoutAt(list, at);
  }

  /** Over every run, the cache is the recent end of the history. */
  lemma {:induction false} CacheIsRecentHistory<V>(ops: seq<Op<V>>, capacity: nat)
    requires 0 < capacity
    ensures CacheAfter(ops, capacity) == Recent(History(ops, capacity), capacity)
  {
    if ops != [] {
      var before := ops[..|ops| - 1];
      CacheIsRecentHistory(before, capacity);
      hide Use, Lookup, DistinctKeys, Recent;
      var history := History(before, capacity);
      match ops[|ops| - 1]
      case Get(key) =>
        var hit := Lookup(Recent(history, capacity), key);
        if hit.Some? {
          RecentOfUse(history, capacity, key, hit.value);
          RecentDistinct(history, capacity);
          RecentOfHit(Recent(history, capacity), capacity, key, hit.value);
          RecentAll(Use(Recent(history, capacity), key, hit.value), capacity);
        }
      case Put(key, value) =>
        RecentOfUse(history, capacity, key, value);
    }
  }

  lemma RecentDistinct<V>(list: Entries<V>, capacity: nat)
    requires DistinctKeys(list)
    ensures DistinctKeys(Recent(list, capacity))
  {
  }

  function LastPut<V>(ops: seq<Op<V>>, key: string): Option<V>
  {
    if ops == [] then None
    else if ops[|ops| - 1].Put? && ops[|ops| - 1].key == key then Some(ops[|ops| - 1].value)
    else LastPut(ops[..|ops| - 1], key)
  }

  /** When a key was last used, counting calls from 1; 0 if never. */
  function LastUse<V>(ops: seq<Op<V>>, capacity: nat, key: string): (when: nat)
    ensures when <= |ops|
  {
    if ops == [] then 0
    else if ops[|ops| - 1].key == key &&
            (ops[|ops| - 1].Put? || HasKey(CacheAfter(ops[..|ops| - 1], capacity), key)) then |ops|
    else LastUse(ops[..|ops| - 1], capacity, key)
  }

  predicate ByLastUse<V>(list: Entries<V>, ops: seq<Op<V>>, capacity: nat)
  {
    forall i, j :: 0 <= i < j < |list| ==> LastUse(ops, capacity, list[i].0) < LastUse(ops, capacity, list[j].0)
  }

  /** The history lists exactly the keys ever put, each with the value put last, in the order of last use. */
  lemma {:induction false} HistoryRemembers<V>(ops: seq<Op<V>>, capacity: nat, key: string)
    requires 0 < capacity
    ensures Lookup(History(ops, capacity), key) == LastPut(ops, key)
  {
    if ops != [] {
      var before, last := ops[..|ops| - 1], ops[|ops| - 1];
      HistoryRemembers(before, capacity, key);
      var history := History(before, capacity);
      if last.Put? {
        LookupUse(history, last.key, last.value, key);
      } else {
        var hit := Lookup(Recent(history, capacity), last.key);
        if hit.Some? {
          LookupRecent(history, capacity, last.key);
          LookupUse(history, last.key, hit.value, key);
        }
      }
    }
  }

  lemma LookupAt<V>(list: Entries<V>, at: nat)
    requires DistinctKeys(list) && at < |list|
    ensures Lookup(list, list[at].0) == Some(list[at].1)
  {
    var value := Lookup(list, list[at].0).value;
    var i :| 0 <= i < |list| && list[i] == (list[at].0, value);
  }

  lemma LookupUse<V>(list: Entries<V>, used: string, value: V, key: string)
    requires DistinctKeys(list)
    ensures Lookup(Use(list, used, value), key) == if key == used then Some(value) else Lookup(list, key)
  {
    var after := Use(list, used, value);
    UseDistinct(list, used, value);
    LookupAt(after, |after| - 1);
    if key != used && HasKey(list, key) {
      var i :| 0 <= i < |list| && list[i].0 == key;
      LookupAt(list, i);
      KeptByWithout(list, used, i);
      assert list[i] in after;
      var j :| 0 <= j < |after| && after[j] == list[i];
      LookupAt(after, j);
    } else if key != used {
      NotAddedByWithout(list, used, key);
    }
  }

  lemma KeptByWithout<V>(list: Entries<V>, used: string, i: nat)
    requires DistinctKeys(list) && i < |list| && list[i].0 != used
    ensures list[i] in Without(list, used)
  {
    if HasKey(list, used) {
      var at :| 0 <= at < |list| && list[at].0 == used;
      WithoutAt(list, at);
      assert list[i] in list[..at] || list[i] in list[at + 1..];
    } else {
      WithoutAbsent(list, used);
    }
  }

  lemma {:induction false} NotAddedByWithout<V>(list: Entries<V>, used: string, key: string)
    requires !HasKey(list, key)
    ensures !HasKey(Without(list, used), key)
  {
    if list != [] {
      assert forall i :: 0 <= i < |list| - 1 ==> list[1..][i] == list[i + 1];
      NotAddedByWithout(list[1..], used, key);
    }
  }

  lemma LookupRecent<V>(list: Entries<V>, capacity: nat, key: string)
    requires DistinctKeys(list) && HasKey(Recent(list, capacity), key)
    ensures Lookup(Recent(list, capacity), key) == Lookup(list, key)
  {
    var window := Recent(list, capacity);
    var i :| 0 <= i < |window| && window[i].0 == key;
    RecentDistinct(list, capacity);
    LookupAt(window, i);
    LookupAt(list, |list| - |window| + i);
  }

  lemma {:induction false} HistoryByLastUse<V>(ops: seq<Op<V>>, capacity: nat)
    requires 0 < capacity
    ensures ByLastUse(History(ops, capacity), ops, capacity)
  {
    if ops != [] {
      var before, last := ops[..|ops| - 1], ops[|ops| - 1];
      HistoryByLastUse(before, capacity);
      CacheIsRecentHistory(before, capacity);
      var history := History(before, capacity);
      if last.Put? {
        UseLast(history, ops, capacity, last.value);
      } else if HasKey(CacheAfter(before, capacity), last.key) {
        UseLast(history, ops, capacity, Lookup(Recent(history, capacity), last.key).value);
      } else {
        assert History(ops, capacity) == history;
      }
    }
  }

  lemma UseLast<V>(history: Entries<V>, ops: seq<Op<V>>, capacity: nat, value: V)
    requires ops != [] && DistinctKeys(history) && ByLastUse(history, ops[..|ops| - 1], capacity)
    requires LastUse(ops, capacity, ops[|ops| - 1].key) == |ops|
    ensures ByLastUse(Use(history, ops[|ops| - 1].key, value), ops, capacity)
  {
    hide Without, HasKey, CacheAfter;
    var before, key := ops[..|ops| - 1], ops[|ops| - 1].key;
    var rest := Without(history, key);
    RestByLastUse(history, before, capacity, key);
    forall i | 0 <= i < |rest|
      ensures LastUse(ops, capacity, rest[i].0) == LastUse(before, capacity, rest[i].0) < |ops|
    {
      assert rest[i].0 != key;
    }
  }

  lemma RestByLastUse<V>(history: Entries<V>, ops: seq<Op<V>>, capacity: nat, key: string)
    requires DistinctKeys(history) && ByLastUse(history, ops, capacity)
    ensures var rest := Without(history, key);
            ByLastUse(rest, ops, capacity) && forall i :: 0 <= i < |rest| ==> rest[i].0 != key
  {
    hide LastUse;
    if HasKey(history, key) {
      var at :| 0 <= at < |history| && history[at].0 == key;
      WithoutAt(history, at);
    } else {
      WithoutAbsent(history, key);
    }
  }

  /** The queue is in the order of last use, so the entry that is evicted first is the least recently used. */
  lemma CacheByLastUse<V>(ops: seq<Op<V>>, capacity: nat)
    requires 0 < capacity
    ensures ByLastUse(CacheAfter(ops, capacity), ops, capacity)
  {
    hide LastUse, History;
    HistoryByLastUse(ops, capacity);
    CacheIsRecentHistory(ops, capacity);
  }

  /** The keys put so far that have been used after `key` was last used. */
  ghost function UsedSince<V>(ops: seq<Op<V>>, capacity: nat, key: string): set<string>
  {
    set op | op in ops && LastPut(ops, op.key).Some? &&
             LastUse(ops, capacity, op.key) > LastUse(ops, capacity, key) :: op.key
  }

  /**
   * After every run a lookup gives the value put last, if and only if there is one and fewer than
   * `capacity` other keys have been used since the key was.
   */
  lemma LookupGivesLastPut<V>(ops: seq<Op<V>>, capacity: nat, key: string)
    requires 0 < capacity
    ensures Lookup(CacheAfter(ops, capacity), key)
         == if LastPut(ops, key).Some? && |UsedSince(ops, capacity, key)| < capacity then LastPut(ops, key) else None
  {
    hide Lookup, LastUse, LastPut, CacheAfter, Recent;
    var history := History(ops, capacity);
    CacheIsRecentHistory(ops, capacity);
    HistoryRemembers(ops, capacity, key);
    if HasKey(history, key) {
      var i :| 0 <= i < |history| && history[i].0 == key;
      NewerEntries(ops, capacity, i);
      InRecent(history, capacity, i);
    } else {
      NotInRecent(history, capacity, key);
    }
  }

  lemma InRecent<V>(list: Entries<V>, capacity: nat, i: nat)
    requires DistinctKeys(list) && i < |list|
    ensures Lookup(Recent(list, capacity), list[i].0) ==
            if |list| - 1 - i < capacity then Lookup(list, list[i].0) else None
  {
    hide Lookup, Recent;
    var window := Recent(list, capacity);
    var cut := |list| - |window|;
    RecentAt(list, capacity);
    if |list| - 1 - i < capacity {
      assert window[i - cut] == list[i];
      LookupRecent(list, capacity, list[i].0);
    } else {
      forall j | 0 <= j < |window| ensures window[j].0 != list[i].0 {
        assert window[j] == list[cut + j];
      }
    }
  }

  lemma RecentAt<V>(list: Entries<V>, capacity: nat)
    ensures var window := Recent(list, capacity);
            forall j :: 0 <= j < |window| ==> window[j] == list[|list| - |window| + j]
  {
  }

  lemma NotInRecent<V>(list: Entries<V>, capacity: nat, key: string)
    requires !HasKey(list, key)
    ensures !HasKey(Recent(list, capacity), key)
  {
  }

  lemma NewerEntries<V>(ops: seq<Op<V>>, capacity: nat, i: nat)
    requires 0 < capacity && i < |History(ops, capacity)|
    ensures |UsedSince(ops, capacity, History(ops, capacity)[i].0)| == |History(ops, capacity)| - 1 - i
  {
    hide Lookup, LastUse, LastPut, History;
    var history := History(ops, capacity);
    var newer, key := history[i + 1..], history[i].0;
    HistoryByLastUse(ops, capacity);
    KeySetSize(newer);
    forall k ensures k in UsedSince(ops, capacity, key) <==> k in KeySet(newer) {
      HistoryRemembers(ops, capacity, k);
      if LastPut(ops, k).Some? {
        PutKeyInOps(ops, k);
        var j :| 0 <= j < |history| && history[j].0 == k;
        assert j > i ==> newer[j - i - 1] == history[j];
      }
      if k in KeySet(newer) {
        var n :| 0 <= n < |newer| && newer[n].0 == k;
        assert history[i + 1 + n] == newer[n];
      }
    }
    assert UsedSince(ops, capacity, key) == KeySet(newer);
  }

  function KeySet<V>(list: Entries<V>): (keys: set<string>)
  {
    set i | 0 <= i < |list| :: list[i].0
  }

  lemma {:induction false} KeySetSize<V>(list: Entries<V>)
    requires DistinctKeys(list)
    ensures |KeySet(list)| == |list|
  {
    if list != [] {
      var shorter := list[..|list| - 1];
      KeySetSize(shorter);
      assert KeySet(list) == KeySet(shorter) + {list[|list| - 1].0};
    }
  }

  lemma {:induction false} PutKeyInOps<V>(ops: seq<Op<V>>, key: string)
    requires LastPut(ops, key).Some?
    ensures exists op :: op in ops && op.key == key
  {
    if !(ops[|ops| - 1].Put? && ops[|ops| - 1].key == key) {
      PutKeyInOps(ops[..|ops| - 1], key);
    } else {
      assert ops[|ops| - 1] in ops;
    }
  }
}
