/**
 * Merging the catalogs of several sources. Items of one publisher and tool with the same stable digest
 * fold into one entry; everything else stays apart.
 */
module CatalogMerge {
  import opened Sorting
  import opened Wrappers
  import Text

  /** A smaller priority number wins. `details` stands for what merging only carries along. */
  datatype Item = Item(source: string, priority: int, publisher: string, tool: string, digest: Option<string>,
                       details: string)

  datatype Merged = Merged(item: Item, mirrors: seq<string>, conflict: bool)

  /** Stands, followed by the source, for a missing digest. */
  const NO_DIGEST := "nodigest:"

  /** Items fold when they have the same key. */
  datatype Key = Key(tool: string, publisher: string, digest: string)

  function KeyOf(item: Item): Key
  {
    Key(item.tool, item.publisher, match item.digest case Some(digest) => digest case None => NO_DIGEST + item.source)
  }

  // ---------- orders ----------

  predicate KeyAtMost(a: Key, b: Key)
  {
    if a.tool != b.tool then Text.Less(a.tool, b.tool)
    else if a.publisher != b.publisher then Text.Less(a.publisher, b.publisher)
    else Text.AtMost(a.digest, b.digest)
  }

  predicate ItemAtMost(a: Item, b: Item)
  {
    a.priority < b.priority || (a.priority == b.priority && Text.AtMost(a.source, b.source))
  }

  lemma AtMostTransitive(a: string, b: string, c: string)
    requires Text.AtMost(a, b) && Text.AtMost(b, c)
    ensures Text.AtMost(a, c)
  {
    if a != b && b != c { Text.LessTransitive(a, b, c); }
  }

  lemma LessAsymmetric(a: string, b: string)
    requires Text.Less(a, b)
    ensures a != b && !Text.Less(b, a)
  {
    Text.LessIrreflexive(a);
    if Text.Less(b, a) { Text.LessTransitive(a, b, a); }
  }

  lemma ItemOrder()
    ensures TotalPreorder(ItemAtMost)
  {
    forall a, b ensures ItemAtMost(a, b) || ItemAtMost(b, a) { Text.LessTotal(a.source, b.source); }
    forall a, b, c | ItemAtMost(a, b) && ItemAtMost(b, c) ensures ItemAtMost(a, c) {
      if a.priority == b.priority == c.priority { AtMostTransitive(a.source, b.source, c.source); }
    }
  }

  lemma KeyOrder(a: Key, b: Key, c: Key)
    ensures KeyAtMost(a, b) || KeyAtMost(b, a)
    ensures KeyAtMost(a, b) && KeyAtMost(b, a) ==> a == b
    ensures KeyAtMost(a, b) && KeyAtMost(b, c) ==> KeyAtMost(a, c)
  {
    hide Text.Less;
    StringOrder(a.tool, b.tool, c.tool);
    StringOrder(a.publisher, b.publisher, c.publisher);
    StringOrder(a.digest, b.digest, c.digest);
  }

  lemma StringOrder(a: string, b: string, c: string)
    ensures Text.Less(a, b) || a == b || Text.Less(b, a)
    ensures !(Text.Less(a, b) && Text.Less(b, a)) && !Text.Less(a, a)
    ensures Text.Less(a, b) && Text.Less(b, c) ==> Text.Less(a, c)
  {
    hide Text.Less;
    Text.LessTotal(a, b);
    Text.LessIrreflexive(a);
    if Text.Less(a, b) && Text.Less(b, a) { LessAsymmetric(a, b); }
    if Text.Less(a, b) && Text.Less(b, c) { Text.LessTransitive(a, b, c); }
  }

  // ---------- what the merge must be ----------

  /** The items with this key, in their order. */
  function Group(items: seq<Item>, key: Key): (group: seq<Item>)
    ensures forall x :: x in group <==> x in items && KeyOf(x) == key
  {
    if items == [] then []
    else
      var last := items[|items| - 1];
      Group(items[..|items| - 1], key) + if KeyOf(last) == key then [last] else []
  }

  function Sources(items: seq<Item>): (sources: seq<string>)
    ensures |sources| == |items| && forall i :: 0 <= i < |items| ==> sources[i] == items[i].source
  {
    seq(|items|, i requires 0 <= i < |items| => items[i].source)
  }

  predicate Conflicting(items: seq<Item>, tool: string)
  {
    exists x, y :: x in items && y in items && x.tool == y.tool == tool && x.publisher != y.publisher
  }

  /** The entry of a key: its best item, the sources of the others from best to worst, and the conflict flag. */
  function EntryOf(items: seq<Item>, key: Key): Merged
    requires Group(items, key) != []
  {
    var members := Sort(Group(items, key), ItemAtMost);
    Merged(members[0], Sources(members[1..]), Conflicting(items, key.tool))
  }

  predicate KeyBefore(a: Key, b: Key)
  {
    KeyAtMost(a, b) && a != b
  }

  function EntryKeys(out: seq<Merged>): (keys: seq<Key>)
    ensures |keys| == |out| && forall i :: 0 <= i < |out| ==> keys[i] == KeyOf(out[i].item)
  {
    seq(|out|, i requires 0 <= i < |out| => KeyOf(out[i].item))
  }

  predicate InOrder(keys: seq<Key>)
  {
    forall i, j :: 0 <= i < j < |keys| ==> KeyBefore(keys[i], keys[j])
  }

  predicate IsEntry(items: seq<Item>, entry: Merged)
  {
    Group(items, KeyOf(entry.item)) != [] && entry == EntryOf(items, KeyOf(entry.item))
  }

  /** One entry for each of the keys, in the order of the keys. */
  ghost predicate MergesKeys(items: seq<Item>, out: seq<Merged>, keys: set<Key>)
  {
    (forall i :: 0 <= i < |out| ==> IsEntry(items, out[i])) &&
    (forall key :: key in keys <==> key in EntryKeys(out)) &&
    InOrder(EntryKeys(out))
  }

  function KeysOf(items: seq<Item>): (keys: set<Key>)
    ensures forall key :: key in keys <==> Group(items, key) != []
  {
    var keys := set x | x in items :: KeyOf(x);
    assert forall key :: Group(items, key) != [] ==> Group(items, key)[0] in Group(items, key);
    assert forall x :: x in items ==> x in Group(items, KeyOf(x));
    keys
  }

  ghost predicate IsMerge(items: seq<Item>, out: seq<Merged>)
  {
    MergesKeys(items, out, KeysOf(items))
  }

  // ---------- the merge ----------

  /** Every tool's publishers, each once. */
  ghost predicate ListsPublishers(publishers: map<string, seq<string>>, items: seq<Item>)
  {
    (forall tool :: tool in publishers ==> Distinct(publishers[tool])) &&
    (forall tool, p :: tool in publishers && p in publishers[tool] ==> Publishes(items, tool, p)) &&
    (forall x :: x in items ==> x.tool in publishers && x.publisher in publishers[x.tool])
  }

  predicate Publishes(items: seq<Item>, tool: string, publisher: string)
  {
    exists x :: x in items && x.tool == tool && x.publisher == publisher
  }

  method FindConflicts(items: seq<Item>) returns (conflicts: set<string>)
    ensures forall tool :: tool in conflicts <==> Conflicting(items, tool)
  {
    hide Publishes, Distinct;
    var publishers: map<string, seq<string>> := map[];
    for i := 0 to |items|
      invariant ListsPublishers(publishers, items[..i])
    {
      var x := items[i];
      var known := if x.tool in publishers then publishers[x.tool] else [];
      MorePublishers(publishers, items[..i], x);
      if x.publisher !in known { known := known + [x.publisher]; }
      publishers := publishers[x.tool := known];
      assert items[..i + 1] == items[..i] + [x];
    }
    assert items[..|items|] == items;
    conflicts := set tool | tool in publishers && |publishers[tool]| > 1;
    forall tool ensures tool in conflicts <==> Conflicting(items, tool) {
      ConflictByCount(publishers, items, tool);
    }
  }

  lemma MorePublishers(publishers: map<string, seq<string>>, items: seq<Item>, x: Item)
    requires ListsPublishers(publishers, items)
    ensures var known := if x.tool in publishers then publishers[x.tool] else [];
            ListsPublishers(publishers[x.tool := if x.publisher in known then known else known + [x.publisher]],
                            items + [x])
  {
    assert x in items + [x];
    forall tool, p | Publishes(items, tool, p) ensures Publishes(items + [x], tool, p) {
      var y :| y in items && y.tool == tool && y.publisher == p;
      assert y in items + [x];
    }
  }

  lemma ConflictByCount(publishers: map<string, seq<string>>, items: seq<Item>, tool: string)
    requires ListsPublishers(publishers, items)
    ensures tool in publishers && |publishers[tool]| > 1 <==> Conflicting(items, tool)
  {
    if tool in publishers && |publishers[tool]| > 1 {
      var p, q := publishers[tool][0], publishers[tool][1];
      assert p in publishers[tool] && q in publishers[tool];
      var x :| x in items && x.tool == tool && x.publisher == p;
      var y :| y in items && y.tool == tool && y.publisher == q;
    }
    if Conflicting(items, tool) {
      var x, y :| x in items && y in items && x.tool == y.tool == tool && x.publisher != y.publisher;
      assert x.publisher in publishers[tool] && y.publisher in publishers[tool];
    }
  }

  method GroupItems(items: seq<Item>) returns (groups: map<Key, seq<Item>>)
    ensures forall key :: key in groups <==> Group(items, key) != []
    ensures forall key :: key in groups ==> groups[key] == Group(items, key)
  {
    groups := map[];
    for i := 0 to |items|
      invariant forall key :: key in groups <==> Group(items[..i], key) != []
      invariant forall key :: key in groups ==> groups[key] == Group(items[..i], key)
    {
      var key := KeyOf(items[i]);
      var known := if key in groups then groups[key] else [];
      groups := groups[key := known + [items[i]]];
      assert items[..i + 1][..i] == items[..i];
    }
    assert items[..|items|] == items;
  }

  method LeastKey(keys: set<Key>) returns (least: Key)
    requires keys != {}
    ensures least in keys && forall k :: k in keys ==> KeyAtMost(least, k)
  {
    hide KeyAtMost;
    var left := keys;
    least :| least in left;
    KeyOrder(least, least, least);
    left := left - {least};
    while left != {}
      invariant least in keys && left <= keys
      invariant forall k :: k in keys && k !in left ==> KeyAtMost(least, k)
    {
      var next :| next in left;
      KeyOrder(next, least, next);
      if !KeyAtMost(least, next) {
        forall k | k in keys && KeyAtMost(least, k) ensures KeyAtMost(next, k) { KeyOrder(next, least, k); }
        KeyOrder(next, next, next);
        least := next;
      }
      left := left - {next};
    }
  }

  lemma EntryKey(items: seq<Item>, key: Key)
    requires Group(items, key) != []
    ensures KeyOf(EntryOf(items, key).item) == key
  {
    var group := Group(items, key);
    SameElements(group, Sort(group, ItemAtMost), Sort(group, ItemAtMost)[0]);
  }

  lemma OneMoreKey(items: seq<Item>, out: seq<Merged>, keys: set<Key>, key: Key)
    requires MergesKeys(items, out, keys) && Group(items, key) != [] && forall k :: k in keys ==> KeyBefore(k, key)
    ensures MergesKeys(items, out + [EntryOf(items, key)], keys + {key})
  {
    hide KeyBefore, EntryOf, Group, KeyOf;
    EntryKey(items, key);
    var entry := EntryOf(items, key);
    assert EntryKeys(out + [entry]) == EntryKeys(out) + [key];
  }

  method MergeCatalog(items: seq<Item>) returns (out: seq<Merged>)
    ensures IsMerge(items, out)
  {
    hide MergesKeys, KeyAtMost, Group, Conflicting, Sort;
    var conflicts := FindConflicts(items);
    var groups := GroupItems(items);
    out := [];
    NoKeys(items);
    var left := groups.Keys;
    while left != {}
      invariant left <= groups.Keys && MergesKeys(items, out, groups.Keys - left)
      invariant forall key, k :: key in groups.Keys - left && k in left ==> KeyBefore(key, k)
    {
      var key := LeastKey(left);
      var members := Sort(groups[key], ItemAtMost);
      OneMoreKey(items, out, groups.Keys - left, key);
      out := out + [Merged(members[0], Sources(members[1..]), key.tool in conflicts)];
      assert groups.Keys - (left - {key}) == groups.Keys - left + {key};
      left := left - {key};
    }
    assert groups.Keys - {} == KeysOf(items);
  }

  lemma NoKeys(items: seq<Item>)
    ensures forall keys: set<Key> :: MergesKeys(items, [], keys - keys)
  {
  }

  // ---------- the result is determined ----------

  lemma InTail(keys: seq<Key>, k: Key)
    requires InOrder(keys) && keys != []
    ensures k in keys[1..] <==> k in keys && k != keys[0]
  {
    hide KeyAtMost;
    assert keys == [keys[0]] + keys[1..];
    assert forall j :: 0 <= j < |keys| - 1 ==> keys[1..][j] == keys[j + 1] && KeyBefore(keys[0], keys[j + 1]);
  }

  lemma {:induction false} OneOrder(a: seq<Key>, b: seq<Key>)
    requires InOrder(a) && InOrder(b) && forall k :: k in a <==> k in b
    ensures a == b
  {
    hide KeyAtMost;
    if a != [] && b != [] {
      assert a[0] in b && b[0] in a;
      KeyOrder(a[0], b[0], a[0]);
      assert a[0] == b[0];
      forall k ensures k in a[1..] <==> k in b[1..] {
        InTail(a, k);
        InTail(b, k);
      }
      OneOrder(a[1..], b[1..]);
    } else if a != [] {
      SomethingIn(a, b);
    } else if b != [] {
      SomethingIn(b, a);
    }
  }

  lemma SomethingIn(a: seq<Key>, b: seq<Key>)
    requires a != [] && forall k :: k in a ==> k in b
    ensures b != []
  {
    assert a[0] in a;
  }

  /** The items determine the merged list. */
  lemma MergeIsDetermined(items: seq<Item>, out: seq<Merged>, other: seq<Merged>)
    requires IsMerge(items, out) && IsMerge(items, other)
    ensures out == other
  {
    hide Group, KeyOf, EntryOf, InOrder;
    OneOrder(EntryKeys(out), EntryKeys(other));
    forall i | 0 <= i < |out| ensures out[i] == other[i] {
      assert IsEntry(items, out[i]) && IsEntry(items, other[i]);
      assert EntryKeys(out)[i] == EntryKeys(other)[i];
    }
  }

  /** No source lists a publisher's tool twice. */
  predicate OncePerSource(items: seq<Item>)
  {
    forall i, j :: 0 <= i < j < |items| ==>
                     items[i].source != items[j].source || items[i].publisher != items[j].publisher ||
                     items[i].tool != items[j].tool
  }

  lemma {:induction false} GroupCount(items: seq<Item>, key: Key, x: Item)
    ensures multiset(Group(items, key))[x] == if KeyOf(x) == key then multiset(items)[x] else 0
  {
    if items != [] {
      var front, last := items[..|items| - 1], items[|items| - 1];
      GroupCount(front, key, x);
      CountOneMore(front, last, x);
      CountOneMore(Group(front, key), last, x);
      assert items == front + [last] && Group(front, key) + [] == Group(front, key);
    }
  }

  lemma CountOneMore(items: seq<Item>, last: Item, x: Item)
    ensures multiset(items + [last])[x] == multiset(items)[x] + if x == last then 1 else 0
  {
  }

  lemma GroupsAgree(a: seq<Item>, b: seq<Item>, key: Key)
    requires multiset(a) == multiset(b)
    ensures multiset(Group(a, key)) == multiset(Group(b, key)) && (Group(a, key) == [] <==> Group(b, key) == [])
  {
    hide Group;
    forall x ensures multiset(Group(a, key))[x] == multiset(Group(b, key))[x] {
      GroupCount(a, key, x);
      GroupCount(b, key, x);
    }
    assert multiset(Group(a, key)) == multiset(Group(b, key));
    assert |Group(a, key)| == |multiset(Group(a, key))| == |multiset(Group(b, key))| == |Group(b, key)|;
  }

  lemma ConflictsAgree(a: seq<Item>, b: seq<Item>, tool: string)
    requires multiset(a) == multiset(b)
    ensures Conflicting(a, tool) ==> Conflicting(b, tool)
  {
    if Conflicting(a, tool) {
      var x, y :| x in a && y in a && x.tool == y.tool == tool && x.publisher != y.publisher;
      SameElements(a, b, x);
      SameElements(a, b, y);
    }
  }

  lemma NoTies(items: seq<Item>, key: Key, x: Item, y: Item)
    requires OncePerSource(items) && x in Group(items, key) && y in Group(items, key)
    requires ItemAtMost(x, y) && ItemAtMost(y, x)
    ensures x == y
  {
    if x.source != y.source { LessAsymmetric(x.source, y.source); }
    var i :| 0 <= i < |items| && items[i] == x;
    var j :| 0 <= j < |items| && items[j] == y;
  }

  lemma EntriesAgree(a: seq<Item>, b: seq<Item>, key: Key)
    requires multiset(a) == multiset(b) && OncePerSource(a) && Group(a, key) != []
    ensures Group(b, key) != [] && EntryOf(a, key) == EntryOf(b, key)
  {
    hide Group, Conflicting, Sort;
    GroupsAgree(a, b, key);
    ConflictsAgree(a, b, key.tool);
    ConflictsAgree(b, a, key.tool);
    var (m, n) := (Sort(Group(a, key), ItemAtMost), Sort(Group(b, key), ItemAtMost));
    ItemOrder();
    SortSorts(Group(a, key), ItemAtMost);
    SortSorts(Group(b, key), ItemAtMost);
    forall x, y | x in m && y in m && ItemAtMost(x, y) && ItemAtMost(y, x) ensures x == y {
      SameElements(m, Group(a, key), x);
      SameElements(m, Group(a, key), y);
      NoTies(a, key, x, y);
    }
    SortedUnique(m, n, ItemAtMost);
  }

  /** The order in which the sources deliver their items does not change the result. */
  lemma OrderDoesNotMatter(a: seq<Item>, b: seq<Item>, outA: seq<Merged>, outB: seq<Merged>)
    requires multiset(a) == multiset(b) && OncePerSource(a) && IsMerge(a, outA) && IsMerge(b, outB)
    ensures outA == outB
  {
    hide Group, KeyOf, EntryOf, InOrder, OncePerSource;
    forall key ensures key in KeysOf(a) <==> key in KeysOf(b) { GroupsAgree(a, b, key); }
    forall i | 0 <= i < |outA| ensures IsEntry(b, outA[i]) {
      assert IsEntry(a, outA[i]);
      EntriesAgree(a, b, KeyOf(outA[i].item));
    }
    assert IsMerge(b, outA);
    MergeIsDetermined(b, outA, outB);
  }

  // ---------- what folds, and what is kept ----------

  /** A digest that looks like the stand-in for a missing one. */
  predicate Forged(item: Item)
  {
    item.digest.Some? && NO_DIGEST <= item.digest.value
  }

  predicate IsHexDigest(digest: string)
  {
    |digest| == 64 && forall c :: c in digest ==> '0' <= c <= '9' || 'a' <= c <= 'f'
  }

  lemma HexIsNotForged(item: Item)
    requires item.digest.Some? ==> IsHexDigest(item.digest.value)
    ensures !Forged(item)
  {
    if item.digest.Some? { assert item.digest.value[0] in item.digest.value; }
  }

  /** What should fold: publisher, tool and digest agree, and without a digest also the source. */
  predicate Alike(x: Item, y: Item)
  {
    x.publisher == y.publisher && x.tool == y.tool && x.digest == y.digest && (x.digest.None? ==> x.source == y.source)
  }

  /** The digest of `x` is the stand-in for the missing digest of `y`, an item of the same publisher and tool. */
  predicate Imitates(x: Item, y: Item)
  {
    x.publisher == y.publisher && x.tool == y.tool && y.digest.None? && x.digest == Some(NO_DIGEST + y.source)
  }

  /** Two items fold although they are not alike if and only if one imitates the other. */
  lemma FoldsWrongly(x: Item, y: Item)
    ensures KeyOf(x) == KeyOf(y) && !Alike(x, y) <==> Imitates(x, y) || Imitates(y, x)
  {
    var p, q := NO_DIGEST + x.source, NO_DIGEST + y.source;
    assert p[|NO_DIGEST|..] == x.source && q[|NO_DIGEST|..] == y.source;
  }

  /** All items: they fold if and only if they are alike or one imitates the other. */
  lemma FoldsExactly(x: Item, y: Item)
    ensures KeyOf(x) == KeyOf(y) <==> Alike(x, y) || Imitates(x, y) || Imitates(y, x)
  {
    FoldsWrongly(x, y);
  }

  /** An imitating item is forged, so items with proper digests fold exactly when they are alike. */
  lemma ProperDigestsFold(x: Item, y: Item)
    requires !Forged(x) && !Forged(y)
    ensures KeyOf(x) == KeyOf(y) <==> Alike(x, y)
  {
    FoldsExactly(x, y);
    ImitatorIsForged(x, y);
    ImitatorIsForged(y, x);
  }

  lemma ImitatorIsForged(x: Item, y: Item)
    ensures Imitates(x, y) ==> Forged(x)
  {
    assert NO_DIGEST <= NO_DIGEST + y.source;
  }

  /** For every item without a digest there is one of any other source that folds with it wrongly. */
  lemma ForgedDigestFolds(x: Item, source: string)
    requires x.digest.None?
    ensures var y := x.(source := source, digest := Some("nodigest:" + x.source));
            KeyOf(y) == KeyOf(x) && !Alike(x, y)
  {
    FoldsWrongly(x, x.(source := source, digest := Some(NO_DIGEST + x.source)));
  }

  /** A merged list joins items that are not alike if and only if one item of the input imitates another. */
  lemma JoinsUnlikeIffImitated(items: seq<Item>, out: seq<Merged>)
    requires IsMerge(items, out)
    ensures (exists i, x, y :: 0 <= i < |out| && x in Group(items, KeyOf(out[i].item)) &&
                               y in Group(items, KeyOf(out[i].item)) && !Alike(x, y))
            <==> exists x, y :: x in items && y in items && Imitates(x, y)
  {
    hide KeyOf, Alike, Imitates, InOrder, IsEntry;
    if i, x, y :| 0 <= i < |out| && x in Group(items, KeyOf(out[i].item)) &&
                  y in Group(items, KeyOf(out[i].item)) && !Alike(x, y) {
      FoldsWrongly(x, y);
    }
    if x, y :| x in items && y in items && Imitates(x, y) {
      FoldsWrongly(x, y);
      InOwnGroup(items, x);
      var key := KeyOf(x);
      assert key in KeysOf(items) && key in EntryKeys(out);
      var i :| 0 <= i < |out| && EntryKeys(out)[i] == key;
      assert x in Group(items, KeyOf(out[i].item)) && y in Group(items, KeyOf(out[i].item));
    }
  }

  /** A smaller priority number, or the same and the source that comes first in the dictionary. */
  predicate NotWorse(x: Item, y: Item)
  {
    x.priority < y.priority || (x.priority == y.priority && (x.source == y.source || Text.Less(x.source, y.source)))
  }

  /** The primary is the best item of its group, and every mirror is another source's item of the group. */
  lemma PrimaryAndMirrors(items: seq<Item>, out: seq<Merged>, i: nat)
    requires IsMerge(items, out) && i < |out|
    ensures out[i].item in items
    ensures forall x :: x in items && KeyOf(x) == KeyOf(out[i].item) ==> NotWorse(out[i].item, x)
    ensures forall m :: m in out[i].mirrors ==>
                          exists x :: x in items && KeyOf(x) == KeyOf(out[i].item) && x.source == m
    ensures out[i].conflict <==> Conflicting(items, out[i].item.tool)
  {
    assert IsEntry(items, out[i]);
    var key := KeyOf(out[i].item);
    var group := Group(items, key);
    var members := Sort(group, ItemAtMost);
    hide Group, Sort, Conflicting;
    ItemOrder();
    SortSorts(group, ItemAtMost);
    forall x ensures x in members <==> x in group { SameElements(group, members, x); }
    assert ItemAtMost(members[0], members[0]);
    forall m | m in out[i].mirrors ensures exists x :: x in items && KeyOf(x) == key && x.source == m {
      var j :| 0 <= j < |members| - 1 && members[1..][j].source == m;
      assert members[1..][j] in members;
    }
  }

  /** The mirrors are the other items of the group, the better ones first. */
  lemma MirrorsInOrder(items: seq<Item>, out: seq<Merged>, i: nat) returns (members: seq<Item>)
    requires IsMerge(items, out) && i < |out|
    ensures |members| == |out[i].mirrors| + 1 && members[0] == out[i].item
    ensures forall j :: 0 <= j < |out[i].mirrors| ==> out[i].mirrors[j] == members[j + 1].source
    ensures forall x :: x in members <==> x in items && KeyOf(x) == KeyOf(out[i].item)
    ensures forall j, k :: 0 <= j < k < |members| ==> NotWorse(members[j], members[k])
  {
    assert IsEntry(items, out[i]);
    var group := Group(items, KeyOf(out[i].item));
    members := Sort(group, ItemAtMost);
    hide Group, Sort;
    ItemOrder();
    SortSorts(group, ItemAtMost);
    forall x ensures x in members <==> x in group { SameElements(group, members, x); }
    assert forall j, k :: 0 <= j < k < |members| ==> ItemAtMost(members[j], members[k]);
  }

  /** Entries come by tool, then by publisher, then by digest, and no two share all three. */
  lemma EntriesInOrder(items: seq<Item>, out: seq<Merged>, i: nat, j: nat)
    requires IsMerge(items, out) && i < j < |out|
    ensures var (a, b) := (KeyOf(out[i].item), KeyOf(out[j].item));
            Text.Less(a.tool, b.tool) ||
            (a.tool == b.tool &&
             (Text.Less(a.publisher, b.publisher) || (a.publisher == b.publisher && Text.Less(a.digest, b.digest))))
  {
    hide Text.Less;
    assert KeyBefore(EntryKeys(out)[i], EntryKeys(out)[j]);
  }

  // ---------- conservation ----------

  function Flatten(groups: seq<seq<Item>>): seq<Item>
  {
    if groups == [] then [] else Flatten(groups[..|groups| - 1]) + groups[|groups| - 1]
  }

  /** The entry shows these items: the first as its primary, the others as its mirrors. */
  predicate ShowsMembers(entry: Merged, members: seq<Item>)
  {
    members != [] && entry.item == members[0] && entry.mirrors == Sources(members[1..])
  }

  lemma {:induction false} GroupsCount(items: seq<Item>, keys: seq<Key>, groups: seq<seq<Item>>, x: Item)
    requires InOrder(keys) && |groups| == |keys| &&
             forall i :: 0 <= i < |keys| ==> multiset(groups[i]) == multiset(Group(items, keys[i]))
    ensures multiset(Flatten(groups))[x] == if KeyOf(x) in keys then multiset(items)[x] else 0
    decreases |keys|
  {
    hide Group, KeyAtMost, KeyOf;
    if keys != [] {
      var n := |keys| - 1;
      GroupsCount(items, keys[..n], groups[..n], x);
      GroupCount(items, keys[n], x);
      assert keys == keys[..n] + [keys[n]];
      assert forall i :: 0 <= i < n ==> KeyBefore(keys[i], keys[n]);
    }
  }

  /** Every input item is accounted for exactly once, as the primary of its entry or as one of its mirrors. */
  lemma EveryItemOnce(items: seq<Item>, out: seq<Merged>) returns (groups: seq<seq<Item>>)
    requires IsMerge(items, out)
    ensures |groups| == |out| && forall i :: 0 <= i < |out| ==> ShowsMembers(out[i], groups[i])
    ensures multiset(Flatten(groups)) == multiset(items)
  {
    hide Group, InOrder, KeyOf, Sort, Conflicting, Flatten;
    var keys := EntryKeys(out);
    groups := [];
    for n := 0 to |out|
      invariant |groups| == n
      invariant forall i :: 0 <= i < n ==>
                  ShowsMembers(out[i], groups[i]) && multiset(groups[i]) == multiset(Group(items, keys[i]))
    {
      assert IsEntry(items, out[n]);
      groups := groups + [Sort(Group(items, keys[n]), ItemAtMost)];
    }
    forall x ensures multiset(Flatten(groups))[x] == multiset(items)[x] {
      GroupsCount(items, keys, groups, x);
      if x in items { InOwnGroup(items, x); }
    }
  }

  lemma InOwnGroup(items: seq<Item>, x: Item)
    requires x in items
    ensures Group(items, KeyOf(x)) != []
  {
    assert x in Group(items, KeyOf(x));
  }
}
