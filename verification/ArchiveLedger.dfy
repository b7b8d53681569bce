/**
 * The ledger of an uploaded archive: totals are kept in 64-bit words, checked entry by entry. What a path,
 * a mode or a native file name is, the model takes from the entry.
 */
module ArchiveLedger {
  import opened Wrappers
  import opened ZipContainer

  const MAX_ENTRY_BYTES := 512 * 0x10_0000
  const MAX_EXPANDED_BYTES := 0x4000_0000
  const MAX_RATIO := 1000
  const MAX_MANIFEST_BYTES := 256 * 1024
  const MAX_NATIVE_ENTRIES := 256
  const MAX_NATIVE_BYTES := 0x4000_0000

  datatype Kind = Regular | Directory | Special

  /** `key` is the normalized path, `native` whether the name is that of executable code. */
  datatype Entry = Entry(name: string, pathSafe: bool, key: string, kind: Kind, native: bool, expanded: Uint64,
                         compressed: Uint64)

  datatype Ledger = Ledger(byPath: map<string, nat>, pathOf: map<nat, string>, native: set<string>)

  // ---------- 64-bit arithmetic ----------

  function AddBudget(total: Uint64, amount: Uint64, limit: Uint64): (sum: Option<Uint64>)
    ensures sum.Some? <==> total as int + amount as int <= limit as int
    ensures sum.Some? ==> sum.value as int == total as int + amount as int
  {
    if amount > U64_MAX as Uint64 - total then None
    else if total + amount > limit then None
    else Some(total + amount)
  }

  predicate RatioExceeded(expanded: Uint64, compressed: Uint64): (exceeded: bool)
    ensures exceeded <==> expanded as int > 1000 * compressed as int
  {
    if expanded == 0 then false
    else if compressed == 0 then true
    else if compressed > (U64_MAX / MAX_RATIO) as Uint64 then false
    else expanded > compressed * MAX_RATIO as Uint64
  }

  // ---------- what an acceptable archive is ----------

  function ExpandedSum(entries: seq<Entry>): nat
  {
    if entries == [] then 0 else
      var e := entries[|entries| - 1];
      ExpandedSum(entries[..|entries| - 1]) + if e.kind == Regular then e.expanded as int else 0
  }

  function CompressedSum(entries: seq<Entry>): nat
  {
    if entries == [] then 0 else
      var e := entries[|entries| - 1];
      CompressedSum(entries[..|entries| - 1]) + if e.kind == Regular then e.compressed as int else 0
  }

  predicate IsNativeFile(e: Entry)
  {
    e.kind == Regular && e.native
  }

  function NativeKeys(entries: seq<Entry>): set<string>
  {
    set i | 0 <= i < |entries| && IsNativeFile(entries[i]) :: entries[i].key
  }

  predicate EntryAcceptable(e: Entry)
  {
    e.pathSafe &&
    match e.kind
    case Special => false
    case Directory => e.expanded == 0
    case Regular =>
      e.expanded as int <= 512 * 1024 * 1024 && (e.name == "manifest.json" ==> e.expanded as int <= 256 * 1024) &&
      e.expanded as int <= 1000 * e.compressed as int
  }

  predicate DistinctKeys(entries: seq<Entry>)
  {
    forall i, j :: 0 <= i < j < |entries| ==> entries[i].key != entries[j].key
  }

  /** The limits, in unbounded arithmetic. Three of the checks that are made follow from the others. */
  predicate Acceptable(entries: seq<Entry>)
  {
    |entries| <= 10_000 && DistinctKeys(entries) && (forall e :: e in entries ==> EntryAcceptable(e)) &&
    ExpandedSum(entries) <= 1024 * 1024 * 1024 && CompressedSum(entries) <= U64_MAX &&
    |NativeKeys(entries)| <= 256
  }

  predicate Records(ledger: Ledger, entries: seq<Entry>)
  {
    (forall i :: 0 <= i < |entries| ==> entries[i].key in ledger.byPath && ledger.byPath[entries[i].key] == i) &&
    (forall key :: key in ledger.byPath ==>
                     0 <= ledger.byPath[key] < |entries| && entries[ledger.byPath[key]].key == key) &&
    ledger.pathOf == (map i | 0 <= i < |entries| :: entries[i].key) &&
    ledger.native == NativeKeys(entries)
  }

  // ---------- building the ledger ----------

  /** Accepts exactly the acceptable archives, and then records every entry under its own path. */
  method BuildLedger(entries: seq<Entry>) returns (ledger: Option<Ledger>)
    ensures ledger.Some? <==> Acceptable(entries)
    ensures ledger.Some? ==> Records(ledger.value, entries)
  {
    if |entries| > MAX_ENTRIES { return None; }
    var byPath: map<string, nat>, pathOf: map<nat, string>, native: set<string> := map[], map[], {};
    var expandedTotal: Uint64, compressedTotal: Uint64 := 0, 0;
    for i := 0 to |entries|
      invariant Fits(entries[..i])
      invariant Records(Ledger(byPath, pathOf, native), entries[..i])
      invariant expandedTotal as int == ExpandedSum(entries[..i])
      invariant compressedTotal as int == CompressedSum(entries[..i])
    {
      var e := entries[i];
      ghost var seen, more := entries[..i], entries[..i + 1];
      FitsStep(entries, i);
      RecordsStep(Ledger(byPath, pathOf, native), entries, i);
      if !e.pathSafe { return None; }
      if e.key in byPath { return None; }
      byPath, pathOf := byPath[e.key := i], pathOf[i := e.key];
      if e.kind == Special { return None; }
      if e.kind == Directory {
        if e.expanded != 0 { return None; }
        continue;
      }
      if e.expanded as int > MAX_ENTRY_BYTES { return None; }
      if e.name == "manifest.json" && e.expanded as int > MAX_MANIFEST_BYTES { return None; }
      var expanded := AddBudget(expandedTotal, e.expanded, MAX_EXPANDED_BYTES as Uint64);
      if expanded.None? { return None; }
      expandedTotal := expanded.value;
      var compressed := AddBudget(compressedTotal, e.compressed, U64_MAX as Uint64);
      if compressed.None? { return None; }
      compressedTotal := compressed.value;
      if RatioExceeded(e.expanded, e.compressed) { return None; }
      if e.native { native := native + {e.key}; }
    }
    assert entries[..|entries|] == entries;
    OverallRatio(entries);
    if RatioExceeded(expandedTotal, compressedTotal) { return None; }
    var built := Ledger(byPath, pathOf, native);
    var ok := NativeWithinBudget(built, entries);
    return if ok then Some(built) else None;
  }

  /** What the entries seen so far must satisfy. */
  predicate Fits(entries: seq<Entry>)
  {
    DistinctKeys(entries) && (forall e :: e in entries ==> EntryAcceptable(e)) &&
    ExpandedSum(entries) <= MAX_EXPANDED_BYTES && CompressedSum(entries) <= U64_MAX
  }

  /** Once a prefix does not fit, the archive is lost; a fitting prefix grows by one acceptable entry. */
  lemma FitsStep(entries: seq<Entry>, i: nat)
    requires i < |entries| && Fits(entries[..i])
    ensures var e := entries[i];
            Fits(entries[..i + 1]) <==>
            (EntryAcceptable(e) && (forall j :: 0 <= j < i ==> entries[j].key != e.key) &&
             (e.kind == Regular ==>
                ExpandedSum(entries[..i]) + e.expanded as int <= MAX_EXPANDED_BYTES &&
                CompressedSum(entries[..i]) + e.compressed as int <= U64_MAX))
    ensures Acceptable(entries) ==> Fits(entries[..i + 1])
    ensures var e := entries[i];
            e.kind == Regular ==>
              ExpandedSum(entries[..i + 1]) == ExpandedSum(entries[..i]) + e.expanded as int &&
              CompressedSum(entries[..i + 1]) == CompressedSum(entries[..i]) + e.compressed as int
    ensures entries[i].kind != Regular ==>
              ExpandedSum(entries[..i + 1]) == ExpandedSum(entries[..i]) &&
              CompressedSum(entries[..i + 1]) == CompressedSum(entries[..i])
  {
    var more := entries[..i + 1];
    assert more[..i] == entries[..i] && more[i] == entries[i];
    assert more == entries[..i] + [entries[i]];
    SumsGrow(entries, i + 1);
  }

  lemma {:induction false} SumsGrow(entries: seq<Entry>, n: nat)
    requires n <= |entries|
    ensures ExpandedSum(entries[..n]) <= ExpandedSum(entries) && CompressedSum(entries[..n]) <= CompressedSum(entries)
  {
    if n == |entries| {
      assert entries[..n] == entries;
    } else {
      var shorter := entries[..|entries| - 1];
      assert shorter[..n] == entries[..n];
      SumsGrow(shorter, n);
    }
  }

  lemma RecordsStep(ledger: Ledger, entries: seq<Entry>, i: nat)
    requires i < |entries| && Records(ledger, entries[..i])
    ensures entries[i].key in ledger.byPath <==> exists j :: 0 <= j < i && entries[j].key == entries[i].key
    ensures var e := entries[i];
            e.key !in ledger.byPath ==>
              Records(Ledger(ledger.byPath[e.key := i], ledger.pathOf[i := e.key],
                             if IsNativeFile(e) then ledger.native + {e.key} else ledger.native), entries[..i + 1])
  {
    var more := entries[..i + 1];
    assert more == entries[..i] + [entries[i]];
  }

  /** Every file is within the ratio, so the whole archive is. */
  lemma {:induction false} OverallRatio(entries: seq<Entry>)
    requires forall e :: e in entries ==> EntryAcceptable(e)
    ensures ExpandedSum(entries) <= MAX_RATIO * CompressedSum(entries)
  {
    if entries != [] {
      var e := entries[|entries| - 1];
      assert e in entries;
      OverallRatio(entries[..|entries| - 1]);
    }
  }

  // ---------- native files ----------

  /** The total of the files whose key is in `keys`. */
  function SumOf(entries: seq<Entry>, keys: set<string>): nat
  {
    if entries == [] then 0 else
      var e := entries[|entries| - 1];
      SumOf(entries[..|entries| - 1], keys) + if e.kind == Regular && e.key in keys then e.expanded as int else 0
  }

  lemma {:induction false} SumOfWithin(entries: seq<Entry>, keys: set<string>)
    ensures SumOf(entries, keys) <= ExpandedSum(entries)
  {
    if entries != [] {
      SumOfWithin(entries[..|entries| - 1], keys);
    }
  }

  lemma {:induction false} SumOfOneMore(entries: seq<Entry>, keys: set<string>, i: nat)
    requires i < |entries| && DistinctKeys(entries) && entries[i].kind == Regular && entries[i].key !in keys
    ensures SumOf(entries, keys + {entries[i].key}) == SumOf(entries, keys) + entries[i].expanded as int
    decreases |entries|
  {
    var last, shorter := |entries| - 1, entries[..|entries| - 1];
    if i < last {
      SumOfOneMore(shorter, keys, i);
    } else {
      SumOfElsewhere(shorter, keys, entries[i].key);
    }
  }

  lemma {:induction false} SumOfElsewhere(entries: seq<Entry>, keys: set<string>, key: string)
    requires forall e :: e in entries ==> e.key != key
    ensures SumOf(entries, keys + {key}) == SumOf(entries, keys)
  {
    if entries != [] {
      assert entries[|entries| - 1] in entries;
      SumOfElsewhere(entries[..|entries| - 1], keys, key);
    }
  }

  /** The native files, visited in any order: only their number can be refused. */
  method NativeWithinBudget(ledger: Ledger, entries: seq<Entry>) returns (ok: bool)
    requires Records(ledger, entries) && Fits(entries)
    ensures ok <==> |NativeKeys(entries)| <= MAX_NATIVE_ENTRIES
  {
    var total: Uint64 := 0;
    var count := 0;
    var left := ledger.native;
    SumOfNothing(entries);
    assert ledger.native - left == {};
    hide SumOf, ExpandedSum, CompressedSum, EntryAcceptable;
    while left != {}
      invariant left <= ledger.native && count == |ledger.native| - |left| && count <= MAX_NATIVE_ENTRIES
      invariant total as int == SumOf(entries, ledger.native - left)
      decreases |left|
    {
      var key :| key in left;
      ghost var done := ledger.native - left;
      if key !in ledger.byPath || entries[ledger.byPath[key]].kind == Directory {
        NativeIsRecorded(ledger, entries, key);
        return false;
      }
      NativeIsRecorded(ledger, entries, key);
      left := left - {key};
      count := count + 1;
      if count > MAX_NATIVE_ENTRIES { return false; }
      var e := entries[ledger.byPath[key]];
      SumOfOneMore(entries, done, ledger.byPath[key]);
      SumOfWithin(entries, done + {key});
      assert ledger.native - left == done + {key};
      var sum := AddBudget(total, e.expanded, MAX_NATIVE_BYTES as Uint64);
      if sum.None? { return false; }
      total := sum.value;
    }
    return true;
  }

  lemma {:induction false} SumOfNothing(entries: seq<Entry>)
    ensures SumOf(entries, {}) == 0
  {
    if entries != [] { SumOfNothing(entries[..|entries| - 1]); }
  }

  lemma NativeIsRecorded(ledger: Ledger, entries: seq<Entry>, key: string)
    requires Records(ledger, entries) && DistinctKeys(entries) && key in ledger.native
    ensures key in ledger.byPath && entries[ledger.byPath[key]].kind == Regular
    ensures entries[ledger.byPath[key]].key == key
  {
    var i :| 0 <= i < |entries| && IsNativeFile(entries[i]) && entries[i].key == key;
  }
}
