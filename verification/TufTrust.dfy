/**
 * The client side of the metadata trust chain: the root rotation chain with double thresholds,
 * then timestamp, snapshot and targets pinned to each other by hash, length and version.
 */
module TufTrust {
  import opened Wrappers
  import opened TufErrors
  import opened CanonicalJson
  import Calendar
  import Text

  // ---------- documents and the foreign primitives ----------

  datatype Signature = Signature(keyid: string, sig: string)

  datatype TufDoc = TufDoc(signatures: seq<Signature>, signed: Value)

  /** Foreign code: JSON parsing, SHA-256 in hex, and Ed25519 over (public key, message, signature). */
  datatype Primitives = Primitives(
    parse: Bytes -> Option<TufDoc>,
    sha256Hex: Bytes -> string,
    verifySignature: (string, string, string) -> bool)

  type Source = map<string, Bytes>

  const MAX_METADATA_SIZE := 8 * 1024 * 1024
  const SPEC_VERSION := "1.0.0"

  function ParseDoc(p: Primitives, name: string, bytes: Bytes): Result<TufDoc, TufError>
  {
    if |bytes| > MAX_METADATA_SIZE then Err(LimitExceeded(name))
    else match p.parse(bytes) case None => Err(Malformed) case Some(doc) => Ok(doc)
  }

  // ---------- field access ----------

  function Get(v: Value, key: string): Option<Value>
  {
    if HasKey(v, key) then Some(Member(v, key)) else None
  }

  function Pointer(v: Value, a: string, b: string): Option<Value>
  {
    var inner :- Get(v, a);
    Get(inner, b)
  }

  function StrAt(v: Value, key: string): Result<string, TufError>
  {
    match Get(v, key) case Some(Str(s)) => Ok(s) case _ => Err(Malformed)
  }

  function U64At(v: Value, key: string): Result<nat, TufError>
  {
    match Get(v, key)
    case Some(Int(n)) => if 0 <= n <= U64_MAX then Ok(n) else Err(Malformed)
    case _ => Err(Malformed)
  }

  function VersionOf(v: Value): (r: Result<nat, TufError>)
    ensures r.Ok? ==> 1 <= r.value <= U64_MAX
  {
    var n :- U64At(v, "version");
    if n == 0 then Err(Malformed) else Ok(n)
  }

  function RootKeys(root: Value): Result<map<string, string>, TufError>
  {
    match Get(root, "keys")
    case Some(Obj(fields)) => KeyTable(fields)
    case _ => Err(Malformed)
  }

  function KeyTable(fields: seq<Field>): Result<map<string, string>, TufError>
  {
    if fields == [] then Ok(map[])
    else
      var k := fields[0].value;
      if Get(k, "keytype") != Some(Str("ed25519")) then Err(Malformed)
      else
        match Pointer(k, "keyval", "public")
        case Some(Str(public)) =>
          var rest :- KeyTable(fields[1..]);
          Ok(rest[fields[0].key := public])
        case _ => Err(Malformed)
  }

  datatype RoleDef = RoleDef(keyids: seq<string>, threshold: nat)

  function Strings(items: seq<Value>): Result<seq<string>, TufError>
  {
    if items == [] then Ok([])
    else if !items[0].Str? then Err(Malformed)
    else
      var rest :- Strings(items[1..]);
      Ok([items[0].s] + rest)
  }

  function RoleOf(root: Value, role: string): Result<RoleDef, TufError>
  {
    match Pointer(root, "roles", role)
    case None => Err(Malformed)
    case Some(v) =>
      match (Get(v, "keyids"), Get(v, "threshold"))
      case (Some(Arr(items)), Some(Int(n))) =>
        if 0 <= n < 0x1_0000_0000 then
          var keyids :- Strings(items);
          Ok(RoleDef(keyids, n))
        else Err(Malformed)
      case _ => Err(Malformed)
  }

  function Unique(keyids: seq<string>): set<string>
  {
    set k | k in keyids
  }

  function ValidateRole(root: Value, keys: map<string, string>, name: string): Result<(), TufError>
  {
    var role :- RoleOf(root, name);
    var unique := Unique(role.keyids);
    if role.keyids == [] then Err(Malformed)
    else if |unique| != |role.keyids| then Err(Malformed)
    else if exists k :: k in unique && k !in keys then Err(Malformed)
    else if role.threshold == 0 || role.threshold > |unique| then Err(Malformed)
    else Ok(())
  }

  function ValidateRootRoles(root: Value, keys: map<string, string>): Result<(), TufError>
  {
    var _ :- ValidateRole(root, keys, "root");
    var _ :- ValidateRole(root, keys, "timestamp");
    var _ :- ValidateRole(root, keys, "snapshot");
    ValidateRole(root, keys, "targets")
  }

  // ---------- one signed role document ----------

  /** The authorised keys that have a valid signature in the document. */
  function ValidSigners(p: Primitives, sigs: seq<Signature>, keys: map<string, string>, role: RoleDef,
                        message: string): set<string>
  {
    set k | k in role.keyids && k in keys &&
            exists s :: s in sigs && s.keyid == k && p.verifySignature(keys[k], message, s.sig)
  }

  function ExpiryCheck(signed: Value, role: string, now: string): Result<(), TufError>
  {
    var expires :- StrAt(signed, "expires");
    var expiresInstant :- Calendar.ParseCanonicalUtcSeconds(expires);
    var nowInstant :- Calendar.ParseCanonicalUtcSeconds(now);
    if expiresInstant <= nowInstant then Err(Expired(role)) else Ok(())
  }

  /** What verifying one role document answers, by the set of keys that signed it. */
  function RoleDocResult(p: Primitives, doc: TufDoc, keys: map<string, string>, role: RoleDef,
                         expectedType: string, now: string, checkExpiry: bool): Result<Value, TufError>
  {
    var signed := doc.signed;
    var t :- StrAt(signed, "_type");
    if t != expectedType then Err(Malformed)
    else
      var spec :- StrAt(signed, "spec_version");
      if spec != SPEC_VERSION then Err(Malformed)
      else if !FloatFree(signed) then Err(Malformed)
      else
        var valid := |ValidSigners(p, doc.signatures, keys, role, CanonicalText(signed))|;
        if valid < role.threshold then Err(ThresholdNotMet(expectedType, valid, role.threshold))
        else if checkExpiry then
          var _ :- ExpiryCheck(signed, expectedType, now);
          Ok(signed)
        else Ok(signed)
  }

  /** The counting loop: every authorised keyid counts once, at its first valid signature. */
  method CountSignatures(p: Primitives, sigs: seq<Signature>, keys: map<string, string>, role: RoleDef,
                         message: string) returns (valid: nat)
    ensures valid == |ValidSigners(p, sigs, keys, role, message)|
  {
    var seen: seq<string> := [];
    valid := 0;
    for i := 0 to |sigs|
      invariant valid == |seen| == |Unique(seen)|
      invariant Unique(seen) == ValidSigners(p, sigs[..i], keys, role, message)
    {
      var s := sigs[i];
      assert sigs[..i + 1] == sigs[..i] + [s];
      if s.keyid in role.keyids && s.keyid !in seen && s.keyid in keys
         && p.verifySignature(keys[s.keyid], message, s.sig) {
        assert Unique(seen + [s.keyid]) == Unique(seen) + {s.keyid};
        seen := seen + [s.keyid];
        valid := valid + 1;
      }
    }
    assert sigs[..|sigs|] == sigs;
  }

  method VerifyRoleDoc(p: Primitives, doc: TufDoc, keys: map<string, string>, role: RoleDef,
                       expectedType: string, now: string, checkExpiry: bool) returns (r: Result<Value, TufError>)
    requires WellFormed(doc.signed)
    ensures r == RoleDocResult(p, doc, keys, role, expectedType, now, checkExpiry)
  {
    var t :- StrAt(doc.signed, "_type");
    if t != expectedType { return Err(Malformed); }
    var spec :- StrAt(doc.signed, "spec_version");
    if spec != SPEC_VERSION { return Err(Malformed); }
    var message :- WriteCanonical("", doc.signed);
    assert message == CanonicalText(doc.signed);
    var valid := CountSignatures(p, doc.signatures, keys, role, message);
    if valid < role.threshold { return Err(ThresholdNotMet(expectedType, valid, role.threshold)); }
    if checkExpiry {
      var _ :- ExpiryCheck(doc.signed, expectedType, now);
    }
    return Ok(doc.signed);
  }

  /** Neither the order of the signatures nor repeating one changes the answer. */
  lemma SignatureOrderIsIrrelevant(p: Primitives, a: TufDoc, b: TufDoc, keys: map<string, string>, role: RoleDef,
                                   expectedType: string, now: string, checkExpiry: bool)
    requires a.signed == b.signed && forall s :: s in a.signatures <==> s in b.signatures
    ensures RoleDocResult(p, a, keys, role, expectedType, now, checkExpiry)
            == RoleDocResult(p, b, keys, role, expectedType, now, checkExpiry)
  {
    var message := CanonicalText(a.signed);
    assert ValidSigners(p, a.signatures, keys, role, message) == ValidSigners(p, b.signatures, keys, role, message);
  }

  // ---------- the root chain ----------

  datatype Root = Root(signed: Value, keys: map<string, string>, role: RoleDef, version: nat, sha256: string)

  function RootName(version: nat): string
  {
    Text.Decimal(version) + ".root.json"
  }

  predicate ConsistentSnapshot(signed: Value)
  {
    Get(signed, "consistent_snapshot") == Some(Bool(true))
  }

  /** What a root document must show on its own: sound roles, its own threshold, consistent snapshots. */
  function OwnRoot(p: Primitives, doc: TufDoc, sha256: string, now: string): (r: Result<Root, TufError>)
    ensures r.Ok? ==> r.value.version <= U64_MAX
  {
    var keys :- RootKeys(doc.signed);
    var _ :- ValidateRootRoles(doc.signed, keys);
    var role :- RoleOf(doc.signed, "root");
    var signed :- RoleDocResult(p, doc, keys, role, "root", now, false);
    if !ConsistentSnapshot(signed) then Err(Malformed)
    else
      var version :- VersionOf(signed);
      Ok(Root(signed, keys, role, version, sha256))
  }

  /** The anchor is trusted bytes; its expiry is not checked here. */
  function AnchorRoot(p: Primitives, bytes: Bytes, now: string): (r: Result<Root, TufError>)
    ensures r.Ok? ==> r.value.version <= U64_MAX
  {
    var doc :- ParseDoc(p, "root", bytes);
    OwnRoot(p, doc, p.sha256Hex(bytes), now)
  }

  /** One rotation: the old root and the new root must both reach their thresholds. */
  function NextRoot(p: Primitives, current: Root, bytes: Bytes, now: string): (r: Result<Root, TufError>)
    ensures r.Ok? ==> r.value.version == current.version + 1
  {
    var doc :- ParseDoc(p, RootName(current.version + 1), bytes);
    var _ :- RoleDocResult(p, doc, current.keys, current.role, "root", now, false);
    var next :- OwnRoot(p, doc, p.sha256Hex(bytes), now);
    if next.version != current.version + 1 then Err(VersionMismatch("root")) else Ok(next)
  }

  /** The newest root reachable from `current`. */
  function NewestRoot(p: Primitives, src: Source, current: Root, now: string): (r: Result<Root, TufError>)
    requires current.version <= U64_MAX
    decreases U64_MAX - current.version
  {
    if current.version == U64_MAX then Err(Malformed)
    else
      var name := RootName(current.version + 1);
      if name !in src then Ok(current)
      else
        var next :- NextRoot(p, current, src[name], now);
        NewestRoot(p, src, next, now)
  }

  // ---------- timestamp, snapshot, targets ----------

  datatype TargetInfo = TargetInfo(length: nat, sha256: string, custom: Option<Value>)

  datatype VerifiedTuf = VerifiedTuf(
    rootVersion: nat, timestampVersion: nat, snapshotVersion: nat, targetsVersion: nat,
    rootSha256: string, timestampSha256: string, snapshotSha256: string, targetsSha256: string,
    targets: map<string, TargetInfo>)

  function LowerChar(c: char): char
  {
    if 'A' <= c <= 'Z' then c - 'A' + 'a' else c
  }

  function Lower(s: string): string
  {
    seq(|s|, i requires 0 <= i < |s| => LowerChar(s[i]))
  }

  predicate EqIgnoreAsciiCase(a: string, b: string)
  {
    Lower(a) == Lower(b)
  }

  function CheckMetaEntry(p: Primitives, name: string, bytes: Bytes, entry: Value): Result<nat, TufError>
  {
    var length :- U64At(entry, "length");
    match Pointer(entry, "hashes", "sha256")
    case Some(Str(sha)) =>
      if |bytes| != length || !EqIgnoreAsciiCase(p.sha256Hex(bytes), sha) then Err(HashMismatch(name))
      else VersionOf(entry)
    case _ => Err(Malformed)
  }

  function TargetTable(fields: seq<Field>): Result<map<string, TargetInfo>, TufError>
  {
    if fields == [] then Ok(map[])
    else
      var info := fields[0].value;
      var length :- U64At(info, "length");
      match Pointer(info, "hashes", "sha256")
      case Some(Str(sha)) =>
        var rest :- TargetTable(fields[1..]);
        Ok(rest[fields[0].key := TargetInfo(length, Lower(sha), Get(info, "custom"))])
      case _ => Err(Malformed)
  }

  function Load(src: Source, name: string): Result<Bytes, TufError>
  {
    if name in src then Ok(src[name]) else Err(Missing(name))
  }

  /** A document one role signed under the final root, not expired. */
  function OnlineDoc(p: Primitives, bytes: Bytes, root: Root, role: string, now: string): Result<Value, TufError>
  {
    var doc :- ParseDoc(p, role, bytes);
    var def :- RoleOf(root.signed, role);
    RoleDocResult(p, doc, root.keys, def, role, now, true)
  }

  /** A document pinned by an entry of its parent: name by version, then hash, length, signature, version. */
  function PinnedDoc(p: Primitives, src: Source, parent: Value, role: string, root: Root, now: string)
    : Result<(Bytes, Value, nat), TufError>
  {
    match Pointer(parent, "meta", role + ".json")
    case None => Err(Malformed)
    case Some(entry) =>
      var version :- VersionOf(entry);
      var bytes :- Load(src, Text.Decimal(version) + "." + role + ".json");
      var _ :- CheckMetaEntry(p, role, bytes, entry);
      var signed :- OnlineDoc(p, bytes, root, role, now);
      var actual :- VersionOf(signed);
      if actual != version then Err(VersionMismatch(role)) else Ok((bytes, signed, version))
  }

  /** Everything after the root chain. */
  function OnlineResult(p: Primitives, src: Source, root: Root, now: string): Result<VerifiedTuf, TufError>
  {
    var _ :- ExpiryCheck(root.signed, "root", now);
    var tsBytes :- Load(src, "timestamp.json");
    var tsSigned :- OnlineDoc(p, tsBytes, root, "timestamp", now);
    var tsVersion :- VersionOf(tsSigned);
    var (snapBytes, snapSigned, snapVersion) :- PinnedDoc(p, src, tsSigned, "snapshot", root, now);
    var (tgtBytes, tgtSigned, tgtVersion) :- PinnedDoc(p, src, snapSigned, "targets", root, now);
    match Get(tgtSigned, "targets")
    case Some(Obj(fields)) =>
      var targets :- TargetTable(fields);
      Ok(VerifiedTuf(root.version, tsVersion, snapVersion, tgtVersion,
                     root.sha256, p.sha256Hex(tsBytes), p.sha256Hex(snapBytes), p.sha256Hex(tgtBytes), targets))
    case _ => Err(Malformed)
  }

  function VerifyResult(p: Primitives, src: Source, trustedRoot: Bytes, now: string): Result<VerifiedTuf, TufError>
  {
    var anchor :- AnchorRoot(p, trustedRoot, now);
    var root :- NewestRoot(p, src, anchor, now);
    OnlineResult(p, src, root, now)
  }

  /** The whole chain; the 64-bit version bound makes the rotation loop finite. */
  method Verify(p: Primitives, src: Source, trustedRoot: Bytes, now: string) returns (r: Result<VerifiedTuf, TufError>)
    ensures r == VerifyResult(p, src, trustedRoot, now)
  {
    hide AnchorRoot, NextRoot, OnlineResult, RootName;
    var root :- AnchorRoot(p, trustedRoot, now);
    ghost var anchor := root;
    var searching := true;
    while searching
      invariant root.version <= U64_MAX
      invariant searching ==> NewestRoot(p, src, anchor, now) == NewestRoot(p, src, root, now)
      invariant !searching ==> NewestRoot(p, src, anchor, now) == Ok(root)
      decreases searching, U64_MAX - root.version
    {
      if root.version == U64_MAX { return Err(Malformed); }
      var name := RootName(root.version + 1);
      if name in src {
        root :- NextRoot(p, root, src[name], now);
      } else {
        searching := false;
      }
    }
    return OnlineResult(p, src, root, now);
  }

  // ---------- targets and persisted versions ----------

  /** The last check before installation: downloaded bytes against the verified entry. */
  function VerifyTargetBytes(p: Primitives, info: TargetInfo, bytes: Bytes): Result<(), TufError>
  {
    if |bytes| != info.length || !EqIgnoreAsciiCase(p.sha256Hex(bytes), info.sha256) then Err(HashMismatch("target"))
    else Ok(())
  }

  datatype Versions = Versions(root: nat, timestamp: nat, snapshot: nat, targets: nat)

  datatype Digests = Digests(root: string, timestamp: string, snapshot: string, targets: string)

  datatype TufState = TufState(versions: Versions, digests: Digests)

  function StateOf(v: VerifiedTuf): TufState
  {
    TufState(Versions(v.rootVersion, v.timestampVersion, v.snapshotVersion, v.targetsVersion),
             Digests(v.rootSha256, v.timestampSha256, v.snapshotSha256, v.targetsSha256))
  }

  predicate NoLower(a: Versions, b: Versions)
  {
    a.root <= b.root && a.timestamp <= b.timestamp && a.snapshot <= b.snapshot && a.targets <= b.targets
  }

  /** Rejects a candidate that is older in any role; `Ok` means no role went back. */
  method EnsureMonotonicVersions(last: Versions, candidate: Versions) returns (r: Result<(), TufError>)
    ensures r.Ok? <==> NoLower(last, candidate)
    ensures r.Err? ==>
              r.error == if candidate.root < last.root then Rollback("root", last.root, candidate.root)
                         else if candidate.timestamp < last.timestamp then
                           Rollback("timestamp", last.timestamp, candidate.timestamp)
                         else if candidate.snapshot < last.snapshot then
                           Rollback("snapshot", last.snapshot, candidate.snapshot)
                         else Rollback("targets", last.targets, candidate.targets)
  {
    var rows := [("root", last.root, candidate.root), ("timestamp", last.timestamp, candidate.timestamp),
                 ("snapshot", last.snapshot, candidate.snapshot), ("targets", last.targets, candidate.targets)];
    for i := 0 to |rows|
      invariant forall j :: 0 <= j < i ==> rows[j].1 <= rows[j].2
      invariant i > 0 ==> last.root <= candidate.root
      invariant i > 1 ==> last.timestamp <= candidate.timestamp
      invariant i > 2 ==> last.snapshot <= candidate.snapshot
    {
      var (role, was, now) := rows[i];
      if now < was { return Err(Rollback(role, was, now)); }
    }
    assert rows[0].1 <= rows[0].2 && rows[1].1 <= rows[1].2 && rows[2].1 <= rows[2].2 && rows[3].1 <= rows[3].2;
    return Ok(());
  }
}
