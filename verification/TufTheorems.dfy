/**
 * What an accepted metadata set guarantees, stated on the documents themselves: every link of the
 * root chain, the role of expiry, and how the timestamp document pins everything below it.
 */
module TufTheorems {
  import opened Wrappers
  import opened TufErrors
  import opened CanonicalJson
  import opened TufTrust
  import opened Sorting
  import Calendar
  import Text

  // ---------- one root document, on its own ----------

  /** The roles every root defines. */
  const TOP_ROLES: set<string> := {"root", "timestamp", "snapshot", "targets"}

  /** A role a root may define: known distinct keys, and a threshold they can reach. */
  predicate SoundRole(root: Value, keys: map<string, string>, name: string)
  {
    RoleOf(root, name).Ok? &&
    var role := RoleOf(root, name).value;
    role.keyids != [] && Distinct(role.keyids) && (forall k :: k in role.keyids ==> k in keys) &&
    1 <= role.threshold <= |role.keyids|
  }

  predicate SoundRoles(root: Value, keys: map<string, string>)
  {
    forall name {:trigger SoundRole(root, keys, name)} :: name in TOP_ROLES ==> SoundRole(root, keys, name)
  }

  /** A root with decodable keys, four sound roles, and consistent snapshots. */
  predicate SoundRoot(root: Value)
  {
    && RootKeys(root).Ok?
    && var keys := RootKeys(root).value;
    && SoundRoles(root, keys)
    && ConsistentSnapshot(root)
    && VersionOf(root).Ok?
  }

  predicate HasType(signed: Value, role: string)
  {
    StrAt(signed, "_type") == Ok(role) && StrAt(signed, "spec_version") == Ok(SPEC_VERSION) && FloatFree(signed)
  }

  function RootIn(root: Value, sha256: string): (r: Root)
    requires SoundRoot(root)
    ensures r.version <= U64_MAX
  {
    assert SoundRole(root, RootKeys(root).value, "root");
    Root(root, RootKeys(root).value, RoleOf(root, "root").value, VersionOf(root).value, sha256)
  }

  /** At least `threshold` distinct authorised keys of `signer` signed the document. */
  predicate ReachesThreshold(p: Primitives, doc: TufDoc, signer: Root)
  {
    |ValidSigners(p, doc.signatures, signer.keys, signer.role, CanonicalText(doc.signed))| >= signer.role.threshold
  }

  predicate Readable(p: Primitives, bytes: Bytes)
  {
    |bytes| <= MAX_METADATA_SIZE && p.parse(bytes).Some?
  }

  /** Readable bytes of a sound root. */
  predicate HoldsRoot(p: Primitives, bytes: Bytes)
  {
    Readable(p, bytes) && HasType(p.parse(bytes).value.signed, "root") && SoundRoot(p.parse(bytes).value.signed)
  }

  function RootOf(p: Primitives, bytes: Bytes): Root
    requires HoldsRoot(p, bytes)
  {
    RootIn(p.parse(bytes).value.signed, p.sha256Hex(bytes))
  }

  predicate SignedBy(p: Primitives, bytes: Bytes, signer: Root)
  {
    Readable(p, bytes) && ReachesThreshold(p, p.parse(bytes).value, signer)
  }

  predicate SelfSigned(p: Primitives, bytes: Bytes)
  {
    HoldsRoot(p, bytes) && SignedBy(p, bytes, RootOf(p, bytes))
  }

  lemma {:induction false} UniqueCount(s: seq<string>)
    ensures |Unique(s)| <= |s| && (|Unique(s)| == |s| <==> Distinct(s))
  {
    if s != [] {
      UniqueCount(s[1..]);
      assert s == [s[0]] + s[1..];
      assert Unique(s) == Unique(s[1..]) + {s[0]};
    }
  }

  lemma RoleValidation(root: Value, keys: map<string, string>, name: string)
    ensures ValidateRole(root, keys, name).Ok? <==> SoundRole(root, keys, name)
  {
    if RoleOf(root, name).Ok? { UniqueCount(RoleOf(root, name).value.keyids); }
  }

  lemma RootRolesValidation(root: Value, keys: map<string, string>)
    ensures ValidateRootRoles(root, keys).Ok? <==> SoundRoles(root, keys)
  {
    hide ValidateRole, SoundRole, RoleOf;
    RoleValidation(root, keys, "root");
    RoleValidation(root, keys, "timestamp");
    RoleValidation(root, keys, "snapshot");
    RoleValidation(root, keys, "targets");
  }

  lemma RoleDocAccepted(p: Primitives, doc: TufDoc, signer: Root, role: string, now: string)
    ensures var r := RoleDocResult(p, doc, signer.keys, signer.role, role, now, false);
            (r.Ok? <==> HasType(doc.signed, role) && ReachesThreshold(p, doc, signer)) &&
            (r.Ok? ==> r.value == doc.signed)
  {
  }

  lemma OwnRootAccepted(p: Primitives, doc: TufDoc, sha256: string, now: string)
    ensures OwnRoot(p, doc, sha256, now).Ok? <==>
            HasType(doc.signed, "root") && SoundRoot(doc.signed) &&
            ReachesThreshold(p, doc, RootIn(doc.signed, sha256))
    ensures OwnRoot(p, doc, sha256, now).Ok? ==> OwnRoot(p, doc, sha256, now).value == RootIn(doc.signed, sha256)
  {
    hide RoleDocResult, ValidateRootRoles, RootKeys, RoleOf, HasType, ValidSigners, CanonicalText,
      ConsistentSnapshot, VersionOf;
    if RootKeys(doc.signed).Ok? {
      var keys := RootKeys(doc.signed).value;
      RootRolesValidation(doc.signed, keys);
      assert SoundRoot(doc.signed) ==> SoundRole(doc.signed, keys, "root");
      if RoleOf(doc.signed, "root").Ok? {
        RoleDocAccepted(p, doc, Root(doc.signed, keys, RoleOf(doc.signed, "root").value, 0, sha256), "root", now);
      }
    }
  }

  lemma AnchorAccepted(p: Primitives, bytes: Bytes, now: string)
    ensures AnchorRoot(p, bytes, now).Ok? <==> SelfSigned(p, bytes)
    ensures SelfSigned(p, bytes) ==> AnchorRoot(p, bytes, now) == Ok(RootOf(p, bytes))
  {
    hide OwnRoot, HasType, SoundRoot, ReachesThreshold;
    if Readable(p, bytes) { OwnRootAccepted(p, p.parse(bytes).value, p.sha256Hex(bytes), now); }
  }

  /** A rotation is accepted exactly when the new root is sound, numbered next, and doubly signed. */
  lemma RotationAccepted(p: Primitives, current: Root, bytes: Bytes, now: string)
    ensures NextRoot(p, current, bytes, now).Ok? <==>
            SelfSigned(p, bytes) && SignedBy(p, bytes, current) && RootOf(p, bytes).version == current.version + 1
    ensures NextRoot(p, current, bytes, now).Ok? ==> NextRoot(p, current, bytes, now).value == RootOf(p, bytes)
  {
    hide RoleDocResult, OwnRoot, HasType, SoundRoot, ReachesThreshold, RootName;
    if Readable(p, bytes) {
      var doc := p.parse(bytes).value;
      RoleDocAccepted(p, doc, current, "root", now);
      OwnRootAccepted(p, doc, p.sha256Hex(bytes), now);
    }
  }

  // ---------- the whole rotation chain ----------

  /** The bytes of root number `i`: the anchor for its own number, a fetched file otherwise. */
  function RootBytes(p: Primitives, src: Source, trustedRoot: Bytes, i: nat): Bytes
    requires HoldsRoot(p, trustedRoot)
  {
    if i == RootOf(p, trustedRoot).version then trustedRoot
    else if RootName(i) in src then src[RootName(i)] else []
  }

  /** Root `i` exists, carries number `i`, and is signed over both thresholds: root `i - 1`'s and its own. */
  predicate Link(p: Primitives, src: Source, trustedRoot: Bytes, i: nat)
    requires HoldsRoot(p, trustedRoot)
  {
    i > 0 && RootName(i) in src &&
    var previous, next := RootBytes(p, src, trustedRoot, i - 1), RootBytes(p, src, trustedRoot, i);
    SelfSigned(p, next) && RootOf(p, next).version == i &&
    HoldsRoot(p, previous) && SignedBy(p, next, RootOf(p, previous))
  }

  /** The chain from the anchor ends at `n`: every link holds and there is no root `n + 1`. Time plays no part. */
  predicate ChainEndsAt(p: Primitives, src: Source, trustedRoot: Bytes, n: nat)
    requires HoldsRoot(p, trustedRoot)
  {
    var a := RootOf(p, trustedRoot).version;
    && a <= n < U64_MAX
    && RootName(n + 1) !in src
    && forall i :: a < i <= n ==> Link(p, src, trustedRoot, i)
  }

  /** `current` is root number `current.version`, reached by good links. */
  predicate Reached(p: Primitives, src: Source, trustedRoot: Bytes, current: Root)
    requires HoldsRoot(p, trustedRoot)
  {
    var a := RootOf(p, trustedRoot).version;
    var bytes := RootBytes(p, src, trustedRoot, current.version);
    && a <= current.version <= U64_MAX
    && HoldsRoot(p, bytes) && RootOf(p, bytes) == current
    && forall i :: a < i <= current.version ==> Link(p, src, trustedRoot, i)
  }

  lemma {:induction false} NewestFromReached(p: Primitives, src: Source, trustedRoot: Bytes, current: Root, now: string)
    requires HoldsRoot(p, trustedRoot) && Reached(p, src, trustedRoot, current)
    ensures var r := NewestRoot(p, src, current, now);
            r.Ok? ==> Reached(p, src, trustedRoot, r.value) && ChainEndsAt(p, src, trustedRoot, r.value.version)
    ensures var r := NewestRoot(p, src, current, now);
            r.Err? ==> forall n :: !ChainEndsAt(p, src, trustedRoot, n)
    decreases U64_MAX - current.version
  {
    hide NextRoot, HasType, SoundRoot, SignedBy, RootName;
    var r := NewestRoot(p, src, current, now);
    var v := current.version + 1;
    if current.version < U64_MAX && RootName(v) in src {
      RotationAccepted(p, current, src[RootName(v)], now);
      var next := NextRoot(p, current, src[RootName(v)], now);
      assert next.Ok? <==> Link(p, src, trustedRoot, v);
      if next.Ok? {
        NewestFromReached(p, src, trustedRoot, next.value, now);
      } else {
        forall n ensures !ChainEndsAt(p, src, trustedRoot, n) {
          PastTheEnd(p, src, trustedRoot, current, n);
        }
      }
    } else if r.Err? {
      forall n ensures !ChainEndsAt(p, src, trustedRoot, n) {
        PastTheEnd(p, src, trustedRoot, current, n);
      }
    }
  }

  /** A chain cannot end at or after a missing link, nor before a root that is present. */
  lemma PastTheEnd(p: Primitives, src: Source, trustedRoot: Bytes, current: Root, n: nat)
    requires HoldsRoot(p, trustedRoot) && Reached(p, src, trustedRoot, current)
    requires current.version < U64_MAX ==>
               RootName(current.version + 1) in src && !Link(p, src, trustedRoot, current.version + 1)
    ensures !ChainEndsAt(p, src, trustedRoot, n)
  {
    hide HasType, SoundRoot, SignedBy, RootName;
    var above: nat, past: nat := current.version + 1, n + 1;
    if ChainEndsAt(p, src, trustedRoot, n) {
      if n < current.version {
        LinkReached(p, src, trustedRoot, current, past);
      } else if n > current.version {
        LinkInside(p, src, trustedRoot, n, above);
      }
    }
  }

  lemma LinkReached(p: Primitives, src: Source, trustedRoot: Bytes, current: Root, i: nat)
    requires HoldsRoot(p, trustedRoot) && Reached(p, src, trustedRoot, current)
    requires RootOf(p, trustedRoot).version < i <= current.version
    ensures RootName(i) in src
  {
    hide HasType, SoundRoot, SignedBy, RootName;
    assert Link(p, src, trustedRoot, i);
  }

  lemma ChainEndUnique(p: Primitives, src: Source, trustedRoot: Bytes, m: nat, n: nat)
    requires HoldsRoot(p, trustedRoot)
    requires ChainEndsAt(p, src, trustedRoot, m) && ChainEndsAt(p, src, trustedRoot, n)
    ensures m == n
  {
    hide HasType, SoundRoot, SignedBy, RootName;
    if m < n { LinkInside(p, src, trustedRoot, n, m + 1); }
    if n < m { LinkInside(p, src, trustedRoot, m, n + 1); }
  }

  lemma LinkInside(p: Primitives, src: Source, trustedRoot: Bytes, n: nat, i: nat)
    requires HoldsRoot(p, trustedRoot) && ChainEndsAt(p, src, trustedRoot, n)
    requires RootOf(p, trustedRoot).version < i <= n
    ensures RootName(i) in src && Link(p, src, trustedRoot, i)
  {
    hide HasType, SoundRoot, SignedBy, RootName;
    assert Link(p, src, trustedRoot, i);
  }

  /** When the rotation loop stops well, it stops at the end of the chain; when it fails, there is none. */
  lemma NewestIsChainEnd(p: Primitives, src: Source, trustedRoot: Bytes, now: string)
    requires HoldsRoot(p, trustedRoot)
    ensures var r := NewestRoot(p, src, RootOf(p, trustedRoot), now);
            if r.Ok? then
              ChainEndsAt(p, src, trustedRoot, r.value.version) &&
              HoldsRoot(p, RootBytes(p, src, trustedRoot, r.value.version)) &&
              RootOf(p, RootBytes(p, src, trustedRoot, r.value.version)) == r.value &&
              forall n :: ChainEndsAt(p, src, trustedRoot, n) ==> n == r.value.version
            else forall n :: !ChainEndsAt(p, src, trustedRoot, n)
  {
    hide NewestRoot, HasType, SoundRoot, SignedBy, RootName;
    NewestFromReached(p, src, trustedRoot, RootOf(p, trustedRoot), now);
    var r := NewestRoot(p, src, RootOf(p, trustedRoot), now);
    if r.Ok? {
      forall n | ChainEndsAt(p, src, trustedRoot, n) ensures n == r.value.version {
        ChainEndUnique(p, src, trustedRoot, r.value.version, n);
      }
    }
  }

  lemma AcceptedByLastRoot(p: Primitives, src: Source, root: Root, now: string)
    ensures OnlineResult(p, src, root, now).Ok? ==>
              NotExpired(root.signed, now) &&
              OnlineResult(p, src, root, now).value.rootVersion == root.version &&
              OnlineResult(p, src, root, now).value.rootSha256 == root.sha256
  {
    hide OnlineDoc, PinnedDoc, Calendar.ParseCanonicalUtcSeconds;
  }

  /**
   * Verification accepts exactly when the anchor signs itself, the chain of doubly signed,
   * consecutively numbered roots ends somewhere, and the documents below are good under the last
   * root, whose expiry is the only root expiry that counts.
   */
  lemma AcceptedChain(p: Primitives, src: Source, trustedRoot: Bytes, now: string)
    ensures VerifyResult(p, src, trustedRoot, now).Ok? <==>
            SelfSigned(p, trustedRoot) &&
            exists n :: ChainEndsAt(p, src, trustedRoot, n) && LastRootAccepted(p, src, trustedRoot, n, now)
    ensures var r := VerifyResult(p, src, trustedRoot, now);
            r.Ok? ==> SelfSigned(p, trustedRoot) && ChainEndsAt(p, src, trustedRoot, r.value.rootVersion) &&
                      LastRootAccepted(p, src, trustedRoot, r.value.rootVersion, now) &&
                      r.value.rootSha256 == p.sha256Hex(RootBytes(p, src, trustedRoot, r.value.rootVersion))
  {
    hide AnchorRoot, NewestRoot, OnlineResult, HasType, SoundRoot, SignedBy, RootName, ChainEndsAt, NotExpired,
      GoodBelow;
    AnchorAccepted(p, trustedRoot, now);
    if SelfSigned(p, trustedRoot) {
      NewestIsChainEnd(p, src, trustedRoot, now);
      var newest := NewestRoot(p, src, RootOf(p, trustedRoot), now);
      if newest.Ok? {
        AcceptedByLastRoot(p, src, newest.value, now);
        OnlineAccepted(p, src, newest.value, now);
        assert OnlineResult(p, src, newest.value, now).Ok? <==>
            LastRootAccepted(p, src, trustedRoot, newest.value.version, now);
      }
    }
  }

  /** The root of number `n` has not expired, and the three documents below it are good under it. */
  predicate LastRootAccepted(p: Primitives, src: Source, trustedRoot: Bytes, n: nat, now: string)
    requires HoldsRoot(p, trustedRoot)
  {
    var bytes := RootBytes(p, src, trustedRoot, n);
    HoldsRoot(p, bytes) && NotExpired(RootOf(p, bytes).signed, now) && GoodBelow(p, src, RootOf(p, bytes), now)
  }

  predicate NotExpired(signed: Value, now: string)
  {
    StrAt(signed, "expires").Ok? &&
    var e := Calendar.ParseCanonicalUtcSeconds(StrAt(signed, "expires").value);
    var t := Calendar.ParseCanonicalUtcSeconds(now);
    e.Ok? && t.Ok? && t.value < e.value
  }

  // ---------- the documents below the root, on their own ----------

  /** Readable, of the right type, signed by enough distinct keys of the role under `root`, and not expired. */
  predicate GoodDocument(p: Primitives, bytes: Bytes, root: Root, role: string, now: string)
  {
    Readable(p, bytes) && RoleOf(root.signed, role).Ok? &&
    var doc, def := p.parse(bytes).value, RoleOf(root.signed, role).value;
    HasType(doc.signed, role) && NotExpired(doc.signed, now) &&
    |ValidSigners(p, doc.signatures, root.keys, def, CanonicalText(doc.signed))| >= def.threshold
  }

  /** The entry states the length and, but for case, the digest of exactly these bytes. */
  predicate Pins(p: Primitives, entry: Value, bytes: Bytes)
  {
    U64At(entry, "length") == Ok(|bytes|) &&
    match Pointer(entry, "hashes", "sha256")
    case Some(Str(sha)) => EqIgnoreAsciiCase(p.sha256Hex(bytes), sha)
    case _ => false
  }

  /**
   * The parent's entry for `role` gives a version; the file of that version is pinned, good, and says the same
   * version.
   */
  predicate GoodChild(p: Primitives, src: Source, parent: Value, role: string, root: Root, now: string)
  {
    Pointer(parent, "meta", role + ".json").Some? &&
    var entry := Pointer(parent, "meta", role + ".json").value;
    VersionOf(entry).Ok? && PinnedName(VersionOf(entry).value, role) in src &&
    var bytes := src[PinnedName(VersionOf(entry).value, role)];
    Pins(p, entry, bytes) && GoodDocument(p, bytes, root, role, now) &&
    VersionOf(p.parse(bytes).value.signed) == VersionOf(entry)
  }

  function ChildBytes(p: Primitives, src: Source, parent: Value, role: string, root: Root, now: string): Bytes
    requires GoodChild(p, src, parent, role, root, now)
  {
    src[PinnedName(VersionOf(Pointer(parent, "meta", role + ".json").value).value, role)]
  }

  predicate GoodTarget(info: Value)
  {
    U64At(info, "length").Ok? && match Pointer(info, "hashes", "sha256") case Some(Str(_)) => true case _ => false
  }

  /** A table in which every entry has a length and a digest. */
  predicate GoodTargets(signed: Value)
  {
    match Get(signed, "targets")
    case Some(Obj(fields)) => forall f :: f in fields ==> GoodTarget(f.value)
    case _ => false
  }

  predicate GoodBelow(p: Primitives, src: Source, root: Root, now: string)
  {
    "timestamp.json" in src && GoodDocument(p, src["timestamp.json"], root, "timestamp", now) &&
    var ts := p.parse(src["timestamp.json"]).value.signed;
    VersionOf(ts).Ok? && GoodChild(p, src, ts, "snapshot", root, now) &&
    var snap := p.parse(ChildBytes(p, src, ts, "snapshot", root, now)).value.signed;
    GoodChild(p, src, snap, "targets", root, now) &&
    GoodTargets(p.parse(ChildBytes(p, src, snap, "targets", root, now)).value.signed)
  }

  lemma ExpiryAccepted(signed: Value, role: string, now: string)
    ensures ExpiryCheck(signed, role, now).Ok? <==> NotExpired(signed, now)
  {
    hide Calendar.ParseCanonicalUtcSeconds;
  }

  lemma DocumentAccepted(p: Primitives, bytes: Bytes, root: Root, role: string, now: string)
    ensures OnlineDoc(p, bytes, root, role, now).Ok? <==> GoodDocument(p, bytes, root, role, now)
    ensures GoodDocument(p, bytes, root, role, now) ==>
              OnlineDoc(p, bytes, root, role, now).value == p.parse(bytes).value.signed
  {
    hide ExpiryCheck, NotExpired, RoleOf, ValidSigners, CanonicalText;
    if Readable(p, bytes) { ExpiryAccepted(p.parse(bytes).value.signed, role, now); }
  }

  lemma ChildAccepted(p: Primitives, src: Source, parent: Value, role: string, root: Root, now: string)
    ensures PinnedDoc(p, src, parent, role, root, now).Ok? <==> GoodChild(p, src, parent, role, root, now)
    ensures GoodChild(p, src, parent, role, root, now) ==>
              var bytes := ChildBytes(p, src, parent, role, root, now);
              PinnedDoc(p, src, parent, role, root, now)
              == Ok((bytes, p.parse(bytes).value.signed,
                     VersionOf(Pointer(parent, "meta", role + ".json").value).value))
  {
    hide OnlineDoc, GoodDocument, VersionOf, U64At, EqIgnoreAsciiCase, Readable;
    var entry := Pointer(parent, "meta", role + ".json");
    if entry.Some? && VersionOf(entry.value).Ok? && PinnedName(VersionOf(entry.value).value, role) in src {
      var bytes := src[PinnedName(VersionOf(entry.value).value, role)];
      DocumentAccepted(p, bytes, root, role, now);
      if GoodDocument(p, bytes, root, role, now) { GoodIsReadable(p, bytes, root, role, now); }
    }
  }

  lemma GoodIsReadable(p: Primitives, bytes: Bytes, root: Root, role: string, now: string)
    requires GoodDocument(p, bytes, root, role, now)
    ensures Readable(p, bytes) && p.parse(bytes).Some?
  {
  }

  lemma GoodChildIsReadable(p: Primitives, src: Source, parent: Value, role: string, root: Root, now: string)
    requires GoodChild(p, src, parent, role, root, now)
    ensures p.parse(ChildBytes(p, src, parent, role, root, now)).Some?
  {
    hide Pins, HasType, NotExpired, RoleOf, ValidSigners, VersionOf;
  }

  /** The table is read exactly when every entry is good. */
  lemma {:induction false} TargetsAccepted(fields: seq<Field>)
    ensures TargetTable(fields).Ok? <==> forall f :: f in fields ==> GoodTarget(f.value)
  {
    if fields != [] {
      hide U64At, Pointer, Get, Lower;
      TargetsAccepted(fields[1..]);
      assert fields == [fields[0]] + fields[1..];
    }
  }

  /** The table then has the length, the lower-case digest and the custom data of every entry under its name. */
  lemma {:induction false} TargetsRead(fields: seq<Field>, i: nat)
    requires TargetTable(fields).Ok? && Distinct(Keys(fields)) && i < |fields|
    ensures fields[i].key in TargetTable(fields).value
    ensures var info := TargetTable(fields).value[fields[i].key];
            U64At(fields[i].value, "length") == Ok(info.length) && info.custom == Get(fields[i].value, "custom") &&
            match Pointer(fields[i].value, "hashes", "sha256")
            case Some(Str(sha)) => info.sha256 == Lower(sha)
            case _ => false
  {
    hide U64At, Pointer, Get, Lower;
    if i > 0 {
      assert Keys(fields)[0] != Keys(fields)[i];
      assert Keys(fields[1..]) == Keys(fields)[1..];
      TargetsRead(fields[1..], i - 1);
    }
  }

  /**
   * Everything after the root chain is accepted exactly when the last root has not expired and all is good
   * below it.
   */
  lemma OnlineAccepted(p: Primitives, src: Source, root: Root, now: string)
    ensures OnlineResult(p, src, root, now).Ok? <==> NotExpired(root.signed, now) && GoodBelow(p, src, root, now)
  {
    hide ExpiryCheck, NotExpired, OnlineDoc, PinnedDoc, GoodDocument, GoodChild, TargetTable, VersionOf, Get,
      ChildBytes;
    ExpiryAccepted(root.signed, "root", now);
    if "timestamp.json" in src {
      DocumentAccepted(p, src["timestamp.json"], root, "timestamp", now);
      if GoodDocument(p, src["timestamp.json"], root, "timestamp", now) {
        GoodIsReadable(p, src["timestamp.json"], root, "timestamp", now);
        var ts := p.parse(src["timestamp.json"]).value.signed;
        ChildAccepted(p, src, ts, "snapshot", root, now);
        if GoodChild(p, src, ts, "snapshot", root, now) {
          GoodChildIsReadable(p, src, ts, "snapshot", root, now);
          var snap := p.parse(ChildBytes(p, src, ts, "snapshot", root, now)).value.signed;
          ChildAccepted(p, src, snap, "targets", root, now);
          if GoodChild(p, src, snap, "targets", root, now) {
            GoodChildIsReadable(p, src, snap, "targets", root, now);
            var tgt := p.parse(ChildBytes(p, src, snap, "targets", root, now)).value.signed;
            match Get(tgt, "targets") {
              case Some(Obj(fields)) => TargetsAccepted(fields);
              case _ =>
            }
          }
        }
      }
    }
  }

  // ---------- the timestamp pins everything below it ----------

  /** The digest function answers in lower-case hex. */
  ghost predicate LowercaseDigests(p: Primitives)
  {
    forall b :: Lower(p.sha256Hex(b)) == p.sha256Hex(b)
  }

  predicate NoCollision(p: Primitives, a: Bytes, b: Bytes)
  {
    p.sha256Hex(a) == p.sha256Hex(b) ==> a == b
  }

  /** No file of one source has the digest of a different file of the other. */
  predicate NoCollisions(p: Primitives, a: Source, b: Source)
  {
    forall m, n :: m in a && n in b ==> NoCollision(p, a[m], b[n])
  }

  function PinnedName(version: nat, role: string): string
  {
    Text.Decimal(version) + "." + role + ".json"
  }

  lemma OnlineDocFacts(p: Primitives, bytes: Bytes, root: Root, role: string, now: string)
    requires OnlineDoc(p, bytes, root, role, now).Ok?
    ensures Readable(p, bytes) && OnlineDoc(p, bytes, root, role, now).value == p.parse(bytes).value.signed
  {
    hide ExpiryCheck, RoleOf, CanonicalText;
  }

  lemma PinnedFacts(p: Primitives, src: Source, parent: Value, role: string, root: Root, now: string)
    requires PinnedDoc(p, src, parent, role, root, now).Ok?
    ensures var (bytes, signed, version) := PinnedDoc(p, src, parent, role, root, now).value;
            && Pointer(parent, "meta", role + ".json").Some?
            && var entry := Pointer(parent, "meta", role + ".json").value;
            && VersionOf(entry) == Ok(version)
            && PinnedName(version, role) in src && bytes == src[PinnedName(version, role)]
            && (match Pointer(entry, "hashes", "sha256")
                case Some(Str(sha)) => EqIgnoreAsciiCase(p.sha256Hex(bytes), sha)
                case _ => false)
            && Readable(p, bytes) && signed == p.parse(bytes).value.signed
  {
    hide OnlineDoc;
    var (bytes, _, _) := PinnedDoc(p, src, parent, role, root, now).value;
    OnlineDocFacts(p, bytes, root, role, now);
  }

  /** One parent entry pins one document: same bytes, same content, same version, in any source at any time. */
  lemma PinnedSame(p: Primitives, parent: Value, role: string,
                   srcA: Source, rootA: Root, nowA: string, srcB: Source, rootB: Root, nowB: string)
    requires PinnedDoc(p, srcA, parent, role, rootA, nowA).Ok? && PinnedDoc(p, srcB, parent, role, rootB, nowB).Ok?
    requires LowercaseDigests(p) && NoCollisions(p, srcA, srcB)
    ensures PinnedDoc(p, srcA, parent, role, rootA, nowA).value == PinnedDoc(p, srcB, parent, role, rootB, nowB).value
  {
    hide PinnedDoc;
    PinnedFacts(p, srcA, parent, role, rootA, nowA);
    PinnedFacts(p, srcB, parent, role, rootB, nowB);
    var a := PinnedDoc(p, srcA, parent, role, rootA, nowA).value.0;
    var b := PinnedDoc(p, srcB, parent, role, rootB, nowB).value.0;
    assert Lower(p.sha256Hex(a)) == p.sha256Hex(a) && Lower(p.sha256Hex(b)) == p.sha256Hex(b);
    assert NoCollision(p, a, b);
  }

  /** The verified result, read off the three documents below the root. */
  lemma OnlineFacts(p: Primitives, src: Source, root: Root, now: string)
    requires OnlineResult(p, src, root, now).Ok?
    ensures var v := OnlineResult(p, src, root, now).value;
            && "timestamp.json" in src && Readable(p, src["timestamp.json"])
            && var ts := p.parse(src["timestamp.json"]).value.signed;
            && VersionOf(ts) == Ok(v.timestampVersion) && v.timestampSha256 == p.sha256Hex(src["timestamp.json"])
            && PinnedDoc(p, src, ts, "snapshot", root, now).Ok?
            && var snap := PinnedDoc(p, src, ts, "snapshot", root, now).value;
            && v.snapshotVersion == snap.2 && v.snapshotSha256 == p.sha256Hex(snap.0)
            && PinnedDoc(p, src, snap.1, "targets", root, now).Ok?
            && var tgt := PinnedDoc(p, src, snap.1, "targets", root, now).value;
            && v.targetsVersion == tgt.2 && v.targetsSha256 == p.sha256Hex(tgt.0)
            && Get(tgt.1, "targets").Some? && Get(tgt.1, "targets").value.Obj?
            && TargetTable(Get(tgt.1, "targets").value.fields) == Ok(v.targets)
  {
    hide PinnedDoc, ExpiryCheck, OnlineDoc;
    OnlineDocFacts(p, src["timestamp.json"], root, "timestamp", now);
  }

  /**
   * Two accepted verifications that saw the same timestamp bytes agree on everything below it,
   * whatever their anchors, roots, clocks and sources were.
   */
  lemma TimestampPinsEverything(p: Primitives, srcA: Source, trustedA: Bytes, nowA: string,
                                srcB: Source, trustedB: Bytes, nowB: string)
    requires LowercaseDigests(p) && NoCollisions(p, srcA, srcB)
    requires VerifyResult(p, srcA, trustedA, nowA).Ok? && VerifyResult(p, srcB, trustedB, nowB).Ok?
    requires "timestamp.json" in srcA && "timestamp.json" in srcB && srcA["timestamp.json"] == srcB["timestamp.json"]
    ensures var a, b := VerifyResult(p, srcA, trustedA, nowA).value, VerifyResult(p, srcB, trustedB, nowB).value;
            && a.timestampVersion == b.timestampVersion && a.timestampSha256 == b.timestampSha256
            && a.snapshotVersion == b.snapshotVersion && a.snapshotSha256 == b.snapshotSha256
            && a.targetsVersion == b.targetsVersion && a.targetsSha256 == b.targetsSha256
            && a.targets == b.targets
            && PinnedName(a.snapshotVersion, "snapshot") in srcA && PinnedName(a.snapshotVersion, "snapshot") in srcB
            && srcA[PinnedName(a.snapshotVersion, "snapshot")] == srcB[PinnedName(a.snapshotVersion, "snapshot")]
            && PinnedName(a.targetsVersion, "targets") in srcA && PinnedName(a.targetsVersion, "targets") in srcB
            && srcA[PinnedName(a.targetsVersion, "targets")] == srcB[PinnedName(a.targetsVersion, "targets")]
  {
    hide AnchorRoot, NewestRoot, OnlineResult, PinnedDoc, PinnedName, VersionOf, TargetTable, NoCollisions;
    var rootA := NewestRoot(p, srcA, AnchorRoot(p, trustedA, nowA).value, nowA).value;
    var rootB := NewestRoot(p, srcB, AnchorRoot(p, trustedB, nowB).value, nowB).value;
    OnlineFacts(p, srcA, rootA, nowA);
    OnlineFacts(p, srcB, rootB, nowB);
    var ts := p.parse(srcA["timestamp.json"]).value.signed;
    PinnedSame(p, ts, "snapshot", srcA, rootA, nowA, srcB, rootB, nowB);
    PinnedFacts(p, srcA, ts, "snapshot", rootA, nowA);
    PinnedFacts(p, srcB, ts, "snapshot", rootB, nowB);
    var snap := PinnedDoc(p, srcA, ts, "snapshot", rootA, nowA).value;
    PinnedSame(p, snap.1, "targets", srcA, rootA, nowA, srcB, rootB, nowB);
    PinnedFacts(p, srcA, snap.1, "targets", rootA, nowA);
    PinnedFacts(p, srcB, snap.1, "targets", rootB, nowB);
  }

  /** Only one byte string can be installed under a target name of a given timestamp. */
  lemma OneFilePerTarget(p: Primitives, srcA: Source, trustedA: Bytes, nowA: string,
                         srcB: Source, trustedB: Bytes, nowB: string, name: string, x: Bytes, y: Bytes)
    requires LowercaseDigests(p) && NoCollisions(p, srcA, srcB) && NoCollision(p, x, y)
    requires VerifyResult(p, srcA, trustedA, nowA).Ok? && VerifyResult(p, srcB, trustedB, nowB).Ok?
    requires "timestamp.json" in srcA && "timestamp.json" in srcB && srcA["timestamp.json"] == srcB["timestamp.json"]
    requires var a := VerifyResult(p, srcA, trustedA, nowA).value;
             name in a.targets && VerifyTargetBytes(p, a.targets[name], x).Ok?
    requires var b := VerifyResult(p, srcB, trustedB, nowB).value;
             name in b.targets && VerifyTargetBytes(p, b.targets[name], y).Ok?
    ensures x == y
  {
    hide VerifyResult;
    TimestampPinsEverything(p, srcA, trustedA, nowA, srcB, trustedB, nowB);
    assert Lower(p.sha256Hex(x)) == p.sha256Hex(x) && Lower(p.sha256Hex(y)) == p.sha256Hex(y);
  }
}
