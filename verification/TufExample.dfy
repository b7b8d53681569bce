/**
 * A smallest accepted metadata set: one root and one key that signs everything. It shows that what the
 * theorems about accepted verifications assume can be met.
 */
module TufExample {
  import opened Wrappers
  import opened TufErrors
  import opened CanonicalJson
  import opened Sorting
  import opened TufTrust
  import opened TufTheorems
  import opened TrustStore
  import Calendar
  import Text
  import TrustHistory

  /** The example's files differ in length, and a digest ends in the length of its file. */
  const ROOT: Bytes := [0]
  const TIMESTAMP: Bytes := [0, 0]
  const SNAPSHOT: Bytes := [0, 0, 0]
  const TARGETS: Bytes := [0, 0, 0, 0]
  const TOOL: Bytes := [0, 0, 0, 0, 0]

  const FILES: Source := map["timestamp.json" := TIMESTAMP, "1.snapshot.json" := SNAPSHOT, "1.targets.json" := TARGETS]

  const ROLE := Obj([Field("keyids", Arr([Str("k")])), Field("threshold", Int(1))])

  const KEY := Obj([Field("keytype", Str("ed25519")), Field("keyval", Obj([Field("public", Str("p"))]))])

  function Header(role: string, expires: string): seq<Field>
  {
    [Field("_type", Str(role)), Field("spec_version", Str(SPEC_VERSION)), Field("version", Int(1)),
     Field("expires", Str(expires))]
  }

  function RootDoc(e: string): Value
  {
    Obj(Header("root", e) + [
      Field("consistent_snapshot", Bool(true)),
      Field("keys", Obj([Field("k", KEY)])),
      Field("roles",
            Obj([Field("root", ROLE), Field("timestamp", ROLE), Field("snapshot", ROLE), Field("targets", ROLE)]))])
  }

  /** An entry that pins a file by its length. */
  function Pin(length: nat): Value
  {
    Obj([Field("length", Int(length)), Field("version", Int(1)),
         Field("hashes", Obj([Field("sha256", Str(Hash(length)))]))])
  }

  function MetaDoc(e: string, role: string, name: string, length: nat): Value
  {
    Obj(Header(role, e) + [Field("meta", Obj([Field(name, Pin(length))]))])
  }

  function TargetsDoc(e: string): Value
  {
    Obj(Header("targets", e) + [Field("targets", Obj([Field("tool", Pin(5))]))])
  }

  function Doc(e: string, bytes: Bytes): Option<TufDoc>
  {
    match |bytes|
    case 1 => Some(Signed(RootDoc(e)))
    case 2 => Some(Signed(MetaDoc(e, "timestamp", "snapshot.json", 3)))
    case 3 => Some(Signed(MetaDoc(e, "snapshot", "targets.json", 4)))
    case 4 => Some(Signed(TargetsDoc(e)))
    case _ => None
  }

  function Signed(v: Value): TufDoc
  {
    TufDoc([Signature("k", "s")], v)
  }

  /** Sixty-four hexadecimal characters, as the store asks for. */
  function Hash(length: nat): string
  {
    seq(63, _ => '0') + [Text.DigitChar(if length < 10 then length else 9)]
  }

  function Digest(b: Bytes): string
  {
    Hash(|b|)
  }

  /** Every signature counts, and every document expires at `e`. */
  function World(e: string): Primitives
  {
    Primitives((bytes: Bytes) => Doc(e, bytes), Digest, (key: string, message: string, sig: string) => true)
  }

  // ---------- reading the documents ----------

  lemma Reads(v: Value, i: nat, key: string, value: Value)
    requires v.Obj? && i < |v.fields| && v.fields[i] == Field(key, value)
    requires forall j :: 0 <= j < |v.fields| && j != i ==> v.fields[j].key != key
    ensures Get(v, key) == Some(value)
  {
    assert Keys(v.fields)[i] == key;
  }

  lemma HeaderReads(role: string, e: string, rest: seq<Field>)
    requires forall i :: 0 <= i < |rest| ==> rest[i].key !in {"_type", "spec_version", "version", "expires"}
    ensures var v := Obj(Header(role, e) + rest);
            StrAt(v, "_type") == Ok(role) && StrAt(v, "spec_version") == Ok(SPEC_VERSION) && VersionOf(v) == Ok(1) &&
            StrAt(v, "expires") == Ok(e)
  {
    hide Get;
    var v := Obj(Header(role, e) + rest);
    Reads(v, 0, "_type", Str(role));
    Reads(v, 1, "spec_version", Str(SPEC_VERSION));
    Reads(v, 2, "version", Int(1));
    Reads(v, 3, "expires", Str(e));
  }

  lemma OneString(items: seq<Value>)
    requires |items| == 1 && items[0].Str?
    ensures Strings(items) == Ok([items[0].s])
  {
    assert items[1..] == [];
    assert Strings(items[1..]) == Ok([]);
    assert [items[0].s] + [] == [items[0].s];
  }

  lemma RoleReads(root: Value, role: string)
    requires Pointer(root, "roles", role) == Some(ROLE)
    ensures RoleOf(root, role) == Ok(RoleDef(["k"], 1))
  {
    hide Get, Pointer;
    Reads(ROLE, 0, "keyids", Arr([Str("k")]));
    Reads(ROLE, 1, "threshold", Int(1));
    OneString([Str("k")]);
  }

  lemma RootReads(e: string)
    ensures var v := RootDoc(e);
            RootKeys(v) == Ok(map["k" := "p"]) && ConsistentSnapshot(v) && VersionOf(v) == Ok(1) &&
            forall role :: role in {"root", "timestamp", "snapshot", "targets"} ==>
                             Pointer(v, "roles", role) == Some(ROLE)
  {
    hide Get, RoleOf;
    var v := RootDoc(e);
    var keys := [Field("k", KEY)];
    var roles := Obj([Field("root", ROLE), Field("timestamp", ROLE), Field("snapshot", ROLE), Field("targets", ROLE)]);
    HeaderReads("root", e, v.fields[4..]);
    assert Header("root", e) + v.fields[4..] == v.fields;
    Reads(v, 4, "consistent_snapshot", Bool(true));
    Reads(v, 5, "keys", Obj(keys));
    Reads(v, 6, "roles", roles);
    Reads(roles, 0, "root", ROLE);
    Reads(roles, 1, "timestamp", ROLE);
    Reads(roles, 2, "snapshot", ROLE);
    Reads(roles, 3, "targets", ROLE);
    KeyReads(keys);
  }

  lemma KeyReads(keys: seq<Field>)
    requires keys == [Field("k", KEY)]
    ensures KeyTable(keys) == Ok(map["k" := "p"])
  {
    hide Get;
    Reads(KEY, 0, "keytype", Str("ed25519"));
    Reads(KEY, 1, "keyval", Obj([Field("public", Str("p"))]));
    Reads(Obj([Field("public", Str("p"))]), 0, "public", Str("p"));
    assert keys[1..] == [];
    assert KeyTable(keys[1..]) == Ok(map[]);
  }

  // ---------- every check passes ----------

  const KEYS := map["k" := "p"]

  lemma SomethingSigned(e: string, message: string)
    ensures ValidSigners(World(e), [Signature("k", "s")], KEYS, RoleDef(["k"], 1), message) == {"k"}
  {
    var s := Signature("k", "s");
    assert s in [s];
    assert ValidSigners(World(e), [s], KEYS, RoleDef(["k"], 1), message) == {"k"};
  }

  lemma PlainFields(fields: seq<Field>)
    requires forall i :: 0 <= i < |fields| ==> FloatFree(fields[i].value)
    ensures FloatFree(Obj(fields))
  {
  }

  lemma PlainValues()
    ensures FloatFree(ROLE) && FloatFree(KEY) && forall n :: FloatFree(Pin(n))
  {
    PlainFields(ROLE.fields);
    PlainFields([Field("public", Str("p"))]);
    PlainFields(KEY.fields);
    forall n ensures FloatFree(Pin(n)) {
      PlainFields([Field("sha256", Str(Hash(n)))]);
      PlainFields(Pin(n).fields);
    }
  }

  lemma RootIsPlain(e: string)
    ensures FloatFree(RootDoc(e))
  {
    hide FloatFree;
    PlainValues();
    PlainScalars(e);
    PlainFields([Field("k", KEY)]);
    PlainFields([Field("root", ROLE), Field("timestamp", ROLE), Field("snapshot", ROLE), Field("targets", ROLE)]);
    PlainFields(RootDoc(e).fields);
  }

  lemma PlainScalars(e: string)
    ensures FloatFree(Str(e)) && FloatFree(Bool(true)) && FloatFree(Int(1)) && FloatFree(Str(SPEC_VERSION))
    ensures FloatFree(Str("root")) && FloatFree(Str("timestamp")) && FloatFree(Str("snapshot"))
    ensures FloatFree(Str("targets"))
  {
  }

  lemma RoleIsSound(root: Value, role: string)
    requires Pointer(root, "roles", role) == Some(ROLE)
    ensures SoundRole(root, KEYS, role) && RoleOf(root, role) == Ok(RoleDef(["k"], 1))
  {
    RoleReads(root, role);
    hide RoleOf, Pointer;
  }

  lemma RootIsSound(e: string)
    ensures SelfSigned(World(e), ROOT)
    ensures RootOf(World(e), ROOT) == Root(RootDoc(e), KEYS, RoleDef(["k"], 1), 1, Digest(ROOT))
  {
    hide Get, Pointer, StrAt, RoleOf, ConsistentSnapshot, RootKeys, VersionOf, CanonicalText, FloatFree, SoundRole,
      ValidSigners, RootDoc, Text.Decimal;
    var v := RootDoc(e);
    RootReads(e);
    RootHeader(e);
    RootIsPlain(e);
    RoleIsSound(v, "root");
    RoleIsSound(v, "timestamp");
    RoleIsSound(v, "snapshot");
    RoleIsSound(v, "targets");
    SomethingSigned(e, CanonicalText(v));
    assert World(e).parse(ROOT) == Some(Signed(v));
  }

  lemma RootHeader(e: string)
    ensures HasType(RootDoc(e), "root") <==> FloatFree(RootDoc(e))
    ensures StrAt(RootDoc(e), "expires") == Ok(e)
  {
    hide FloatFree, StrAt;
    var v := RootDoc(e);
    HeaderReads("root", e, v.fields[4..]);
    assert Header("root", e) + v.fields[4..] == v.fields;
  }

  lemma PinReads(n: nat)
    requires n <= U64_MAX
    ensures U64At(Pin(n), "length") == Ok(n) && VersionOf(Pin(n)) == Ok(1)
    ensures Pointer(Pin(n), "hashes", "sha256") == Some(Str(Hash(n)))
  {
    hide Get, Hash;
    var hashes := Obj([Field("sha256", Str(Hash(n)))]);
    Reads(Pin(n), 0, "length", Int(n));
    Reads(Pin(n), 1, "version", Int(1));
    Reads(Pin(n), 2, "hashes", hashes);
    Reads(hashes, 0, "sha256", Str(Hash(n)));
  }

  lemma MetaReads(e: string, role: string, name: string, length: nat)
    ensures var v := MetaDoc(e, role, name, length);
            StrAt(v, "_type") == Ok(role) && StrAt(v, "spec_version") == Ok(SPEC_VERSION) && VersionOf(v) == Ok(1) &&
            StrAt(v, "expires") == Ok(e) && Pointer(v, "meta", name) == Some(Pin(length)) && FloatFree(v)
  {
    hide Get, StrAt, FloatFree, Pin;
    var v := MetaDoc(e, role, name, length);
    var meta := Obj([Field(name, Pin(length))]);
    HeaderReads(role, e, [Field("meta", meta)]);
    Reads(v, 4, "meta", meta);
    Reads(meta, 0, name, Pin(length));
    PlainValues();
    PlainScalars(e);
    PlainText(role);
    PlainFields([Field(name, Pin(length))]);
    PlainFields(v.fields);
  }

  lemma PlainText(s: string)
    ensures FloatFree(Str(s))
  {
  }

  lemma TargetsReads(e: string)
    ensures var v := TargetsDoc(e);
            StrAt(v, "_type") == Ok("targets") && StrAt(v, "spec_version") == Ok(SPEC_VERSION) &&
            VersionOf(v) == Ok(1) &&
            StrAt(v, "expires") == Ok(e) && Get(v, "targets") == Some(Obj([Field("tool", Pin(5))])) && FloatFree(v)
  {
    hide Get, StrAt, FloatFree, Pin;
    var v := TargetsDoc(e);
    var table := Obj([Field("tool", Pin(5))]);
    HeaderReads("targets", e, [Field("targets", table)]);
    Reads(v, 4, "targets", table);
    PlainValues();
    PlainScalars(e);
    PlainFields([Field("tool", Pin(5))]);
    PlainFields(v.fields);
  }

  /** The clock of the example stands just before every expiry. */
  predicate InTime(e: string, now: string)
  {
    Calendar.ParseCanonicalUtcSeconds(e) == Ok(1) && Calendar.ParseCanonicalUtcSeconds(now) == Ok(0)
  }

  lemma DocAccepted(e: string, now: string, bytes: Bytes, v: Value, role: string)
    requires InTime(e, now) && |bytes| <= 4 && Doc(e, bytes) == Some(Signed(v))
    requires role in {"timestamp", "snapshot", "targets"}
    requires StrAt(v, "_type") == Ok(role) && StrAt(v, "spec_version") == Ok(SPEC_VERSION)
    requires StrAt(v, "expires") == Ok(e) && FloatFree(v)
    ensures OnlineDoc(World(e), bytes, Root(RootDoc(e), KEYS, RoleDef(["k"], 1), 1, Digest(ROOT)), role, now) == Ok(v)
  {
    hide Get, Pointer, StrAt, RoleOf, CanonicalText, FloatFree, ValidSigners, RootDoc,
      Calendar.ParseCanonicalUtcSeconds;
    RootReads(e);
    RoleReads(RootDoc(e), role);
    SomethingSigned(e, CanonicalText(v));
  }

  lemma DigestsMatch(bytes: Bytes)
    ensures EqIgnoreAsciiCase(Digest(bytes), Hash(|bytes|)) && Lower(Digest(bytes)) == Digest(bytes)
  {
  }

  lemma PinAccepted(e: string, now: string, parent: Value, role: string, bytes: Bytes, v: Value)
    requires InTime(e, now) && |bytes| <= 4 && Doc(e, bytes) == Some(Signed(v)) && role in {"snapshot", "targets"}
    requires StrAt(v, "_type") == Ok(role) && StrAt(v, "spec_version") == Ok(SPEC_VERSION)
    requires StrAt(v, "expires") == Ok(e) && FloatFree(v)
    requires VersionOf(v) == Ok(1) && Pointer(parent, "meta", role + ".json") == Some(Pin(|bytes|))
    requires Text.Decimal(1) + "." + role + ".json" in FILES && FILES[Text.Decimal(1) + "." + role + ".json"] == bytes
    ensures var root := Root(RootDoc(e), KEYS, RoleDef(["k"], 1), 1, Digest(ROOT));
            PinnedDoc(World(e), FILES, parent, role, root, now) == Ok((bytes, v, 1))
  {
    hide OnlineDoc, Get, Pointer, VersionOf, U64At, StrAt, FloatFree, RootDoc, Text.Decimal, Pin, EqIgnoreAsciiCase,
      Lower, InTime;
    PinReads(|bytes|);
    DigestsMatch(bytes);
    DocAccepted(e, now, bytes, v, role);
  }

  lemma SmallNumbers()
    ensures Text.Decimal(1) == "1" && Text.Decimal(2) == "2"
  {
  }

  lemma FileNames()
    ensures Text.Decimal(1) + ".snapshot.json" == "1.snapshot.json"
    ensures Text.Decimal(1) + ".targets.json" == "1.targets.json"
    ensures Text.Decimal(1) + "." + "snapshot" + ".json" == "1.snapshot.json"
    ensures Text.Decimal(1) + "." + "targets" + ".json" == "1.targets.json"
    ensures RootName(2) !in FILES
  {
    SmallNumbers();
    hide Text.Decimal;
    assert RootName(2)[0] == '2';
  }

  lemma NoNextRoot(e: string, now: string, root: Root)
    requires root.version == 1
    ensures NewestRoot(World(e), FILES, root, now) == Ok(root)
  {
    hide NextRoot, RootName;
    FileNames();
  }

  lemma TableReads()
    ensures var info := TargetInfo(5, Lower(Hash(5)), Get(Pin(5), "custom"));
            TargetTable([Field("tool", Pin(5))]) == Ok(map["tool" := info])
  {
    hide Get, Lower, Text.Decimal, Pin;
    var fields := [Field("tool", Pin(5))];
    PinReads(5);
    assert fields[1..] == [];
    assert TargetTable(fields[1..]) == Ok(map[]);
  }

  lemma NotYetExpired(e: string, now: string)
    requires InTime(e, now)
    ensures ExpiryCheck(RootDoc(e), "root", now) == Ok(())
  {
    hide RootDoc, Calendar.ParseCanonicalUtcSeconds;
    RootHeader(e);
  }

  /** What the example gives. */
  function Verified(): VerifiedTuf
  {
    VerifiedTuf(1, 1, 1, 1, Digest(ROOT), Digest(TIMESTAMP), Digest(SNAPSHOT), Digest(TARGETS),
                map["tool" := TargetInfo(5, Lower(Hash(5)), Get(Pin(5), "custom"))])
  }

  lemma BelowTheRoot(e: string, now: string)
    requires InTime(e, now)
    ensures var r := OnlineResult(World(e), FILES, Root(RootDoc(e), KEYS, RoleDef(["k"], 1), 1, Digest(ROOT)), now);
            r == Ok(Verified())
  {
    hide OnlineDoc, PinnedDoc, ExpiryCheck, Get, Pointer, StrAt, VersionOf, RootDoc, MetaDoc, TargetsDoc,
      Text.Decimal, Pin, Lower, InTime, TargetTable;
    var (t, s, g) := (MetaDoc(e, "timestamp", "snapshot.json", 3), MetaDoc(e, "snapshot", "targets.json", 4),
                      TargetsDoc(e));
    NotYetExpired(e, now);
    FileNames();
    MetaReads(e, "timestamp", "snapshot.json", 3);
    MetaReads(e, "snapshot", "targets.json", 4);
    TargetsReads(e);
    TableReads();
    DocAccepted(e, now, TIMESTAMP, t, "timestamp");
    assert "snapshot" + ".json" == "snapshot.json" && "targets" + ".json" == "targets.json";
    PinAccepted(e, now, t, "snapshot", SNAPSHOT, s);
    PinAccepted(e, now, s, "targets", TARGETS, g);
  }

  /**
   * The example is accepted, its digests are lower-case and collide with nothing, and a tool is accepted
   * for its target.
   */
  lemma ExampleIsAccepted()
    ensures var (e, now) := (Calendar.NowRfc3339(1), Calendar.NowRfc3339(0));
            var r := VerifyResult(World(e), FILES, ROOT, now);
            r == Ok(Verified()) && LowercaseDigests(World(e)) && NoCollisions(World(e), FILES, FILES) &&
            "tool" in r.value.targets && VerifyTargetBytes(World(e), r.value.targets["tool"], TOOL).Ok?
  {
    hide AnchorRoot, NewestRoot, OnlineResult, SignedBy, RootOf, RootDoc, Lower, Calendar.NowRfc3339,
      Calendar.ParseCanonicalUtcSeconds, Text.Decimal;
    var (e, now) := (Calendar.NowRfc3339(1), Calendar.NowRfc3339(0));
    Calendar.FormatThenParse(1);
    Calendar.FormatThenParse(0);
    RootIsSound(e);
    AnchorAccepted(World(e), ROOT, now);
    NoNextRoot(e, now, RootOf(World(e), ROOT));
    BelowTheRoot(e, now);
    forall b: Bytes { DigestsMatch(b); }
    FilesDiffer(e);
  }

  lemma FilesDiffer(e: string)
    ensures NoCollisions(World(e), FILES, FILES)
  {
    forall a: Bytes, b: Bytes | a in FILES.Values && b in FILES.Values ensures NoCollision(World(e), a, b) {
      assert Digest(a)[63] == Text.DigitChar(|a|) && Digest(b)[63] == Text.DigitChar(|b|);
    }
  }

  // ---------- the store accepts it ----------

  const ROWS: Rows := map["source" := Row("url", "fingerprint", true, NO_STATE)]

  lemma HashIsCanonical(n: nat)
    ensures CanonicalDigest(Hash(n))
  {
  }

  lemma ExampleIsCanonical()
    ensures var state := StateOf(Verified()); FitsSqlite(state.versions) && CanonicalDigests(state.digests)
  {
    hide Hash, CanonicalDigest;
    HashIsCanonical(1);
    HashIsCanonical(2);
    HashIsCanonical(3);
    HashIsCanonical(4);
  }

  lemma AcceptedTwice(a: Attempt)
    requires a.id == "source" && a.discoveryUrl == "url" && a.rootFingerprint == "fingerprint"
    requires a.faults == Faults(false, false, false, false, false)
    requires FitsSqlite(a.candidate.versions) && CanonicalDigests(a.candidate.digests)
    ensures var events := [Try(a), Try(a)];
            AcceptedAt(ROWS, events, 0) && AcceptedAt(ROWS, events, 1) && Keeps(events[0..1], a.id)
  {
    hide FitsSqlite, CanonicalDigests;
    var events := [Try(a), Try(a)];
    assert events[..0] == [] && events[..1] == [Try(a)] && events[0..1] == [Try(a)];
    RunOne(ROWS, Try(a));
    assert Accepted(ROWS, a);
    assert Accepted(Step(ROWS, Try(a)), a);
  }

  /** The run is verified and recorded twice: all that is assumed about two recorded verifications of one source. */
  ghost predicate RecordedTwice(p: Primitives, run: TrustHistory.Verification, rows: Rows, a: Attempt)
  {
    var events := [Try(a), Try(a)];
    TrustHistory.Verified(p, run) && LowercaseDigests(p) && NoCollisions(p, run.src, run.src) &&
    AcceptedAt(rows, events, 0) && AcceptedAt(rows, events, 1) && Keeps(events[0..1], a.id) &&
    a.candidate == StateOf(TrustHistory.Outcome(p, run))
  }

  lemma RecordVerified(p: Primitives, run: TrustHistory.Verification, v: VerifiedTuf, a: Attempt)
    requires VerifyResult(p, run.src, run.trustedRoot, run.now) == Ok(v) && a.candidate == StateOf(v)
    requires LowercaseDigests(p) && NoCollisions(p, run.src, run.src)
    requires a.id == "source" && a.discoveryUrl == "url" && a.rootFingerprint == "fingerprint"
    requires a.faults == Faults(false, false, false, false, false)
    requires FitsSqlite(a.candidate.versions) && CanonicalDigests(a.candidate.digests)
    ensures RecordedTwice(p, run, ROWS, a)
  {
    hide VerifyResult, LowercaseDigests, NoCollisions, FitsSqlite, CanonicalDigests, AcceptedAt, Keeps, StateOf;
    AcceptedTwice(a);
  }

  lemma ExampleIsRecorded()
    ensures exists p, run, rows, a :: RecordedTwice(p, run, rows, a)
  {
    hide World, Calendar.NowRfc3339, VerifyResult, LowercaseDigests, NoCollisions, Verified, FitsSqlite,
      CanonicalDigests,
      RecordedTwice, StateOf;
    var run := TrustHistory.Verification(FILES, ROOT, Calendar.NowRfc3339(0));
    var p := World(Calendar.NowRfc3339(1));
    var a := Attempt("source", "url", "fingerprint", StateOf(Verified()), Faults(false, false, false, false, false));
    ExampleIsAccepted();
    ExampleIsCanonical();
    RecordVerified(p, run, Verified(), a);
  }
}
