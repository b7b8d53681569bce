/**
 * What the verifier reads in a document, said on the document: which members it looks at, what they have to
 * be, and whose signatures count. Nothing here goes through the verifier's own access functions.
 */
module TufMeaning {
  import opened Wrappers
  import opened TufErrors
  import opened CanonicalJson
  import opened Sorting
  import opened TufTrust
  import opened TufTheorems
  import Calendar
  import Text

  // ---------- members ----------

  /** `v` is an object with the member `key: w`. */
  predicate Has(v: Value, key: string, w: Value)
  {
    v.Obj? && Field(key, w) in v.fields
  }

  /** The parser delivers objects without repeated keys. */
  ghost predicate ParsesWell(p: Primitives)
  {
    forall bytes :: p.parse(bytes).Some? ==> WellFormed(p.parse(bytes).value.signed)
  }

  lemma GetMeans(v: Value, key: string)
    requires WellFormed(v)
    ensures forall w :: Get(v, key) == Some(w) <==> Has(v, key, w)
    ensures forall w :: Has(v, key, w) ==> WellFormed(w)
  {
    forall w | Has(v, key, w) ensures Get(v, key) == Some(w) { FieldIsMember(v, Field(key, w)); }
  }

  /** A member of a member. */
  ghost predicate HasAt(v: Value, a: string, b: string, w: Value)
  {
    exists inner :: Has(v, a, inner) && Has(inner, b, w)
  }

  lemma PointerMeans(v: Value, a: string, b: string)
    requires WellFormed(v)
    ensures forall w :: Pointer(v, a, b) == Some(w) <==> HasAt(v, a, b, w)
    ensures forall w :: HasAt(v, a, b, w) ==> WellFormed(w)
  {
    hide Get;
    GetMeans(v, a);
    if Get(v, a).Some? {
      assert Has(v, a, Get(v, a).value);
      GetMeans(Get(v, a).value, b);
    }
  }

  lemma StrAtMeans(v: Value, key: string, s: string)
    requires WellFormed(v)
    ensures StrAt(v, key) == Ok(s) <==> Has(v, key, Str(s))
  {
    hide Get;
    GetMeans(v, key);
  }

  lemma U64AtMeans(v: Value, key: string, n: nat)
    requires WellFormed(v)
    ensures U64At(v, key) == Ok(n) <==> Has(v, key, Int(n)) && n <= 0xFFFF_FFFF_FFFF_FFFF
  {
    hide Get;
    GetMeans(v, key);
  }

  /** A version is a positive 64-bit number. */
  lemma VersionMeans(v: Value, n: nat)
    requires WellFormed(v)
    ensures VersionOf(v) == Ok(n) <==> Has(v, "version", Int(n)) && 1 <= n <= 0xFFFF_FFFF_FFFF_FFFF
  {
    hide U64At;
    U64AtMeans(v, "version", n);
    if VersionOf(v).Ok? { U64AtMeans(v, "version", VersionOf(v).value); }
  }

  lemma TypeMeans(v: Value, role: string)
    requires WellFormed(v)
    ensures HasType(v, role) <==>
            Has(v, "_type", Str(role)) && Has(v, "spec_version", Str("1.0.0")) && FloatFree(v)
  {
    hide StrAt;
    StrAtMeans(v, "_type", role);
    StrAtMeans(v, "spec_version", "1.0.0");
  }

  lemma ConsistentMeans(v: Value)
    requires WellFormed(v)
    ensures ConsistentSnapshot(v) <==> Has(v, "consistent_snapshot", Bool(true))
  {
    GetMeans(v, "consistent_snapshot");
  }

  // ---------- roles and keys ----------

  /** The root lists exactly `keyids` for the role, with threshold `n`. */
  ghost predicate RoleSays(root: Value, role: string, keyids: seq<string>, n: nat)
  {
    exists r :: HasAt(root, "roles", role, r) && Has(r, "keyids", Arr(Texts(keyids))) && Has(r, "threshold", Int(n))
  }

  function Texts(s: seq<string>): (items: seq<Value>)
    ensures |items| == |s| && forall i :: 0 <= i < |s| ==> items[i] == Str(s[i])
  {
    seq(|s|, i requires 0 <= i < |s| => Str(s[i]))
  }

  lemma {:induction false} StringsMean(items: seq<Value>)
    ensures Strings(items).Ok? <==> forall x :: x in items ==> x.Str?
    ensures Strings(items).Ok? ==> items == Texts(Strings(items).value)
  {
    if items != [] {
      StringsMean(items[1..]);
      assert items == [items[0]] + items[1..];
    }
  }

  lemma TextsInjective(a: seq<string>, b: seq<string>)
    requires Texts(a) == Texts(b)
    ensures a == b
  {
    forall i | 0 <= i < |a| ensures a[i] == b[i] { assert Texts(a)[i] == Texts(b)[i]; }
  }

  /** A role is read with exactly the listed keys and exactly the stated 32-bit threshold. */
  lemma RoleMeans(root: Value, role: string, keyids: seq<string>, n: nat)
    requires WellFormed(root)
    ensures RoleOf(root, role) == Ok(RoleDef(keyids, n)) <==> RoleSays(root, role, keyids, n) && n < 0x1_0000_0000
  {
    hide Get, Pointer, Strings, HasAt, Has;
    PointerMeans(root, "roles", role);
    var r := Pointer(root, "roles", role);
    if r.Some? {
      assert HasAt(root, "roles", role, r.value);
      GetMeans(r.value, "keyids");
      GetMeans(r.value, "threshold");
      var ks := Get(r.value, "keyids");
      if ks.Some? && ks.value.Arr? {
        StringsMean(ks.value.items);
        if ks.value.items == Texts(keyids) && Strings(Texts(keyids)).Ok? {
          TextsInjective(keyids, Strings(Texts(keyids)).value);
        }
        assert forall x :: x in Texts(keyids) ==> x.Str?;
      }
    }
  }

  /** A key entry the client can use. */
  ghost predicate ProperKey(k: Value)
  {
    Has(k, "keytype", Str("ed25519")) && exists public :: HasAt(k, "keyval", "public", Str(public))
  }

  /** The root gives `public` as the key `keyid`. */
  ghost predicate KeySays(root: Value, keyid: string, public: string)
  {
    exists k :: HasAt(root, "keys", keyid, k) && Has(k, "keytype", Str("ed25519")) &&
                HasAt(k, "keyval", "public", Str(public))
  }

  ghost predicate KeyEntry(fields: seq<Field>, keyid: string, public: string)
  {
    exists f: Field :: f in fields && f.key == keyid && HasAt(f.value, "keyval", "public", Str(public))
  }

  /** The public keys are those under the key entries' own names. */
  ghost predicate TableSays(fields: seq<Field>, table: map<string, string>)
  {
    forall keyid, public :: keyid in table && table[keyid] == public <==>
                              KeyEntry(fields, keyid, public)
  }

  lemma OneKeyMeans(k: Value)
    requires WellFormed(k)
    ensures ProperKey(k) <==> Get(k, "keytype") == Some(Str("ed25519")) && Pointer(k, "keyval", "public").Some? &&
                              Pointer(k, "keyval", "public").value.Str?
    ensures forall public :: HasAt(k, "keyval", "public", Str(public)) <==>
                               Pointer(k, "keyval", "public") == Some(Str(public))
  {
    hide Get, Pointer, HasAt, Has;
    GetMeans(k, "keytype");
    PointerMeans(k, "keyval", "public");
  }

  /** The table is read exactly when every entry is a proper key, and has the keys of all entries. */
  lemma {:induction false} KeyTableReads(fields: seq<Field>)
    requires forall f :: f in fields ==> WellFormed(f.value)
    ensures KeyTable(fields).Ok? <==> forall f :: f in fields ==> ProperKey(f.value)
    ensures KeyTable(fields).Ok? ==> KeyTable(fields).value.Keys == set f | f in fields :: f.key
  {
    if fields != [] {
      hide KeyTable, ProperKey, WellFormed;
      KeysStep(fields);
      KeyTableReads(fields[1..]);
      KeyTableStep(fields);
    }
  }

  lemma KeysStep(fields: seq<Field>)
    requires fields != []
    ensures (set f | f in fields :: f.key) == (set f | f in fields[1..] :: f.key) + {fields[0].key}
    ensures forall f :: f in fields <==> f == fields[0] || f in fields[1..]
  {
    assert fields == [fields[0]] + fields[1..];
  }

  lemma KeyTableStep(fields: seq<Field>)
    requires fields != [] && WellFormed(fields[0].value)
    ensures KeyTable(fields).Ok? <==> ProperKey(fields[0].value) && KeyTable(fields[1..]).Ok?
    ensures KeyTable(fields).Ok? ==>
              KeyTable(fields).value.Keys == KeyTable(fields[1..]).value.Keys + {fields[0].key}
  {
    hide Get, Pointer, ProperKey;
    OneKeyMeans(fields[0].value);
  }

  /** Each keyid stands for its own public key. */
  lemma {:induction false} KeyTableHas(fields: seq<Field>, i: nat)
    requires Distinct(Keys(fields)) && KeyTable(fields).Ok? && i < |fields|
    ensures fields[i].key in KeyTable(fields).value
    ensures Pointer(fields[i].value, "keyval", "public") == Some(Str(KeyTable(fields).value[fields[i].key]))
  {
    hide Get, Pointer;
    if i > 0 {
      assert Keys(fields)[0] != Keys(fields)[i];
      assert Keys(fields[1..]) == Keys(fields)[1..];
      KeyTableHas(fields[1..], i - 1);
    }
  }

  lemma KeyTableMeans(fields: seq<Field>)
    requires Distinct(Keys(fields)) && forall f :: f in fields ==> WellFormed(f.value)
    ensures KeyTable(fields).Ok? <==> forall f :: f in fields ==> ProperKey(f.value)
    ensures KeyTable(fields).Ok? ==> TableSays(fields, KeyTable(fields).value)
  {
    KeyTableReads(fields);
    hide KeyTable, HasAt, ProperKey, Pointer, Get, WellFormed;
    if KeyTable(fields).Ok? {
      var table := KeyTable(fields).value;
      forall keyid, public
        ensures keyid in table && table[keyid] == public <==> KeyEntry(fields, keyid, public)
      {
        forall i: nat | i < |fields| && fields[i].key == keyid
          ensures HasAt(fields[i].value, "keyval", "public", Str(public)) <==> table[keyid] == public
        {
          assert fields[i] in fields;
          KeyTableHas(fields, i);
          OneKeyMeans(fields[i].value);
        }
      }
    }
  }

  /** The root has key entries, all of them proper. */
  ghost predicate ProperKeys(root: Value)
  {
    exists fields: seq<Field> :: Has(root, "keys", Obj(fields)) && forall f :: f in fields ==> ProperKey(f.value)
  }

  /** Keys are read exactly when all are proper, and each keyid stands for its own public key. */
  lemma KeysMean(root: Value)
    requires WellFormed(root)
    ensures RootKeys(root).Ok? <==> ProperKeys(root)
    ensures RootKeys(root).Ok? ==>
              forall keyid, public :: keyid in RootKeys(root).value && RootKeys(root).value[keyid] == public <==>
                                        KeySays(root, keyid, public)
  {
    GetMeans(root, "keys");
    hide Get, Has, KeyTable, ProperKey, WellFormed, KeySays, TableSays, HasAt;
    match Get(root, "keys") {
      case Some(Obj(fields)) =>
        assert Has(root, "keys", Obj(fields));
        ObjectParts(fields);
        KeyTableMeans(fields);
        if KeyTable(fields).Ok? { SameKeys(root, fields, KeyTable(fields).value); }
      case _ =>
    }
  }

  lemma ObjectParts(fields: seq<Field>)
    ensures WellFormed(Obj(fields)) ==> Distinct(Keys(fields)) && forall f :: f in fields ==> WellFormed(f.value)
  {
  }

  lemma SameKeys(root: Value, fields: seq<Field>, table: map<string, string>)
    requires WellFormed(root) && Has(root, "keys", Obj(fields)) && TableSays(fields, table)
    requires forall f :: f in fields ==> ProperKey(f.value)
    ensures forall keyid, public :: keyid in table && table[keyid] == public <==> KeySays(root, keyid, public)
  {
    hide HasAt, KeySays, Has, ProperKey;
    forall keyid, public
      ensures keyid in table && table[keyid] == public <==> KeySays(root, keyid, public)
    {
      SameKey(root, fields, keyid, public);
    }
  }

  lemma SameKey(root: Value, fields: seq<Field>, keyid: string, public: string)
    requires WellFormed(root) && Has(root, "keys", Obj(fields)) && forall f :: f in fields ==> ProperKey(f.value)
    ensures KeySays(root, keyid, public) <==>
            KeyEntry(fields, keyid, public)
  {
    GetMeans(root, "keys");
    if f: Field :| f in fields && f.key == keyid && HasAt(f.value, "keyval", "public", Str(public)) {
      assert Has(Obj(fields), keyid, f.value);
      assert HasAt(root, "keys", keyid, f.value);
    }
    if k :| HasAt(root, "keys", keyid, k) && HasAt(k, "keyval", "public", Str(public)) {
      var inner :| Has(root, "keys", inner) && Has(inner, keyid, k);
      assert inner == Obj(fields) && Field(keyid, k) in fields;
    }
  }

  // ---------- signatures ----------

  /** The listed keys for which the document has a signature that the root's key of that name verifies. */
  ghost function SignersOf(p: Primitives, doc: TufDoc, root: Value, keyids: seq<string>): set<string>
  {
    set k | k in keyids && SignedWith(p, doc, root, k)
  }

  ghost predicate SignedWith(p: Primitives, doc: TufDoc, root: Value, keyid: string)
  {
    exists public, sig :: KeySays(root, keyid, public) && Signature(keyid, sig) in doc.signatures &&
                          p.verifySignature(public, CanonicalText(doc.signed), sig)
  }

  /** As many of the listed keys as the root demands for the role have signed the document. */
  ghost predicate RoleSigned(p: Primitives, doc: TufDoc, root: Value, role: string)
  {
    exists keyids, n: nat :: RoleSays(root, role, keyids, n) && |SignersOf(p, doc, root, keyids)| >= n
  }

  lemma SignersMean(p: Primitives, doc: TufDoc, root: Value, role: RoleDef)
    requires WellFormed(root) && RootKeys(root).Ok?
    ensures ValidSigners(p, doc.signatures, RootKeys(root).value, role, CanonicalText(doc.signed)) ==
            SignersOf(p, doc, root, role.keyids)
  {
    hide RootKeys, KeySays, CanonicalText, WellFormed;
    KeysMean(root);
    var keys, message := RootKeys(root).value, CanonicalText(doc.signed);
    var valid := ValidSigners(p, doc.signatures, keys, role, message);
    forall k | k in valid ensures SignedWith(p, doc, root, k) {
      var s :| s in doc.signatures && s.keyid == k && p.verifySignature(keys[k], message, s.sig);
      assert KeySays(root, k, keys[k]) && Signature(k, s.sig) in doc.signatures;
    }
    forall k | k in role.keyids && SignedWith(p, doc, root, k) ensures k in valid {
      var public, sig :| KeySays(root, k, public) && Signature(k, sig) in doc.signatures &&
                         p.verifySignature(public, message, sig);
      assert keys[k] == public;
    }
  }

  /** A root lists a role at most once. */
  lemma RoleSaysOnce(root: Value, role: string, keyids: seq<string>, n: nat, others: seq<string>, m: nat)
    requires WellFormed(root) && RoleSays(root, role, keyids, n) && RoleSays(root, role, others, m)
    ensures keyids == others && n == m
  {
    hide Get, Pointer, HasAt, Has;
    PointerMeans(root, "roles", role);
    var r :| HasAt(root, "roles", role, r) && Has(r, "keyids", Arr(Texts(keyids))) && Has(r, "threshold", Int(n));
    GetMeans(r, "keyids");
    GetMeans(r, "threshold");
    TextsInjective(keyids, others);
  }

  /** The verifier's test for one role is the role's threshold over the role's keys. */
  lemma ThresholdMeans(p: Primitives, doc: TufDoc, root: Value, role: string)
    requires WellFormed(root) && RootKeys(root).Ok? && RoleOf(root, role).Ok?
    ensures var def := RoleOf(root, role).value;
            RoleSigned(p, doc, root, role) <==>
            |ValidSigners(p, doc.signatures, RootKeys(root).value, def, CanonicalText(doc.signed))| >= def.threshold
  {
    hide RoleOf, RootKeys, RoleSays, CanonicalText, WellFormed, SignersOf, ValidSigners;
    var def := RoleOf(root, role).value;
    RoleMeans(root, role, def.keyids, def.threshold);
    SignersMean(p, doc, root, def);
    forall keyids, n | RoleSays(root, role, keyids, n) ensures keyids == def.keyids && n == def.threshold {
      RoleSaysOnce(root, role, keyids, n, def.keyids, def.threshold);
    }
  }

  // ---------- root documents ----------

  /** The role has distinct known keys and a threshold that they can reach. */
  ghost predicate SoundRoleSays(root: Value, role: string)
  {
    exists keyids, n: nat ::
      RoleSays(root, role, keyids, n) && 1 <= n <= |keyids| && n < 0x1_0000_0000 && Distinct(keyids) &&
      forall k :: k in keyids ==> KnownKey(root, k)
  }

  ghost predicate KnownKey(root: Value, keyid: string)
  {
    exists public :: KeySays(root, keyid, public)
  }

  ghost predicate RootDocument(v: Value)
  {
    && Has(v, "_type", Str("root")) && Has(v, "spec_version", Str("1.0.0")) && FloatFree(v)
    && ProperKeys(v) && Has(v, "consistent_snapshot", Bool(true))
    && SoundRoleSays(v, "root") && SoundRoleSays(v, "timestamp")
    && SoundRoleSays(v, "snapshot") && SoundRoleSays(v, "targets")
    && HasVersion(v)
  }

  ghost predicate HasVersion(v: Value)
  {
    exists n: nat :: Version(v, n)
  }

  predicate Version(v: Value, n: nat)
  {
    Has(v, "version", Int(n)) && 1 <= n <= 0xFFFF_FFFF_FFFF_FFFF
  }

  lemma SoundRoleMeans(root: Value, role: string)
    requires WellFormed(root) && RootKeys(root).Ok?
    ensures SoundRole(root, RootKeys(root).value, role) <==> SoundRoleSays(root, role)
  {
    hide RoleOf, RootKeys, RoleSays, WellFormed, KeySays;
    KeysMean(root);
    var keys := RootKeys(root).value;
    forall k ensures k in keys <==> KnownKey(root, k) {
      if k in keys { assert KeySays(root, k, keys[k]); }
    }
    if RoleOf(root, role).Ok? {
      var def := RoleOf(root, role).value;
      RoleMeans(root, role, def.keyids, def.threshold);
    }
    if SoundRoleSays(root, role) {
      var keyids, n: nat :|
        RoleSays(root, role, keyids, n) && 1 <= n <= |keyids| && n < 0x1_0000_0000 && Distinct(keyids) &&
        forall k :: k in keyids ==> KnownKey(root, k);
      RoleMeans(root, role, keyids, n);
    }
  }

  lemma VersionsMean(v: Value)
    requires WellFormed(v)
    ensures VersionOf(v).Ok? <==> HasVersion(v)
    ensures VersionOf(v).Ok? ==> Version(v, VersionOf(v).value)
    ensures forall n: nat :: Version(v, n) ==> VersionOf(v) == Ok(n)
  {
    hide VersionOf, Has;
    if VersionOf(v).Ok? {
      VersionMeans(v, VersionOf(v).value);
      assert Version(v, VersionOf(v).value);
    }
    forall n: nat | Version(v, n) ensures VersionOf(v) == Ok(n) { VersionMeans(v, n); }
  }

  /** The verifier takes a root document exactly when it is sound as written. */
  lemma RootMeans(v: Value)
    requires WellFormed(v)
    ensures HasType(v, "root") && SoundRoot(v) <==> RootDocument(v)
    ensures RootDocument(v) ==> HasVersion(v)
  {
    hide WellFormed, RootKeys, SoundRole, SoundRoleSays, VersionOf, ConsistentSnapshot, HasVersion, ProperKeys, HasType,
      Has;
    TypeMeans(v, "root");
    KeysMean(v);
    ConsistentMeans(v);
    VersionsMean(v);
    if RootKeys(v).Ok? {
      SoundRoleMeans(v, "root");
      SoundRoleMeans(v, "timestamp");
      SoundRoleMeans(v, "snapshot");
      SoundRoleMeans(v, "targets");
      var keys := RootKeys(v).value;
      assert SoundRoles(v, keys) <==>
          SoundRole(v, keys, "root") && SoundRole(v, keys, "timestamp") &&
          SoundRole(v, keys, "snapshot") && SoundRole(v, keys, "targets");
    }
  }

  // ---------- files ----------

  /** A file of at most eight mebibytes that parses. */
  predicate Parses(p: Primitives, bytes: Bytes)
  {
    |bytes| <= 8_388_608 && p.parse(bytes).Some?
  }

  /** What the document in a file that parses says. */
  function Signed(p: Primitives, bytes: Bytes): Value
    requires p.parse(bytes).Some?
  {
    p.parse(bytes).value.signed
  }

  ghost predicate RootFile(p: Primitives, bytes: Bytes, version: nat)
  {
    Parses(p, bytes) && RootDocument(Signed(p, bytes)) && Version(Signed(p, bytes), version)
  }

  /** The document in `bytes` is signed as the root in `root` demands for the role. */
  ghost predicate FileSigned(p: Primitives, bytes: Bytes, root: Bytes, role: string)
  {
    p.parse(bytes).Some? && p.parse(root).Some? && RoleSigned(p, p.parse(bytes).value, Signed(p, root), role)
  }

  lemma RootFileMeans(p: Primitives, bytes: Bytes, version: nat)
    requires ParsesWell(p)
    ensures RootFile(p, bytes, version) <==> HoldsRoot(p, bytes) && RootOf(p, bytes).version == version
  {
    hide RootDocument, HasType, SoundRoot, VersionOf, Version, WellFormed;
    if p.parse(bytes).Some? {
      RootMeans(Signed(p, bytes));
      VersionsMean(Signed(p, bytes));
    }
  }

  lemma SignedMeans(p: Primitives, bytes: Bytes, root: Bytes)
    requires ParsesWell(p) && HoldsRoot(p, root) && Readable(p, bytes)
    ensures SignedBy(p, bytes, RootOf(p, root)) <==> FileSigned(p, bytes, root, "root")
  {
    hide RoleOf, RootKeys, RoleSigned, ValidSigners, CanonicalText, WellFormed, HasType;
    assert SoundRole(Signed(p, root), RootKeys(Signed(p, root)).value, "root");
    ThresholdMeans(p, p.parse(bytes).value, Signed(p, root), "root");
  }

  // ---------- the chain ----------

  /** The file of root number `i`: the anchor for its own number, `i.root.json` otherwise. */
  function RootFileAt(src: Source, anchor: Bytes, a: nat, i: nat): Bytes
  {
    var name := Text.Decimal(i) + ".root.json";
    if i == a then anchor else if name in src then src[name] else []
  }

  /**
   * Root files `a` to `n`, numbered one by one, each signed as its predecessor and as itself demands, and no
   * file for root `n + 1`.
   */
  ghost predicate RootChain(p: Primitives, src: Source, anchor: Bytes, a: nat, n: nat)
  {
    && RootFile(p, anchor, a) && FileSigned(p, anchor, anchor, "root")
    && a <= n < 0xFFFF_FFFF_FFFF_FFFF && Text.Decimal(n + 1) + ".root.json" !in src
    && forall i :: a < i <= n ==> NextRootFile(p, src, anchor, a, i)
  }

  ghost predicate NextRootFile(p: Primitives, src: Source, anchor: Bytes, a: nat, i: nat)
    requires i > 0
  {
    var previous, next := RootFileAt(src, anchor, a, i - 1), RootFileAt(src, anchor, a, i);
    Text.Decimal(i) + ".root.json" in src && RootFile(p, next, i) && FileSigned(p, next, next, "root") &&
    (exists v: nat :: RootFile(p, previous, v)) && FileSigned(p, next, previous, "root")
  }

  lemma LinkMeans(p: Primitives, src: Source, anchor: Bytes, i: nat)
    requires ParsesWell(p) && HoldsRoot(p, anchor) && i > 0
    ensures Link(p, src, anchor, i) <==> NextRootFile(p, src, anchor, RootOf(p, anchor).version, i)
  {
    hide HoldsRoot, RootOf, RootFile, SignedBy, FileSigned, ParsesWell;
    var a := RootOf(p, anchor).version;
    var previous, next := RootFileAt(src, anchor, a, i - 1), RootFileAt(src, anchor, a, i);
    RootFileMeans(p, next, i);
    forall v: nat ensures RootFile(p, previous, v) <==> HoldsRoot(p, previous) && RootOf(p, previous).version == v {
      RootFileMeans(p, previous, v);
    }
    assert RootBytes(p, src, anchor, i) == next && RootBytes(p, src, anchor, i - 1) == previous;
    if HoldsRoot(p, previous) { assert RootFile(p, previous, RootOf(p, previous).version); }
    if HoldsRoot(p, next) {
      Reads(p, next);
      SignedMeans(p, next, next);
      if HoldsRoot(p, previous) { SignedMeans(p, next, previous); }
    }
  }

  lemma Reads(p: Primitives, bytes: Bytes)
    requires HoldsRoot(p, bytes)
    ensures Readable(p, bytes)
  {
  }

  lemma ChainMeans(p: Primitives, src: Source, anchor: Bytes, n: nat)
    requires ParsesWell(p)
    ensures SelfSigned(p, anchor) && ChainEndsAt(p, src, anchor, n) <==>
            exists a: nat :: RootChain(p, src, anchor, a, n)
    ensures forall a: nat :: RootChain(p, src, anchor, a, n) ==> SelfSigned(p, anchor) && RootOf(p, anchor).version == a
  {
    hide HoldsRoot, RootOf, RootFile, SignedBy, FileSigned, ParsesWell, Link, NextRootFile;
    forall a: nat ensures RootFile(p, anchor, a) <==> HoldsRoot(p, anchor) && RootOf(p, anchor).version == a {
      RootFileMeans(p, anchor, a);
    }
    if HoldsRoot(p, anchor) {
      Reads(p, anchor);
      SignedMeans(p, anchor, anchor);
      var a := RootOf(p, anchor).version;
      forall i: nat | a < i <= n ensures Link(p, src, anchor, i) <==> NextRootFile(p, src, anchor, a, i) {
        LinkMeans(p, src, anchor, i);
      }
      assert RootFile(p, anchor, a);
      assert RootName(n + 1) == Text.Decimal(n + 1) + ".root.json";
      assert SelfSigned(p, anchor) && ChainEndsAt(p, src, anchor, n) <==> RootChain(p, src, anchor, a, n);
    }
  }

  // ---------- digests and entries ----------

  /** The same letter, but for its case in ASCII. */
  predicate SameLetter(c: char, d: char)
  {
    c == d || ('A' <= c <= 'Z' && d as int == c as int + 32) || ('A' <= d <= 'Z' && c as int == d as int + 32)
  }

  predicate SameButCase(a: string, b: string)
  {
    |a| == |b| && forall i :: 0 <= i < |a| ==> SameLetter(a[i], b[i])
  }

  lemma EqMeans(a: string, b: string)
    ensures EqIgnoreAsciiCase(a, b) <==> SameButCase(a, b)
  {
    if |a| == |b| {
      forall i | 0 <= i < |a| ensures Lower(a)[i] == Lower(b)[i] <==> SameLetter(a[i], b[i]) {
      }
      if SameButCase(a, b) { assert Lower(a) == Lower(b); }
    }
  }

  /** Lowering keeps the text but for case and leaves no capital. */
  lemma LowerMeans(s: string)
    ensures SameButCase(Lower(s), s) && forall c :: c in Lower(s) ==> !('A' <= c <= 'Z')
  {
  }

  /** The entry states the length and the digest of exactly these bytes. */
  ghost predicate EntryOf(p: Primitives, entry: Value, bytes: Bytes)
  {
    Has(entry, "length", Int(|bytes|)) &&
    exists sha :: HasAt(entry, "hashes", "sha256", Str(sha)) && SameButCase(p.sha256Hex(bytes), sha)
  }

  lemma EntryMeans(p: Primitives, entry: Value, bytes: Bytes)
    requires WellFormed(entry) && |bytes| <= 0xFFFF_FFFF_FFFF_FFFF
    ensures Pins(p, entry, bytes) <==> EntryOf(p, entry, bytes)
  {
    hide U64At, Pointer, HasAt, Has, EqIgnoreAsciiCase, SameButCase, WellFormed;
    U64AtMeans(entry, "length", |bytes|);
    PointerMeans(entry, "hashes", "sha256");
    match Pointer(entry, "hashes", "sha256") {
      case Some(Str(sha)) =>
        assert HasAt(entry, "hashes", "sha256", Str(sha));
        EqMeans(p.sha256Hex(bytes), sha);
      case _ =>
    }
  }

  // ---------- the documents below the root ----------

  /** The document expires at an instant after `now`, both in the timestamp profile. */
  ghost predicate StillValid(v: Value, now: string)
  {
    exists expires ::
      Has(v, "expires", Str(expires)) &&
      var e, t := Calendar.ParseCanonicalUtcSeconds(expires), Calendar.ParseCanonicalUtcSeconds(now);
      e.Ok? && t.Ok? && t.value < e.value
  }

  lemma ValidMeans(v: Value, now: string)
    requires WellFormed(v)
    ensures NotExpired(v, now) <==> StillValid(v, now)
  {
    hide StrAt, Has, Calendar.ParseCanonicalUtcSeconds, WellFormed;
    forall s ensures StrAt(v, "expires") == Ok(s) <==> Has(v, "expires", Str(s)) { StrAtMeans(v, "expires", s); }
  }

  /** A file with a document of the role, signed as the root demands, and not expired. */
  ghost predicate DocumentFile(p: Primitives, bytes: Bytes, root: Bytes, role: string, now: string)
  {
    Parses(p, bytes) && FileSigned(p, bytes, root, role) &&
    var v := Signed(p, bytes);
    Has(v, "_type", Str(role)) && Has(v, "spec_version", Str("1.0.0")) && FloatFree(v) && StillValid(v, now)
  }

  lemma DocumentMeans(p: Primitives, bytes: Bytes, root: Bytes, role: string, now: string)
    requires ParsesWell(p) && HoldsRoot(p, root) && role in TOP_ROLES
    ensures GoodDocument(p, bytes, RootOf(p, root), role, now) <==> DocumentFile(p, bytes, root, role, now)
  {
    hide RoleOf, RootKeys, RoleSigned, ValidSigners, CanonicalText, WellFormed, HasType, NotExpired, StillValid, Has;
    assert SoundRole(Signed(p, root), RootKeys(Signed(p, root)).value, role);
    if Parses(p, bytes) {
      ThresholdMeans(p, p.parse(bytes).value, Signed(p, root), role);
      TypeMeans(Signed(p, bytes), role);
      ValidMeans(Signed(p, bytes), now);
    }
  }

  /** The parent names a version of the role's file, and `bytes` is that file: pinned, good, of that version. */
  ghost predicate ChildFile(p: Primitives, src: Source, parent: Value, role: string, root: Bytes, now: string,
                            bytes: Bytes)
  {
    exists entry, n: nat ::
      && HasAt(parent, "meta", role + ".json", entry) && Version(entry, n)
      && Text.Decimal(n) + "." + role + ".json" in src && bytes == src[Text.Decimal(n) + "." + role + ".json"]
      && EntryOf(p, entry, bytes) && DocumentFile(p, bytes, root, role, now) && Version(Signed(p, bytes), n)
  }

  lemma ChildMeans(p: Primitives, src: Source, parent: Value, role: string, root: Bytes, now: string)
    requires ParsesWell(p) && HoldsRoot(p, root) && role in TOP_ROLES && WellFormed(parent)
    ensures GoodChild(p, src, parent, role, RootOf(p, root), now) <==>
            exists bytes :: ChildFile(p, src, parent, role, root, now, bytes)
    ensures GoodChild(p, src, parent, role, RootOf(p, root), now) ==>
              forall bytes :: ChildFile(p, src, parent, role, root, now, bytes) <==>
                              bytes == ChildBytes(p, src, parent, role, RootOf(p, root), now)
  {
    hide Pointer, HasAt, Has, WellFormed, GoodDocument, DocumentFile, Pins, EntryOf, VersionOf, Version, HoldsRoot,
      RootOf, ParsesWell;
    var name := role + ".json";
    PointerMeans(parent, "meta", name);
    var found := Pointer(parent, "meta", name);
    forall entry | HasAt(parent, "meta", name, entry)
      ensures found == Some(entry)
      ensures forall n: nat :: Version(entry, n) <==> VersionOf(entry) == Ok(n)
    {
      EntryVersions(entry);
    }
    if found.Some? {
      var entry := found.value;
      assert HasAt(parent, "meta", name, entry);
      if VersionOf(entry).Ok? && PinnedName(VersionOf(entry).value, role) in src {
        var n := VersionOf(entry).value;
        var bytes := src[PinnedName(n, role)];
        assert Version(entry, n);
        DocumentMeans(p, bytes, root, role, now);
        if DocumentFile(p, bytes, root, role, now) {
          DocumentParts(p, bytes, root, role, now);
          EntryMeans(p, entry, bytes);
          EntryVersions(Signed(p, bytes));
          assert ChildFile(p, src, parent, role, root, now, bytes) <==>
                 GoodChild(p, src, parent, role, RootOf(p, root), now);
        }
      }
    }
  }

  lemma EntryVersions(v: Value)
    requires WellFormed(v)
    ensures forall n: nat :: Version(v, n) <==> VersionOf(v) == Ok(n)
  {
    VersionsMean(v);
  }

  lemma DocumentParts(p: Primitives, bytes: Bytes, root: Bytes, role: string, now: string)
    requires ParsesWell(p) && DocumentFile(p, bytes, root, role, now)
    ensures |bytes| <= 0xFFFF_FFFF_FFFF_FFFF && p.parse(bytes).Some? && WellFormed(Signed(p, bytes))
  {
  }

  // ---------- targets ----------

  /** What the table must hold for an entry: the stated length, the digest in lower case, the custom data. */
  ghost predicate InfoOf(info: TargetInfo, entry: Value)
  {
    && Has(entry, "length", Int(info.length)) && info.length <= 0xFFFF_FFFF_FFFF_FFFF
    && (exists sha :: HasAt(entry, "hashes", "sha256", Str(sha)) && SameButCase(info.sha256, sha))
    && (forall c :: c in info.sha256 ==> !('A' <= c <= 'Z'))
    && (forall w :: info.custom == Some(w) <==> Has(entry, "custom", w))
  }

  ghost predicate ProperTarget(entry: Value)
  {
    exists info :: InfoOf(info, entry)
  }

  lemma TargetMeans(entry: Value)
    requires WellFormed(entry)
    ensures GoodTarget(entry) <==> ProperTarget(entry)
    ensures forall info: TargetInfo ::
              (U64At(entry, "length") == Ok(info.length) && info.custom == Get(entry, "custom") &&
               match Pointer(entry, "hashes", "sha256")
               case Some(Str(sha)) => info.sha256 == Lower(sha)
               case _ => false) ==> InfoOf(info, entry)
  {
    hide U64At, Get, Pointer, Has, HasAt, WellFormed, Lower, SameButCase;
    PointerMeans(entry, "hashes", "sha256");
    GetMeans(entry, "custom");
    forall n: nat
      ensures U64At(entry, "length") == Ok(n) <==> Has(entry, "length", Int(n)) && n <= 0xFFFF_FFFF_FFFF_FFFF
    {
      U64AtMeans(entry, "length", n);
    }
    match Pointer(entry, "hashes", "sha256") {
      case Some(Str(sha)) =>
        LowerMeans(sha);
        assert HasAt(entry, "hashes", "sha256", Str(sha));
        if U64At(entry, "length").Ok? {
          assert InfoOf(TargetInfo(U64At(entry, "length").value, Lower(sha), Get(entry, "custom")), entry);
        }
      case _ =>
    }
  }

  /** A targets document: every entry is proper. */
  ghost predicate TargetsDocument(v: Value)
  {
    exists fields: seq<Field> :: Has(v, "targets", Obj(fields)) && forall f :: f in fields ==> ProperTarget(f.value)
  }

  lemma TargetsMean(v: Value)
    requires WellFormed(v)
    ensures GoodTargets(v) <==> TargetsDocument(v)
  {
    hide Get, Has, WellFormed, GoodTarget, ProperTarget;
    GetMeans(v, "targets");
    match Get(v, "targets") {
      case Some(Obj(fields)) =>
        assert Has(v, "targets", Obj(fields));
        ObjectParts(fields);
        forall f | f in fields ensures GoodTarget(f.value) <==> ProperTarget(f.value) { TargetMeans(f.value); }
      case _ =>
    }
  }

  // ---------- the whole verification ----------

  /** Timestamp, snapshot and targets under the root in `root`. */
  ghost predicate FilesBelow(p: Primitives, src: Source, root: Bytes, now: string)
  {
    "timestamp.json" in src && DocumentFile(p, src["timestamp.json"], root, "timestamp", now) &&
    HasVersion(Signed(p, src["timestamp.json"])) &&
    exists snapshot ::
      ChildFile(p, src, Signed(p, src["timestamp.json"]), "snapshot", root, now, snapshot) &&
      FilesBelowSnapshot(p, src, snapshot, root, now)
  }

  ghost predicate FilesBelowSnapshot(p: Primitives, src: Source, snapshot: Bytes, root: Bytes, now: string)
  {
    p.parse(snapshot).Some? &&
    exists targets ::
      ChildFile(p, src, Signed(p, snapshot), "targets", root, now, targets) && p.parse(targets).Some? &&
      TargetsDocument(Signed(p, targets))
  }

  lemma ChildParts(p: Primitives, src: Source, parent: Value, role: string, root: Bytes, now: string, bytes: Bytes)
    requires ParsesWell(p) && ChildFile(p, src, parent, role, root, now, bytes)
    ensures p.parse(bytes).Some? && WellFormed(Signed(p, bytes))
  {
  }

  lemma BelowMeans(p: Primitives, src: Source, root: Bytes, now: string)
    requires ParsesWell(p) && HoldsRoot(p, root)
    ensures GoodBelow(p, src, RootOf(p, root), now) <==> FilesBelow(p, src, root, now)
  {
    hide GoodDocument, DocumentFile, GoodChild, ChildFile, ChildBytes, HasVersion, VersionOf, HoldsRoot, RootOf,
      GoodTargets, TargetsDocument, WellFormed, ParsesWell;
    if "timestamp.json" in src {
      var bytes := src["timestamp.json"];
      DocumentMeans(p, bytes, root, "timestamp", now);
      if DocumentFile(p, bytes, root, "timestamp", now) {
        DocumentParts(p, bytes, root, "timestamp", now);
        var ts := Signed(p, bytes);
        VersionsMean(ts);
        ChildMeans(p, src, ts, "snapshot", root, now);
        if GoodChild(p, src, ts, "snapshot", RootOf(p, root), now) {
          var snapshot := ChildBytes(p, src, ts, "snapshot", RootOf(p, root), now);
          assert ChildFile(p, src, ts, "snapshot", root, now, snapshot);
          BelowSnapshotMeans(p, src, ts, snapshot, root, now);
          assert FilesBelow(p, src, root, now) <==> HasVersion(ts) && FilesBelowSnapshot(p, src, snapshot, root, now);
        }
      }
    }
  }

  lemma BelowSnapshotMeans(p: Primitives, src: Source, ts: Value, snapshot: Bytes, root: Bytes, now: string)
    requires ParsesWell(p) && HoldsRoot(p, root) && ChildFile(p, src, ts, "snapshot", root, now, snapshot)
    ensures p.parse(snapshot).Some?
    ensures GoodChild(p, src, Signed(p, snapshot), "targets", RootOf(p, root), now) ==>
              p.parse(ChildBytes(p, src, Signed(p, snapshot), "targets", RootOf(p, root), now)).Some?
    ensures FilesBelowSnapshot(p, src, snapshot, root, now) <==>
            GoodChild(p, src, Signed(p, snapshot), "targets", RootOf(p, root), now) &&
            var bytes := ChildBytes(p, src, Signed(p, snapshot), "targets", RootOf(p, root), now);
            p.parse(bytes).Some? && GoodTargets(Signed(p, bytes))
  {
    hide GoodChild, ChildFile, ChildBytes, HoldsRoot, RootOf, GoodTargets, TargetsDocument, WellFormed, ParsesWell;
    ChildParts(p, src, ts, "snapshot", root, now, snapshot);
    var v := Signed(p, snapshot);
    ChildMeans(p, src, v, "targets", root, now);
    if GoodChild(p, src, v, "targets", RootOf(p, root), now) {
      var bytes := ChildBytes(p, src, v, "targets", RootOf(p, root), now);
      ChildParts(p, src, v, "targets", root, now, bytes);
      TargetsMean(Signed(p, bytes));
    }
  }

  /** A chain of root files from the anchor, of which the last is still valid and has good files below it. */
  ghost predicate AcceptedFiles(p: Primitives, src: Source, anchor: Bytes, now: string, a: nat, n: nat)
  {
    RootChain(p, src, anchor, a, n) &&
    var last := RootFileAt(src, anchor, a, n);
    p.parse(last).Some? && StillValid(Signed(p, last), now) && FilesBelow(p, src, last, now)
  }

  /**
   * Verification accepts a source exactly when the files in it say what they should: nothing here depends on
   * how the verifier reads them.
   */
  lemma VerificationMeans(p: Primitives, src: Source, anchor: Bytes, now: string)
    requires ParsesWell(p)
    ensures VerifyResult(p, src, anchor, now).Ok? <==>
            exists a: nat, n: nat :: AcceptedFiles(p, src, anchor, now, a, n)
    ensures VerifyResult(p, src, anchor, now).Ok? ==>
              var n := VerifyResult(p, src, anchor, now).value.rootVersion;
              exists a: nat :: AcceptedFiles(p, src, anchor, now, a, n)
  {
    hide VerifyResult, RootChain, HoldsRoot, SignedBy, ChainEndsAt, LastRootAccepted, StillValid, FilesBelow,
      RootFileAt, ParsesWell;
    AcceptedChain(p, src, anchor, now);
    forall a: nat, n: nat | RootChain(p, src, anchor, a, n)
      ensures SelfSigned(p, anchor) && ChainEndsAt(p, src, anchor, n)
      ensures LastRootAccepted(p, src, anchor, n, now) <==> AcceptedFiles(p, src, anchor, now, a, n)
    {
      ChainMeans(p, src, anchor, n);
      LastRootMeans(p, src, anchor, now, a, n);
    }
    forall n: nat | SelfSigned(p, anchor) && ChainEndsAt(p, src, anchor, n)
      ensures exists a: nat :: RootChain(p, src, anchor, a, n)
    {
      ChainMeans(p, src, anchor, n);
    }
  }

  lemma LastRootMeans(p: Primitives, src: Source, anchor: Bytes, now: string, a: nat, n: nat)
    requires ParsesWell(p) && RootChain(p, src, anchor, a, n)
    ensures HoldsRoot(p, anchor)
    ensures LastRootAccepted(p, src, anchor, n, now) <==> AcceptedFiles(p, src, anchor, now, a, n)
  {
    hide GoodBelow, FilesBelow, StillValid, NotExpired, RootFile, FileSigned, SoundRoot, RootDocument, HasType;
    ChainMeans(p, src, anchor, n);
    var last := RootFileAt(src, anchor, a, n);
    assert RootBytes(p, src, anchor, n) == last;
    if n > a { assert NextRootFile(p, src, anchor, a, n); }
    RootFileMeans(p, last, n);
    ValidMeans(Signed(p, last), now);
    BelowMeans(p, src, last, now);
  }

  /** An anchor that fewer of its root keys have signed than it demands itself is refused. */
  lemma TooFewSignersAreRefused(p: Primitives, src: Source, anchor: Bytes, now: string, keyids: seq<string>, n: nat)
    requires ParsesWell(p) && p.parse(anchor).Some? && RoleSays(Signed(p, anchor), "root", keyids, n)
    requires |SignersOf(p, p.parse(anchor).value, Signed(p, anchor), keyids)| < n
    ensures VerifyResult(p, src, anchor, now).Err?
  {
    hide VerifyResult, RootFile, SignersOf, RoleSays;
    VerificationMeans(p, src, anchor, now);
    var v := Signed(p, anchor);
    if RoleSigned(p, p.parse(anchor).value, v, "root") {
      var others, m: nat :| RoleSays(v, "root", others, m) && |SignersOf(p, p.parse(anchor).value, v, others)| >= m;
      RoleSaysOnce(v, "root", keyids, n, others, m);
    }
  }

  /** And the answer says how many valid signatures there were, and how many it takes. */
  lemma TooFewSignersAreCounted(p: Primitives, src: Source, anchor: Bytes, now: string, keyids: seq<string>, n: nat)
    requires ParsesWell(p) && Parses(p, anchor) && RootDocument(Signed(p, anchor))
    requires RoleSays(Signed(p, anchor), "root", keyids, n)
    requires |SignersOf(p, p.parse(anchor).value, Signed(p, anchor), keyids)| < n
    ensures VerifyResult(p, src, anchor, now) ==
            Err(ThresholdNotMet("root", |SignersOf(p, p.parse(anchor).value, Signed(p, anchor), keyids)|, n))
  {
    var doc, v := p.parse(anchor).value, Signed(p, anchor);
    hide *;
    RootIsSound(p, anchor);
    var def := RoleOf(v, "root").value;
    RoleMeans(v, "root", def.keyids, def.threshold);
    RoleSaysOnce(v, "root", keyids, n, def.keyids, def.threshold);
    SignersMean(p, doc, v, def);
    UnderThreshold(p, src, anchor, now);
  }

  lemma RootIsSound(p: Primitives, anchor: Bytes)
    requires ParsesWell(p) && Parses(p, anchor) && RootDocument(Signed(p, anchor))
    ensures var v := Signed(p, anchor);
            WellFormed(v) && HasType(v, "root") && RootKeys(v).Ok? && RoleOf(v, "root").Ok? &&
            ValidateRootRoles(v, RootKeys(v).value).Ok?
  {
    var v := Signed(p, anchor);
    hide RootDocument, RootKeys, RoleOf, WellFormed, ValidateRootRoles, SoundRole, HasType;
    RootMeans(v);
    RootRolesValidation(v, RootKeys(v).value);
    assert SoundRole(v, RootKeys(v).value, "root");
    RoleIsThere(v, "root");
  }

  lemma UnderThreshold(p: Primitives, src: Source, anchor: Bytes, now: string)
    requires Parses(p, anchor) && HasType(Signed(p, anchor), "root")
    requires var v := Signed(p, anchor);
             RootKeys(v).Ok? && RoleOf(v, "root").Ok? && ValidateRootRoles(v, RootKeys(v).value).Ok?
    ensures var doc := p.parse(anchor).value;
            var v, def := doc.signed, RoleOf(doc.signed, "root").value;
            var valid := |ValidSigners(p, doc.signatures, RootKeys(v).value, def, CanonicalText(v))|;
            valid < def.threshold ==>
              VerifyResult(p, src, anchor, now) == Err(ThresholdNotMet("root", valid, def.threshold))
  {
    hide RootKeys, RoleOf, ValidateRootRoles, ValidSigners, CanonicalText, NewestRoot, OnlineResult;
  }

  lemma RoleIsThere(root: Value, role: string)
    requires RootKeys(root).Ok? && SoundRole(root, RootKeys(root).value, role)
    ensures RoleOf(root, role).Ok?
  {
  }

  // ---------- the result ----------

  lemma {:induction false} TargetNames(fields: seq<Field>)
    requires TargetTable(fields).Ok?
    ensures TargetTable(fields).value.Keys == set f | f in fields :: f.key
  {
    hide U64At, Pointer, Get, Lower;
    if fields != [] {
      TargetNames(fields[1..]);
      KeysStep(fields);
    }
  }

  /** The table has exactly the names of the document, each with what its entry says. */
  ghost predicate TableOf(table: map<string, TargetInfo>, v: Value)
  {
    exists fields: seq<Field> ::
      Has(v, "targets", Obj(fields)) && table.Keys == (set f | f in fields :: f.key) &&
      forall f :: f in fields ==> InfoOf(table[f.key], f.value)
  }

  lemma TableMeans(v: Value, fields: seq<Field>)
    requires WellFormed(v) && Get(v, "targets") == Some(Obj(fields)) && TargetTable(fields).Ok?
    ensures TableOf(TargetTable(fields).value, v)
  {
    hide TargetTable, InfoOf, Lower, U64At, Pointer;
    GetMeans(v, "targets");
    assert Has(v, "targets", Obj(fields));
    ObjectParts(fields);
    TargetNames(fields);
    forall f | f in fields ensures InfoOf(TargetTable(fields).value[f.key], f.value) {
      var i: nat :| i < |fields| && fields[i] == f;
      TargetsRead(fields, i);
      TargetMeans(f.value);
    }
  }

  /** The versions, digests and targets of the result are those of the files it was read from. */
  lemma ResultMeans(p: Primitives, src: Source, anchor: Bytes, now: string)
    requires ParsesWell(p) && VerifyResult(p, src, anchor, now).Ok?
    ensures var r := VerifyResult(p, src, anchor, now).value;
            var snapshot := Text.Decimal(r.snapshotVersion) + ".snapshot.json";
            var targets := Text.Decimal(r.targetsVersion) + ".targets.json";
            && FileOf(p, src, "timestamp.json", r.timestampVersion, r.timestampSha256)
            && FileOf(p, src, snapshot, r.snapshotVersion, r.snapshotSha256)
            && FileOf(p, src, targets, r.targetsVersion, r.targetsSha256)
            && TableOf(r.targets, Signed(p, src[targets]))
  {
    hide AnchorRoot, NewestRoot, OnlineResult, PinnedDoc, Get, WellFormed, VersionOf, Version, TargetTable, TableOf,
      HasVersion, Text.Decimal, Pointer, EqIgnoreAsciiCase;
    var root := NewestRoot(p, src, AnchorRoot(p, anchor, now).value, now).value;
    OnlineFacts(p, src, root, now);
    var ts := Signed(p, src["timestamp.json"]);
    VersionsMean(ts);
    PinnedFacts(p, src, ts, "snapshot", root, now);
    PinnedVersion(p, src, ts, "snapshot", root, now);
    var snap := PinnedDoc(p, src, ts, "snapshot", root, now).value;
    PinnedFacts(p, src, snap.1, "targets", root, now);
    PinnedVersion(p, src, snap.1, "targets", root, now);
    var tgt := PinnedDoc(p, src, snap.1, "targets", root, now).value;
    assert "." + "snapshot" + ".json" == ".snapshot.json" && "." + "targets" + ".json" == ".targets.json";
    assert Text.Decimal(snap.2) + "." + "snapshot" + ".json" == Text.Decimal(snap.2) + ".snapshot.json";
    assert Text.Decimal(tgt.2) + "." + "targets" + ".json" == Text.Decimal(tgt.2) + ".targets.json";
    TableMeans(tgt.1, Get(tgt.1, "targets").value.fields);
  }

  /** The file is there, says the version, and has the digest. */
  predicate FileOf(p: Primitives, src: Source, name: string, version: nat, sha256: string)
  {
    name in src && p.parse(src[name]).Some? && Version(Signed(p, src[name]), version) &&
    sha256 == p.sha256Hex(src[name])
  }

  lemma PinnedVersion(p: Primitives, src: Source, parent: Value, role: string, root: Root, now: string)
    requires ParsesWell(p) && PinnedDoc(p, src, parent, role, root, now).Ok?
    ensures var (bytes, signed, version) := PinnedDoc(p, src, parent, role, root, now).value;
            Version(signed, version) && WellFormed(signed)
  {
    hide VersionOf, OnlineDoc, CheckMetaEntry, Pointer, WellFormed, Version;
    PinnedFacts(p, src, parent, role, root, now);
    VersionsMean(PinnedDoc(p, src, parent, role, root, now).value.1);
  }

  /** Downloaded bytes pass exactly when they have the stated length and, but for case, the stated digest. */
  lemma TargetBytesMean(p: Primitives, info: TargetInfo, bytes: Bytes)
    ensures VerifyTargetBytes(p, info, bytes).Ok? <==>
            |bytes| == info.length && SameButCase(p.sha256Hex(bytes), info.sha256)
  {
    EqMeans(p.sha256Hex(bytes), info.sha256);
  }
}
