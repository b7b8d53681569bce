/**
 * The persisted trust state of each source: a compare-and-advance of four versions and four digests
 * inside one write transaction. Database failures are explicit, so every claim covers all of them.
 */
module TrustStore {
  import opened Wrappers
  import opened TufTrust

  datatype StoreError = DatabaseFailure | TrustState

  datatype Row = Row(discoveryUrl: string, rootFingerprint: string, enabled: bool, state: TufState)

  type Rows = map<string, Row>

  /** Which statements of one attempt fail. */
  datatype Faults = Faults(begin: bool, read: bool, update: bool, commit: bool, rollback: bool)

  const NO_STATE := TufState(Versions(0, 0, 0, 0), Digests("", "", "", ""))

  // ---------- the acceptance rule ----------

  predicate FitsSqlite(v: Versions)
  {
    v.root <= I64_MAX && v.timestamp <= I64_MAX && v.snapshot <= I64_MAX && v.targets <= I64_MAX
  }

  predicate CanonicalDigest(d: string)
  {
    |d| == 64 && forall i :: 0 <= i < 64 ==> '0' <= d[i] <= '9' || 'a' <= d[i] <= 'f'
  }

  predicate CanonicalDigests(d: Digests)
  {
    CanonicalDigest(d.root) && CanonicalDigest(d.timestamp) && CanonicalDigest(d.snapshot) && CanonicalDigest(d.targets)
  }

  /** A role may stay or advance, and may change its digest only when it advances from a real version. */
  predicate RoleMayAdvance(oldVersion: nat, newVersion: nat, oldDigest: string, newDigest: string)
  {
    oldVersion <= newVersion && (oldVersion != 0 && newVersion == oldVersion ==> newDigest == oldDigest)
  }

  predicate MayAdvance(last: TufState, next: TufState)
  {
    && RoleMayAdvance(last.versions.root, next.versions.root, last.digests.root, next.digests.root)
    && RoleMayAdvance(last.versions.timestamp, next.versions.timestamp, last.digests.timestamp, next.digests.timestamp)
    && RoleMayAdvance(last.versions.snapshot, next.versions.snapshot, last.digests.snapshot, next.digests.snapshot)
    && RoleMayAdvance(last.versions.targets, next.versions.targets, last.digests.targets, next.digests.targets)
  }

  datatype Attempt = Attempt(id: string, discoveryUrl: string, rootFingerprint: string, candidate: TufState,
                             faults: Faults)

  /**
   * An attempt takes effect exactly when the candidate is well formed, newer, for this very source, and nothing
   * fails.
   */
  predicate Accepted(rows: Rows, a: Attempt)
  {
    && FitsSqlite(a.candidate.versions) && CanonicalDigests(a.candidate.digests)
    && a.id in rows
    && MayAdvance(rows[a.id].state, a.candidate)
    && rows[a.id].discoveryUrl == a.discoveryUrl && rows[a.id].rootFingerprint == a.rootFingerprint
    && rows[a.id].enabled
    && !a.faults.begin && !a.faults.read && !a.faults.update && !a.faults.commit
  }

  /** The rule refuses the attempt before any statement fails; every other refusal is a database failure. */
  predicate RefusedByRule(rows: Rows, a: Attempt)
  {
    !FitsSqlite(a.candidate.versions) || !CanonicalDigests(a.candidate.digests) ||
    (!a.faults.read && a.id in rows &&
     (!MayAdvance(rows[a.id].state, a.candidate) ||
      (!a.faults.update &&
       (rows[a.id].discoveryUrl != a.discoveryUrl || rows[a.id].rootFingerprint != a.rootFingerprint ||
        !rows[a.id].enabled))))
  }

  function AfterAttempt(rows: Rows, a: Attempt): Rows
  {
    if Accepted(rows, a) then rows[a.id := rows[a.id].(state := a.candidate)] else rows
  }

  // ---------- the database ----------

  class Database {
    /** What the connection sees. */
    var rows: Rows
    /** The rows at BEGIN, while a transaction is open. */
    var saved: Option<Rows>

    constructor ()
      ensures rows == map[] && saved == None
    {
      rows, saved := map[], None;
    }

    /** What survives a crash or a rollback. */
    function Durable(): Rows
      reads this
    {
      if saved.Some? then saved.value else rows
    }

    method Begin(fails: bool) returns (ok: bool)
      modifies this
      ensures ok == (!fails && old(saved).None?)
      ensures rows == old(rows) && saved == if ok then Some(rows) else old(saved)
    {
      ok := !fails && saved.None?;
      if ok { saved := Some(rows); }
    }

    method Commit(fails: bool) returns (ok: bool)
      modifies this
      ensures ok == !fails
      ensures rows == old(rows) && saved == if ok then None else old(saved)
    {
      ok := !fails;
      if ok { saved := None; }
    }

    method Rollback(fails: bool)
      requires saved.Some?
      modifies this
      ensures Durable() == old(Durable())
      ensures if fails then rows == old(rows) && saved == old(saved) else rows == old(saved).value && saved == None
    {
      if !fails {
        rows := saved.value;
        saved := None;
      }
    }

    /** The checks and the guarded UPDATE, inside a transaction the caller has opened. */
    method AcceptInTransaction(a: Attempt) returns (r: Result<(), StoreError>)
      modifies this
      ensures saved == old(saved)
      ensures r.Ok? <==> Accepted(old(rows), a.(faults := a.faults.(begin := false, commit := false)))
      ensures rows == AfterAttempt(old(rows), a.(faults := a.faults.(begin := false, commit := false)))
      ensures r == Err(TrustState) <==> RefusedByRule(old(rows), a)
    {
      var v := a.candidate.versions;
      for i := 0 to 4
        invariant i > 0 ==> v.root <= I64_MAX
        invariant i > 1 ==> v.timestamp <= I64_MAX
        invariant i > 2 ==> v.snapshot <= I64_MAX
        invariant i > 3 ==> v.targets <= I64_MAX
      {
        if [v.root, v.timestamp, v.snapshot, v.targets][i] > I64_MAX { return Err(TrustState); }
      }
      if !CanonicalDigests(a.candidate.digests) { return Err(TrustState); }
      if a.faults.read || a.id !in rows { return Err(DatabaseFailure); }
      var last := rows[a.id].state;
      if !MayAdvance(last, a.candidate) { return Err(TrustState); }
      if a.faults.update { return Err(DatabaseFailure); }
      var row := rows[a.id];
      var changed := 0;
      if row.discoveryUrl == a.discoveryUrl && row.rootFingerprint == a.rootFingerprint && row.enabled
         && NoLower(row.state.versions, v) {
        rows := rows[a.id := row.(state := a.candidate)];
        changed := 1;
      }
      if changed != 1 { return Err(TrustState); }
      return Ok(());
    }

    /** One attempt in its own transaction: the durable rows change exactly when the attempt is accepted. */
    method Accept(a: Attempt) returns (r: Result<(), StoreError>)
      modifies this
      ensures r.Ok? <==> old(saved).None? && Accepted(old(Durable()), a)
      ensures Durable() == if r.Ok? then AfterAttempt(old(Durable()), a) else old(Durable())
      ensures r == Err(TrustState) <==> old(saved).None? && !a.faults.begin && RefusedByRule(old(Durable()), a)
      ensures r.Ok? || (old(saved).None? && !a.faults.rollback) ==> saved.None?
    {
      var began := Begin(a.faults.begin);
      if !began { return Err(DatabaseFailure); }
      r := AcceptInTransaction(a);
      if r.Ok? {
        var committed := Commit(a.faults.commit);
        if !committed {
          Rollback(a.faults.rollback);
          r := Err(DatabaseFailure);
        }
      } else {
        Rollback(a.faults.rollback);
      }
    }
  }

  // ---------- histories ----------

  datatype Event =
    | Try(attempt: Attempt)
    | SetEnabled(id: string, enabled: bool)
    | SetIdentity(id: string, discoveryUrl: string, rootFingerprint: string)
    | Remove(id: string)
    | Add(id: string, discoveryUrl: string, rootFingerprint: string)

  function Step(rows: Rows, e: Event): Rows
  {
    match e
    case Try(a) => AfterAttempt(rows, a)
    case SetEnabled(id, enabled) => if id in rows then rows[id := rows[id].(enabled := enabled)] else rows
    case SetIdentity(id, url, fingerprint) =>
      if id in rows then rows[id := rows[id].(discoveryUrl := url, rootFingerprint := fingerprint)] else rows
    case Remove(id) => map k | k in rows && k != id :: rows[k]
    case Add(id, url, fingerprint) => if id in rows then rows else rows[id := Row(url, fingerprint, true, NO_STATE)]
  }

  function Run(rows: Rows, events: seq<Event>): Rows
    decreases |events|
  {
    if events == [] then rows else Run(Step(rows, events[0]), events[1..])
  }

  predicate Keeps(events: seq<Event>, id: string)
  {
    forall e :: e in events ==> e != Remove(id)
  }

  lemma {:induction false} RunAppend(rows: Rows, xs: seq<Event>, ys: seq<Event>)
    ensures Run(rows, xs + ys) == Run(Run(rows, xs), ys)
    decreases |xs|
  {
    if xs == [] {
      assert xs + ys == ys;
    } else {
      assert (xs + ys)[1..] == xs[1..] + ys;
      RunAppend(Step(rows, xs[0]), xs[1..], ys);
    }
  }

  lemma MayAdvanceTransitive(x: TufState, y: TufState, z: TufState)
    requires MayAdvance(x, y) && MayAdvance(y, z)
    ensures MayAdvance(x, z)
  {
  }

  /** As long as a source is not removed, no role of it ever goes back or is given a second digest for its version. */
  lemma {:induction false} HistoryOnlyAdvances(rows: Rows, events: seq<Event>, id: string)
    requires id in rows && Keeps(events, id)
    ensures id in Run(rows, events) && MayAdvance(rows[id].state, Run(rows, events)[id].state)
    decreases |events|
  {
    if events != [] {
      var next := Step(rows, events[0]);
      assert events[0] in events;
      assert forall e :: e in events[1..] ==> e in events;
      assert id in next && MayAdvance(rows[id].state, next[id].state);
      HistoryOnlyAdvances(next, events[1..], id);
      MayAdvanceTransitive(rows[id].state, next[id].state, Run(next, events[1..])[id].state);
    }
  }

  predicate NeverAdds(events: seq<Event>, id: string)
  {
    forall e :: e in events ==> !(e.Add? && e.id == id)
  }

  lemma {:induction false} StaysRemoved(rows: Rows, events: seq<Event>, id: string)
    requires id !in rows && NeverAdds(events, id)
    ensures id !in Run(rows, events)
    decreases |events|
  {
    if events != [] {
      assert events[0] in events && forall e :: e in events[1..] ==> e in events;
      StaysRemoved(Step(rows, events[0]), events[1..], id);
    }
  }

  /**
   * Removing a source and adding it again, whatever happens in between, forgets all accepted versions: the
   * one way a version can go back.
   */
  lemma RemovalForgets(rows: Rows, between: seq<Event>, id: string, url: string, fingerprint: string)
    requires NeverAdds(between, id)
    ensures var after := Run(rows, [Remove(id)] + between + [Add(id, url, fingerprint)]);
            id in after && after[id].state == NO_STATE
  {
    var removed, add := Step(rows, Remove(id)), Add(id, url, fingerprint);
    var waited := Run(removed, between);
    StaysRemoved(removed, between, id);
    RunAppend(rows, [Remove(id)] + between, [add]);
    RunAppend(rows, [Remove(id)], between);
    RunOne(rows, Remove(id));
    RunOne(waited, add);
  }

  lemma RunOne(rows: Rows, e: Event)
    ensures Run(rows, [e]) == Step(rows, e)
  {
    assert Run(Step(rows, e), [e][1..]) == Step(rows, e);
  }

  predicate AcceptedAt(rows: Rows, events: seq<Event>, i: nat)
    requires i < |events|
  {
    events[i].Try? && Accepted(Run(rows, events[..i]), events[i].attempt)
  }

  /** Role `k` of a state: 0 root, 1 timestamp, 2 snapshot, 3 targets. */
  function RoleVersion(s: TufState, k: nat): nat
  {
    if k == 0 then s.versions.root else if k == 1 then s.versions.timestamp
    else if k == 2 then s.versions.snapshot else s.versions.targets
  }

  function RoleDigest(s: TufState, k: nat): string
  {
    if k == 0 then s.digests.root else if k == 1 then s.digests.timestamp
    else if k == 2 then s.digests.snapshot else s.digests.targets
  }

  /** Of all attempts ever accepted for a source, two that agree on a role's version agree on its digest. */
  lemma OneDigestPerVersion(rows: Rows, events: seq<Event>, i: nat, j: nat, role: nat)
    requires i < j < |events| && AcceptedAt(rows, events, i) && AcceptedAt(rows, events, j)
    requires events[i].attempt.id == events[j].attempt.id && Keeps(events[i..j], events[i].attempt.id)
    ensures var a, b := events[i].attempt.candidate, events[j].attempt.candidate;
            RoleVersion(a, role) <= RoleVersion(b, role) &&
            (RoleVersion(a, role) == RoleVersion(b, role) >= 1 ==> RoleDigest(a, role) == RoleDigest(b, role))
  {
    var id := events[i].attempt.id;
    var before, between := Run(rows, events[..i]), events[i + 1..j];
    var after := Step(before, events[i]);
    assert events[..j] == events[..i] + events[i..j];
    RunAppend(rows, events[..i], events[i..j]);
    assert events[i..j][0] == events[i] && events[i..j][1..] == between;
    assert forall e :: e in between ==> e in events[i..j];
    HistoryOnlyAdvances(after, between, id);
    MayAdvanceTransitive(events[i].attempt.candidate, Run(rows, events[..j])[id].state, events[j].attempt.candidate);
  }

  // ---------- acceptance, told from the history alone ----------

  /** What a history says about one source: nothing, or who it is, whether it is on, and what it last accepted. */
  datatype Told = Absent | Known(discoveryUrl: string, rootFingerprint: string, enabled: bool, state: TufState)

  function ToldOf(rows: Rows, id: string): Told
  {
    if id in rows then Known(rows[id].discoveryUrl, rows[id].rootFingerprint, rows[id].enabled, rows[id].state)
    else Absent
  }

  function ToldBy(rows: Rows, events: seq<Event>, id: string): Told
  {
    if events == [] then ToldOf(rows, id)
    else ToldAfter(ToldBy(rows, events[..|events| - 1], id), events[|events| - 1], id)
  }

  function ToldAfter(before: Told, e: Event, id: string): Told
  {
    match e
    case Try(a) => if a.id == id && Deserves(before, a) then before.(state := a.candidate) else before
    case SetEnabled(s, on) => if s == id && before.Known? then before.(enabled := on) else before
    case SetIdentity(s, url, fingerprint) =>
      if s == id && before.Known? then before.(discoveryUrl := url, rootFingerprint := fingerprint) else before
    case Remove(s) => if s == id then Absent else before
    case Add(s, url, fingerprint) =>
      if s == id && before.Absent? then
        Known(url, fingerprint, true, TufState(Versions(0, 0, 0, 0), Digests("", "", "", "")))
      else before
  }

  /**
   * An attempt deserves acceptance when nothing fails, it was made for the source as it is now, the source is
   * on, and each role stays what it is or advances to a 64-bit version with a lower-case SHA-256 digest.
   */
  predicate Deserves(told: Told, a: Attempt)
  {
    && a.faults.(rollback := false) == Faults(false, false, false, false, false)
    && told.Known? && told.enabled && told.discoveryUrl == a.discoveryUrl && told.rootFingerprint == a.rootFingerprint
    && forall k :: 0 <= k < 4 ==> RoleStep(told.state, a.candidate, k)
  }

  predicate RoleStep(was: TufState, next: TufState, k: nat)
  {
    RoleDeserves(RoleVersion(was, k), RoleDigest(was, k), RoleVersion(next, k), RoleDigest(next, k))
  }

  predicate RoleDeserves(wasVersion: nat, wasDigest: string, version: nat, digest: string)
  {
    && wasVersion <= version <= 0x7FFF_FFFF_FFFF_FFFF
    && |digest| == 64 && (forall c :: c in digest ==> c in "0123456789abcdef")
    && (wasVersion == 0 || version > wasVersion || digest == wasDigest)
  }

  lemma HexMeans(c: char)
    ensures c in "0123456789abcdef" <==> '0' <= c <= '9' || 'a' <= c <= 'f'
  {
    var hex := "0123456789abcdef";
    if '0' <= c <= '9' { assert hex[c as int - 48] == c; }
    if 'a' <= c <= 'f' { assert hex[c as int - 87] == c; }
  }

  lemma DigestMeans(d: string)
    ensures CanonicalDigest(d) <==> |d| == 64 && forall c :: c in d ==> c in "0123456789abcdef"
  {
    forall c | c in d ensures c in "0123456789abcdef" <==> '0' <= c <= '9' || 'a' <= c <= 'f' { HexMeans(c); }
    if |d| == 64 && forall c :: c in d ==> c in "0123456789abcdef" {
      forall i | 0 <= i < 64 ensures '0' <= d[i] <= '9' || 'a' <= d[i] <= 'f' {
        assert d[i] in d;
        HexMeans(d[i]);
      }
    }
  }

  lemma RuleMeans(rows: Rows, a: Attempt)
    ensures Accepted(rows, a) <==> Deserves(ToldOf(rows, a.id), a)
    ensures Accepted(rows, a) ==> a.id in rows
  {
    hide CanonicalDigest;
    DigestMeans(a.candidate.digests.root);
    DigestMeans(a.candidate.digests.timestamp);
    DigestMeans(a.candidate.digests.snapshot);
    DigestMeans(a.candidate.digests.targets);
    if a.id in rows {
      var was, c := rows[a.id].state, a.candidate;
      assert (forall k :: 0 <= k < 4 ==> RoleStep(was, c, k)) <==>
             RoleStep(was, c, 0) && RoleStep(was, c, 1) && RoleStep(was, c, 2) && RoleStep(was, c, 3);
    }
  }

  lemma StepIsTold(rows: Rows, e: Event, id: string)
    ensures ToldAfter(ToldOf(rows, id), e, id) == ToldOf(Step(rows, e), id)
  {
    hide Deserves, Accepted;
    if e.Try? { RuleMeans(rows, e.attempt); }
  }

  /** The database knows of every source exactly what the history tells. */
  lemma {:induction false} RowsAreTold(rows: Rows, events: seq<Event>, id: string)
    ensures ToldBy(rows, events, id) == ToldOf(Run(rows, events), id)
  {
    if events != [] {
      var front, e := events[..|events| - 1], events[|events| - 1];
      hide ToldAfter, ToldOf;
      RowsAreTold(rows, front, id);
      RunAppend(rows, front, [e]);
      RunOne(Run(rows, front), e);
      assert events == front + [e];
      StepIsTold(Run(rows, front), e, id);
    }
  }

  /** Over every history an attempt is accepted exactly when the events before it say that it deserves it. */
  lemma AcceptedExactlyWhenDeserved(rows: Rows, events: seq<Event>, i: nat)
    requires i < |events| && events[i].Try?
    ensures AcceptedAt(rows, events, i) <==>
            Deserves(ToldBy(rows, events[..i], events[i].attempt.id), events[i].attempt)
  {
    var a := events[i].attempt;
    hide ToldBy, Deserves, Accepted;
    RowsAreTold(rows, events[..i], a.id);
    RuleMeans(Run(rows, events[..i]), a);
  }

  /** The event leaves the identity of a source that is there alone. */
  predicate LeavesIdentity(e: Event, id: string)
  {
    !(e.SetIdentity? && e.id == id) && !(e.Remove? && e.id == id)
  }

  lemma {:induction false} IdentityStays(rows: Rows, events: seq<Event>, from: nat, id: string)
    requires from <= |events| && ToldBy(rows, events[..from], id).Known?
    requires forall e :: e in events[from..] ==> LeavesIdentity(e, id)
    ensures var was, now := ToldBy(rows, events[..from], id), ToldBy(rows, events, id);
            now.Known? && now.discoveryUrl == was.discoveryUrl && now.rootFingerprint == was.rootFingerprint
    decreases |events|
  {
    hide Deserves;
    if from == |events| {
      assert events[..from] == events;
    } else {
      var n := |events| - 1;
      assert events[from..][n - from] == events[n] && events[..n][..from] == events[..from];
      assert events[n] in events[from..];
      assert forall e :: e in events[..n][from..] ==> e in events[from..];
      IdentityStays(rows, events[..n], from, id);
    }
  }

  /** Event `j` gives the source its identity: it changes that of a source that is there, or adds the source. */
  predicate Gives(rows: Rows, events: seq<Event>, j: nat, id: string, url: string, fingerprint: string)
    requires j < |events|
  {
    (events[j] == SetIdentity(id, url, fingerprint) && id in Run(rows, events[..j])) ||
    (events[j] == Add(id, url, fingerprint) && id !in Run(rows, events[..j]))
  }

  /** After a source is given an identity, and until the next change, no attempt for any other is accepted. */
  lemma OldIdentityIsRefused(rows: Rows, events: seq<Event>, j: nat, i: nat, url: string, fingerprint: string)
    requires j < i < |events| && events[i].Try? && Gives(rows, events, j, events[i].attempt.id, url, fingerprint)
    requires forall e :: e in events[j + 1..i] ==> LeavesIdentity(e, events[i].attempt.id)
    ensures AcceptedAt(rows, events, i) ==>
              events[i].attempt.discoveryUrl == url && events[i].attempt.rootFingerprint == fingerprint
  {
    var id := events[i].attempt.id;
    AcceptedExactlyWhenDeserved(rows, events, i);
    RowsAreTold(rows, events[..j], id);
    var upTo := events[..i];
    assert upTo[..j + 1] == events[..j + 1] && upTo[j + 1..] == events[j + 1..i];
    assert events[..j + 1][..j] == events[..j];
    IdentityStays(rows, upTo, j + 1, id);
  }

  predicate LeavesOff(e: Event, id: string)
  {
    !(e.SetEnabled? && e.id == id && e.enabled) && !(e.Remove? && e.id == id)
  }

  lemma {:induction false} StaysOff(rows: Rows, events: seq<Event>, from: nat, id: string)
    requires from <= |events| && ToldBy(rows, events[..from], id).Known? && !ToldBy(rows, events[..from], id).enabled
    requires forall e :: e in events[from..] ==> LeavesOff(e, id)
    ensures ToldBy(rows, events, id).Known? && !ToldBy(rows, events, id).enabled
    decreases |events|
  {
    hide Deserves;
    if from == |events| {
      assert events[..from] == events;
    } else {
      var n := |events| - 1;
      assert events[from..][n - from] == events[n] && events[..n][..from] == events[..from];
      assert events[n] in events[from..];
      assert forall e :: e in events[..n][from..] ==> e in events[from..];
      StaysOff(rows, events[..n], from, id);
    }
  }

  /** While a source is switched off nothing is accepted for it. */
  lemma NothingAcceptedWhileOff(rows: Rows, events: seq<Event>, j: nat, i: nat)
    requires j < i < |events| && events[i].Try?
    requires events[j] == SetEnabled(events[i].attempt.id, false)
    requires events[i].attempt.id in Run(rows, events[..j])
    requires forall e :: e in events[j + 1..i] ==> LeavesOff(e, events[i].attempt.id)
    ensures !AcceptedAt(rows, events, i)
  {
    var id := events[i].attempt.id;
    AcceptedExactlyWhenDeserved(rows, events, i);
    RowsAreTold(rows, events[..j], id);
    var upTo := events[..i];
    assert upTo[..j + 1] == events[..j + 1] && upTo[j + 1..] == events[j + 1..i];
    assert events[..j + 1][..j] == events[..j];
    StaysOff(rows, upTo, j + 1, id);
  }

  // ---------- racing attempts ----------

  predicate RealVersions(s: TufState)
  {
    s.versions.root >= 1 && s.versions.timestamp >= 1 && s.versions.snapshot >= 1 && s.versions.targets >= 1
  }

  lemma NoAdvanceBothWays(c: TufState, m: TufState)
    requires MayAdvance(c, m) && NoLower(m.versions, c.versions) && RealVersions(m)
    ensures c == m
  {
  }

  /**
   * Attempts for one source, in any order, with any repetition, and with any failures of the others:
   * once the greatest candidate has had one undisturbed attempt, the stored state is that candidate.
   */
  lemma {:induction false} RaceEndsAtMaximum(rows: Rows, order: seq<Event>, greatest: Attempt)
    requires greatest.id in rows && MayAdvance(rows[greatest.id].state, greatest.candidate)
    requires forall e :: e in order ==> e.Try? && MayAdvance(e.attempt.candidate, greatest.candidate)
    requires RealVersions(greatest.candidate) && FitsSqlite(greatest.candidate.versions)
    requires CanonicalDigests(greatest.candidate.digests)
    requires rows[greatest.id].discoveryUrl == greatest.discoveryUrl
    requires rows[greatest.id].rootFingerprint == greatest.rootFingerprint && rows[greatest.id].enabled
    requires greatest.faults == Faults(false, false, false, false, greatest.faults.rollback)
    requires Try(greatest) in order || rows[greatest.id].state == greatest.candidate
    ensures greatest.id in Run(rows, order) && Run(rows, order)[greatest.id].state == greatest.candidate
    decreases |order|
  {
    if order != [] {
      var next := Step(rows, order[0]);
      var id := greatest.id;
      assert order[0] in order;
      if order[0].attempt.id == id && Accepted(rows, order[0].attempt) && rows[id].state == greatest.candidate {
        NoAdvanceBothWays(order[0].attempt.candidate, greatest.candidate);
      }
      assert id in next && next[id].(state := rows[id].state) == rows[id];
      if order[0] != Try(greatest) && next[id].state != greatest.candidate {
        assert order == [order[0]] + order[1..];
      }
      RaceEndsAtMaximum(next, order[1..], greatest);
    }
  }
}
