/** The verifier and the store together: what a source can show over its whole recorded life. */
module TrustHistory {
  import opened Wrappers
  import opened TufTrust
  import opened TufTheorems
  import opened TrustStore

  /** One verification run and the inputs it saw. */
  datatype Verification = Verification(src: Source, trustedRoot: Bytes, now: string)

  predicate Verified(p: Primitives, run: Verification)
  {
    VerifyResult(p, run.src, run.trustedRoot, run.now).Ok?
  }

  function Outcome(p: Primitives, run: Verification): VerifiedTuf
    requires Verified(p, run)
  {
    VerifyResult(p, run.src, run.trustedRoot, run.now).value
  }

  lemma VerifiedHasTimestamp(p: Primitives, run: Verification)
    requires Verified(p, run)
    ensures "timestamp.json" in run.src && Outcome(p, run).timestampVersion >= 1
    ensures Outcome(p, run).timestampSha256 == p.sha256Hex(run.src["timestamp.json"])
  {
    hide AnchorRoot, NewestRoot, OnlineResult, PinnedDoc;
    var root := NewestRoot(p, run.src, AnchorRoot(p, run.trustedRoot, run.now).value, run.now).value;
    OnlineFacts(p, run.src, root, run.now);
  }

  /**
   * Two verified states recorded for one source, however far apart in its history: the later one is
   * not older in any role, and if it kept the timestamp version it kept every snapshot, targets
   * version and target entry as well.
   */
  lemma RecordedTimestampFixesTargets(p: Primitives, rows: Rows, events: seq<Event>, i: nat, j: nat,
                                      earlier: Verification, later: Verification)
    requires Verified(p, earlier) && Verified(p, later)
    requires LowercaseDigests(p) && NoCollisions(p, earlier.src, later.src)
    requires i < j < |events| && AcceptedAt(rows, events, i) && AcceptedAt(rows, events, j)
    requires events[i].attempt.id == events[j].attempt.id && Keeps(events[i..j], events[i].attempt.id)
    requires events[i].attempt.candidate == StateOf(Outcome(p, earlier))
    requires events[j].attempt.candidate == StateOf(Outcome(p, later))
    ensures var a, b := Outcome(p, earlier), Outcome(p, later);
            && NoLower(StateOf(a).versions, StateOf(b).versions)
            && (a.timestampVersion == b.timestampVersion ==>
                  a.snapshotVersion == b.snapshotVersion && a.targetsVersion == b.targetsVersion &&
                  a.targets == b.targets)
  {
    hide VerifyResult, AcceptedAt;
    var a, b := Outcome(p, earlier), Outcome(p, later);
    OneDigestPerVersion(rows, events, i, j, 0);
    OneDigestPerVersion(rows, events, i, j, 1);
    OneDigestPerVersion(rows, events, i, j, 2);
    OneDigestPerVersion(rows, events, i, j, 3);
    if a.timestampVersion == b.timestampVersion {
      VerifiedHasTimestamp(p, earlier);
      VerifiedHasTimestamp(p, later);
      assert NoCollision(p, earlier.src["timestamp.json"], later.src["timestamp.json"]);
      TimestampPinsEverything(p, earlier.src, earlier.trustedRoot, earlier.now, later.src, later.trustedRoot,
                              later.now);
    }
  }
}
