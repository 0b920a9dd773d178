/** What the quarantine calls answer, and what a second call does after a first
    (src/security/quarantine_executor.cpp). */
module QuarantineAnswers {
  import opened Common
  import opened Policy
  import opened Ledger
  import opened Quarantine
  import opened QuarantineRuns

  lemma FoundAgain(ledger: seq<QuarantineRecord>, id: nat, r: QuarantineRecord)
    requires IndexOf(ledger, id) < |ledger| && r.id == id
    ensures IndexOf(ledger[IndexOf(ledger, id) := r], id) == IndexOf(ledger, id)
  {
    var i := IndexOf(ledger, id);
    var after := ledger[i := r];
    assert after[i] == r && forall k :: 0 <= k < i ==> after[k] == ledger[k];
  }

  /** A record that was restored stays so: another restore answers OK and changes nothing, and a shred does not find
      it. */
  lemma RestoredStaysRestored(s: State, id: nat, f: Faults, g: Faults)
    requires AfterRestore(s, id, f).0 == OK
    ensures var t := AfterRestore(s, id, f).1;
            && IndexOf(t.ledger, id) < |t.ledger| && t.ledger[IndexOf(t.ledger, id)].restored
            && AfterRestore(t, id, g) == (OK, t)
            && (!t.ledger[IndexOf(t.ledger, id)].shredded ==> AfterShred(t, id, g) == (ErrNotFound, t))
  {
    hide AfterMoveBack, CanRestore, MovesBack, Rewritten, AfterErase;
    var i := IndexOf(s.ledger, id);
    FoundAgain(s.ledger, id, s.ledger[i].(restored := true));
  }

  /** A record that was shredded stays so: another shred answers OK and changes nothing, and a restore is refused. */
  lemma ShreddedStaysShredded(s: State, id: nat, f: Faults, g: Faults)
    requires AfterShred(s, id, f).0 == OK
    ensures var t := AfterShred(s, id, f).1;
            && IndexOf(t.ledger, id) < |t.ledger| && t.ledger[IndexOf(t.ledger, id)].shredded
            && AfterShred(t, id, g) == (OK, t) && AfterRestore(t, id, g) == (ErrRollbackFail, t)
  {
    hide AfterMoveBack, CanRestore, MovesBack, Rewritten, AfterErase;
    var i := IndexOf(s.ledger, id);
    FoundAgain(s.ledger, id, s.ledger[i].(shredded := true));
  }

  /** An id without a record is not found, and nothing changes. */
  lemma UnknownIsNotFound(s: State, id: nat, f: Faults)
    requires forall i :: 0 <= i < |s.ledger| ==> s.ledger[i].id != id
    ensures AfterRestore(s, id, f) == (ErrNotFound, s) && AfterShred(s, id, f) == (ErrNotFound, s)
  {}

  /** An approved candidate for a file that may be taken, of at most 200 MiB and of the expected hash if one is named:
      its quarantine succeeds while the ledger has fewer than 5000 records, and is refused once it has that many. */
  lemma ApprovedFileEnters(cfg: Config, s: State, c: RemediationCandidate, now: int, f: Faults, bytes: seq<byte>)
    requires c.approvalState == Approved && c.targetPath in s.files && s.files[c.targetPath] == File(bytes)
    requires c.targetPath != "" && Clean(c.targetPath) && !IsProtected(c.targetPath, cfg.policy)
    requires 0 < |bytes| <= 209_715_200 && cfg.hash(bytes) != ""
    requires c.expectedSha256 == "" || c.expectedSha256 == cfg.hash(bytes)
    requires !f.probeFails && !f.hashFails && !f.renameFails
    ensures var (code, t) := AfterQuarantine(cfg, s, c, now, f);
            if |s.ledger| < 5000 then
              && code == OK && |t.ledger| == |s.ledger| + 1
              && t.files == Renamed(s.files, c.targetPath, VaultPath(cfg.vaultDir, s.nextId))
            else code == ErrQuarantineFull && t == s
  {
    hide IsProtected, Clean, VaultPath, Renamed, LedgerLine, Appended;
  }

  /** No run takes the ledger beyond 5000 records. */
  lemma {:induction false} LedgerIsBounded(cfg: Config, s: State, ops: seq<Op>)
    requires |s.ledger| <= 5000
    ensures |Run(cfg, s, ops).ledger| <= 5000
  {
    if |ops| > 0 {
      LedgerIsBounded(cfg, s, ops[..|ops| - 1]);
      hide Admits, Moves, AfterMove, Appended, LedgerLine, VaultPath, AfterMoveBack, CanRestore, MovesBack, Rewritten,
           AfterErase;
      assert Run(cfg, s, ops) == Step(cfg, Run(cfg, s, ops[..|ops| - 1]), ops[|ops| - 1]).1;
    }
  }

  /** What a look at a path sees: anything there but a link that leads nowhere, unless the look fails. */
  predicate Sees(files: Files, path: string, fails: bool, linkResolves: bool) {
    !fails && path in files && (files[path] == Symlink ==> linkResolves)
  }

  /** A live record is restored exactly when nothing is seen at the original path and something in the vault, and the
      rename works or, where there is nothing at all at the original path, the copy of the file does. */
  lemma RestoreSucceedsExactly(s: State, id: nat, f: Faults)
    requires IndexOf(s.ledger, id) < |s.ledger| && Live(s.ledger[IndexOf(s.ledger, id)])
    ensures var r := s.ledger[IndexOf(s.ledger, id)];
            var (code, t) := AfterRestore(s, id, f);
            && (code == OK <==>
                  && !Sees(s.files, r.originalPath, f.probeFails, f.linkResolves)
                  && Sees(s.files, r.vaultPath, f.vaultProbeFails, f.linkResolves)
                  && (!f.renameFails
                      || (!f.copyFails && r.originalPath !in s.files && s.files[r.vaultPath].File?)))
            && (code != OK ==> code == ErrRollbackFail && t.ledger == s.ledger && t.ledgerFile == s.ledgerFile)
  {
    hide AfterMoveBack, Rewritten;
  }

  /** A ledger that cannot be opened stays as it is. */
  lemma UnopenedLedgerStays(cfg: Config, s: State, op: Op)
    requires !op.Elsewhere? ==> op.faults.ledger.openFails
    ensures Step(cfg, s, op).1.ledgerFile == s.ledgerFile
  {
    hide Admits, Moves, AfterMove, LedgerLine, VaultPath, AfterMoveBack, CanRestore, MovesBack, AfterErase;
  }
}
