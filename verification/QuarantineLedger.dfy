/** The ledger file against the ledger in memory, and what a restart finds
    (src/security/quarantine_executor.cpp). */
module QuarantineLedger {
  import opened Common
  import opened Decimal
  import opened Policy
  import opened Ledger
  import opened Quarantine
  import opened QuarantineRuns

  /** The file is one line for each record in memory. */
  predicate InSync(s: State) {
    s.ledgerFile == LedgerText(s.ledger)
  }

  /** The append got through. */
  predicate AppendWorks(r: QuarantineRecord, f: LedgerFaults) {
    !f.openFails && f.written >= |LedgerLine(r)| + 1
  }

  /** The temporary file was written in full and took the ledger's place. */
  predicate RewriteWorks(ledger: seq<QuarantineRecord>, f: LedgerFaults) {
    !f.openFails && f.written >= |LedgerText(ledger)| && (!f.renameFails || !f.copyFails)
  }

  /** The call writes nothing, or its write works. */
  predicate WritesWork(cfg: Config, s: State, op: Op) {
    var t := Step(cfg, s, op).1;
    if t.ledger == s.ledger then true
    else match op
      case DoQuarantine(c, _, f) => |t.ledger| > 0 && AppendWorks(t.ledger[|t.ledger| - 1], f.ledger)
      case DoRestore(_, f) => RewriteWorks(t.ledger, f.ledger)
      case DoShred(_, f) => RewriteWorks(t.ledger, f.ledger)
      case Elsewhere(_) => true
  }

  lemma AppendSyncs(file: string, ledger: seq<QuarantineRecord>, r: QuarantineRecord, f: LedgerFaults)
    requires file == LedgerText(ledger) && AppendWorks(r, f)
    ensures Appended(file, LedgerLine(r) + "\n", f) == LedgerText(ledger + [r])
  {
    hide LedgerLine, LedgerText;
    TextSnoc(ledger, r);
    var line := LedgerLine(r) + "\n";
    assert line[..|line|] == line;
    assert file + line == file + LedgerLine(r) + "\n";
  }

  lemma QuarantineKeepsSync(cfg: Config, s: State, c: RemediationCandidate, now: int, f: Faults)
    requires InSync(s) && WritesWork(cfg, s, DoQuarantine(c, now, f))
    ensures InSync(AfterQuarantine(cfg, s, c, now, f).1)
  {
    hide LedgerLine, LedgerText, AppendWorks, Appended, Admits, Moves, AfterMove, VaultPath;
    var t := AfterQuarantine(cfg, s, c, now, f).1;
    if t.ledger != s.ledger {
      var r := t.ledger[|s.ledger|];
      assert t.ledger == s.ledger + [r];
      AppendSyncs(s.ledgerFile, s.ledger, r, f.ledger);
    }
  }

  lemma RewriteSyncs(file: string, ledger: seq<QuarantineRecord>, f: LedgerFaults)
    requires RewriteWorks(ledger, f)
    ensures Rewritten(file, ledger, f) == LedgerText(ledger)
  {
    var text := LedgerText(ledger);
    assert text[..|text|] == text;
  }

  /** A restore or shred whose rewrite works brings the file back in step, whatever was wrong with it. */
  lemma RewriteRepairs(cfg: Config, s: State, op: Op)
    requires (op.DoRestore? || op.DoShred?) && WritesWork(cfg, s, op) && Step(cfg, s, op).1.ledger != s.ledger
    ensures InSync(Step(cfg, s, op).1)
  {
    hide RewriteWorks, Rewritten, LedgerText, CanRestore, MovesBack, AfterMoveBack, AfterErase, AfterQuarantine;
    var t := Step(cfg, s, op).1;
    RewriteSyncs(s.ledgerFile, t.ledger, op.faults.ledger);
  }

  /** Every call whose write works keeps the file in step. */
  lemma StepKeepsSync(cfg: Config, s: State, op: Op)
    requires InSync(s) && WritesWork(cfg, s, op)
    ensures InSync(Step(cfg, s, op).1)
  {
    match op
    case DoQuarantine(c, now, f) => QuarantineKeepsSync(cfg, s, c, now, f);
    case Elsewhere(_) =>
    case _ =>
      var t := Step(cfg, s, op).1;
      if t.ledger != s.ledger {
        RewriteRepairs(cfg, s, op);
      } else {
        NoChangeNoRewrite(s, op.id, op.faults);
      }
  }

  /** A changed record differs from what it was, so its rewrite is never taken for no change. */
  lemma NoChangeNoRewrite(s: State, id: nat, f: Faults)
    ensures AfterRestore(s, id, f).1.ledger == s.ledger ==> AfterRestore(s, id, f).1.ledgerFile == s.ledgerFile
    ensures AfterShred(s, id, f).1.ledger == s.ledger ==> AfterShred(s, id, f).1.ledgerFile == s.ledgerFile
  {
    var i := IndexOf(s.ledger, id);
    if i < |s.ledger| {
      var r := s.ledger[i];
      assert s.ledger[i := r.(restored := true)][i] == r.(restored := true);
      assert s.ledger[i := r.(shredded := true)][i] == r.(shredded := true);
    }
  }

  // ---- Records that can be stored ----

  /** The hash is text without bars and newlines; hexadecimal digits are. */
  ghost predicate CleanConfig(cfg: Config) {
    Clean(cfg.vaultDir) && forall bytes :: Clean(cfg.hash(bytes))
  }

  predicate InRange(op: Op) {
    op.DoQuarantine? ==> op.candidate.findingId < TWO_64 && FitsInt64(op.now)
  }

  predicate TextStorable(r: QuarantineRecord) {
    r.findingId < TWO_64 && FitsInt64(r.quarantinedAt) && Clean(r.originalPath) && Clean(r.vaultPath) && Clean(r.sha256)
  }

  predicate AllTextStorable(ledger: seq<QuarantineRecord>) {
    forall i :: 0 <= i < |ledger| ==> TextStorable(ledger[i])
  }

  lemma VaultPathIsClean(dir: string, id: nat)
    requires Clean(dir)
    ensures Clean(VaultPath(dir, id))
  {
    DigitsAreClean(id, 0);
    hide ToString;
    assert Clean("/q_") && Clean(".gcadq");
  }

  lemma StepKeepsStorable(cfg: Config, s: State, op: Op)
    requires CleanConfig(cfg) && InRange(op) && AllTextStorable(s.ledger)
    ensures AllTextStorable(Step(cfg, s, op).1.ledger)
  {
    var t := Step(cfg, s, op).1;
    VaultPathIsClean(cfg.vaultDir, s.nextId);
    hide Clean, VaultPath, AfterMove, Moves, LedgerLine, CanRestore, MovesBack, AfterMoveBack, AfterErase, Rewritten,
         Appended;
    match op
    case DoQuarantine(c, now, f) =>
      if t.ledger != s.ledger { assert TextStorable(t.ledger[|s.ledger|]); }
    case _ =>
  }

  // ---- Runs whose writes work ----

  ghost predicate Durable(cfg: Config, s: State, ops: seq<Op>) {
    && AllOutside(cfg, ops)
    && forall i :: 0 <= i < |ops| ==> InRange(ops[i]) && WritesWork(cfg, Run(cfg, s, ops[..i]), ops[i])
  }

  lemma DurableBefore(cfg: Config, s: State, ops: seq<Op>)
    requires Durable(cfg, s, ops) && |ops| > 0
    ensures Durable(cfg, s, ops[..|ops| - 1])
  {
    hide WritesWork, Run;
    var before := ops[..|ops| - 1];
    forall i | 0 <= i < |before| ensures WritesWork(cfg, Run(cfg, s, before[..i]), before[i]) {
      assert before[..i] == ops[..i] && before[i] == ops[i];
    }
  }

  lemma {:induction false} RunKeepsSync(cfg: Config, s: State, ops: seq<Op>)
    requires CleanConfig(cfg) && InSync(s) && AllTextStorable(s.ledger) && Durable(cfg, s, ops)
    ensures InSync(Run(cfg, s, ops)) && AllTextStorable(Run(cfg, s, ops).ledger)
  {
    if |ops| > 0 {
      DurableBefore(cfg, s, ops);
      var before, op := ops[..|ops| - 1], ops[|ops| - 1];
      RunKeepsSync(cfg, s, before);
      assert InRange(op) && WritesWork(cfg, Run(cfg, s, before), op);
      StepKeepsSync(cfg, Run(cfg, s, before), op);
      StepKeepsStorable(cfg, Run(cfg, s, before), op);
    }
  }

  /** How a process begins: a valid vault, a ledger file that is in step and can be read back, and the next
      id right behind the last one. */
  ghost predicate Started(cfg: Config, s: State) {
    Valid(cfg, s) && InSync(s) && AllTextStorable(s.ledger) && s.nextId == NextFor(s.ledger)
  }

  function NextFor(ledger: seq<QuarantineRecord>): nat {
    if |ledger| == 0 then 1 else ledger[|ledger| - 1].id + 1
  }

  lemma FreshIsStarted(cfg: Config, s: State)
    requires Fresh(cfg, s)
    ensures Started(cfg, s)
  {}

  /** After any such run the ledger file is the concatenation of the records' lines, and a restart finds the
      same records, their times cut to seconds, with the next id above every one of theirs. */
  lemma RestartFindsTheLedger(cfg: Config, s: State, ops: seq<Op>)
    requires CleanConfig(cfg) && Started(cfg, s) && Durable(cfg, s, ops) && Run(cfg, s, ops).nextId < TWO_64
    ensures var t := Run(cfg, s, ops);
            && t.ledgerFile == LedgerText(t.ledger)
            && Load(t.ledgerFile).ledger == AllCut(t.ledger)
            && forall i :: 0 <= i < |t.ledger| ==> t.ledger[i].id < Load(t.ledgerFile).nextId
  {
    RunKeepsSync(cfg, s, ops);
    RunKeepsValid(cfg, s, ops);
    hide Run, Durable, CleanConfig, AllOk, Unused;
    LoadFindsTheLedger(Run(cfg, s, ops));
  }

  lemma LoadFindsTheLedger(t: State)
    requires InSync(t) && AllTextStorable(t.ledger) && Ascending(t.ledger, t.nextId) && t.nextId < TWO_64
    ensures Load(t.ledgerFile).ledger == AllCut(t.ledger)
    ensures forall i :: 0 <= i < |t.ledger| ==> t.ledger[i].id < Load(t.ledgerFile).nextId
  {
    forall i | 0 <= i < |t.ledger| ensures Storable(t.ledger[i]) {
      assert TextStorable(t.ledger[i]);
    }
    hide Load, LedgerText, Storable, TextStorable;
    LoadRebuilds(t.ledger);
    var loaded := Load(t.ledgerFile);
    NextIdAfterLoad(t.ledgerFile);
    assert forall i :: 0 <= i < |t.ledger| ==> loaded.ledger[i].id == t.ledger[i].id;
    assert !HasLargestId(loaded);
  }
}
