/** What a restart finds, and which runs survive one (src/security/quarantine_executor.cpp). */
module QuarantineRestarts {
  import opened Common
  import opened Decimal
  import opened Policy
  import opened Ledger
  import opened Quarantine
  import opened QuarantineRuns
  import opened QuarantineLedger

  // ---- What survives a restart ----

  /** The state in which the next process begins: the constructor reads the ledger file. */
  function Restarted(t: State): State {
    State(Load(t.ledgerFile).ledger, Load(t.ledgerFile).nextId, t.files, t.ledgerFile)
  }

  ghost predicate NoneBetween(cfg: Config, files: Files, low: nat, high: nat) {
    forall id :: low <= id < high ==> VaultPath(cfg.vaultDir, id) !in files
  }

  /** What the ledger file says holds of the vault: its ids ascend, its records are sound, and the ids behind them
      that this process gave out have nothing at their vault paths. */
  ghost predicate FileFits(cfg: Config, t: State) {
    var u := Restarted(t);
    Ascending(u.ledger, u.nextId) && AllOk(cfg, u) && NoneBetween(cfg, t.files, u.nextId, t.nextId)
  }

  /** Whatever became of the writes to it: the vault invariant survives a restart exactly when the file fits. */
  lemma RestartIsValid(cfg: Config, t: State)
    requires Valid(cfg, t)
    ensures Valid(cfg, Restarted(t)) <==> FileFits(cfg, t)
  {
    var u := Restarted(t);
    assert u.files == t.files;
    hide Restarted, AllOk, Ascending, VaultPath;
  }

  /** Ids between the last record and the next id have nothing at their vault paths. */
  ghost predicate Settled(cfg: Config, t: State) {
    NoneBetween(cfg, t.files, NextFor(t.ledger), t.nextId)
  }

  // ---- Files that hold whole lines ----

  lemma LoadedNext(text: string, ledger: seq<QuarantineRecord>, n: nat)
    requires Load(text).ledger == AllCut(ledger) && Ascending(ledger, n) && n < TWO_64
    ensures Load(text).nextId == NextFor(ledger)
  {
    var loaded := Load(text);
    assert forall i :: 0 <= i < |ledger| ==> loaded.ledger[i].id == ledger[i].id;
    assert !HasLargestId(loaded);
    NextIdAfterLoad(text);
    LoadedNothing(text);
    hide Load, AllCut;
    if |ledger| > 0 { NextIdAtMost(text, NextFor(ledger)); }
  }

  lemma LoadedNextId(t: State)
    requires InSync(t) && AllTextStorable(t.ledger) && Ascending(t.ledger, t.nextId) && t.nextId < TWO_64
    ensures Load(t.ledgerFile).nextId == NextFor(t.ledger)
  {
    LoadFindsTheLedger(t);
    hide Load, LedgerText, TextStorable;
    LoadedNext(t.ledgerFile, t.ledger, t.nextId);
  }

  lemma TextOfCut(ledger: seq<QuarantineRecord>)
    ensures LedgerText(AllCut(ledger)) == LedgerText(ledger)
  {
    if |ledger| > 0 {
      var before, last := ledger[..|ledger| - 1], ledger[|ledger| - 1];
      assert ledger == before + [last];
      TextOfCut(before);
      CutSnoc(before, last);
      TextSnoc(before, last);
      TextSnoc(AllCut(before), CutToSeconds(last));
      CutTwice(last);
      assert LedgerLine(CutToSeconds(last)) == LedgerLine(last) by { SecondsOfCut(last.quarantinedAt); }
    }
  }

  lemma SecondsOfCut(ticks: int)
    ensures Seconds(Seconds(ticks) * TICKS_PER_SECOND) == Seconds(ticks)
  {
    var s := Seconds(ticks);
    assert s >= 0 ==> (s * TICKS_PER_SECOND) / TICKS_PER_SECOND == s;
    assert s < 0 ==> (0 - s * TICKS_PER_SECOND) / TICKS_PER_SECOND == 0 - s;
  }

  lemma CutFits(ticks: int)
    requires FitsInt64(ticks)
    ensures FitsInt64(Seconds(ticks) * TICKS_PER_SECOND)
  {}

  /** The time is all that a restart changes in a record. */
  lemma CutKeepsRecord(cfg: Config, files: Files, r: QuarantineRecord)
    requires TextStorable(r)
    ensures TextStorable(CutToSeconds(r)) && (RecordOk(cfg, files, CutToSeconds(r)) <==> RecordOk(cfg, files, r))
  {
    CutFits(r.quarantinedAt);
    hide Clean, Seconds, VaultPath, InVault;
  }

  /** What of a record a restart cannot break. */
  predicate StaticOk(cfg: Config, r: QuarantineRecord) {
    r.vaultPath == VaultPath(cfg.vaultDir, r.id) && !InVault(cfg, r.originalPath) && !(r.restored && r.shredded)
  }

  ghost predicate FiledOk(cfg: Config, filed: seq<QuarantineRecord>, nextId: nat) {
    && Ascending(filed, nextId) && AllTextStorable(filed)
    && forall i :: 0 <= i < |filed| ==> StaticOk(cfg, filed[i])
  }

  /** Every record that the file calls live is in the vault, and nothing lies behind the last of them. */
  ghost predicate Current(cfg: Config, t: State, filed: seq<QuarantineRecord>) {
    && (forall i :: 0 <= i < |filed| && Live(filed[i]) ==> Kept(cfg, t.files, filed[i]))
    && NoneBetween(cfg, t.files, NextFor(filed), t.nextId)
  }

  /** Whatever else the file may hold: if sound records are read back, the vault invariant survives exactly when
      they are current. */
  lemma LoadedFits(cfg: Config, t: State, filed: seq<QuarantineRecord>)
    requires Valid(cfg, t) && FiledOk(cfg, filed, t.nextId) && t.nextId < TWO_64
    requires Load(t.ledgerFile).ledger == AllCut(filed)
    ensures Restarted(t).ledger == AllCut(filed) && Restarted(t).nextId == NextFor(filed)
    ensures Valid(cfg, Restarted(t)) <==> Current(cfg, t, filed)
  {
    LoadedNext(t.ledgerFile, filed, t.nextId);
    RestartIsValid(cfg, t);
    CutIsOk(cfg, t.files, filed);
    CutAscends(filed);
    var u := Restarted(t);
    assert AllOk(cfg, u) <==> forall i :: 0 <= i < |filed| && Live(filed[i]) ==> Kept(cfg, t.files, filed[i]);
    hide Load, LedgerText, Restarted, AllOk, AllTextStorable, AllCut, Kept, NoneBetween, Unused;
  }

  lemma FiledFits(cfg: Config, t: State, filed: seq<QuarantineRecord>)
    requires Valid(cfg, t) && t.ledgerFile == LedgerText(filed) && FiledOk(cfg, filed, t.nextId) && t.nextId < TWO_64
    ensures Restarted(t).ledger == AllCut(filed) && Restarted(t).nextId == NextFor(filed)
    ensures Valid(cfg, Restarted(t)) <==> Current(cfg, t, filed)
    ensures Current(cfg, t, filed) ==> Started(cfg, Restarted(t))
  {
    var g := t.(ledger := filed);
    assert InSync(g);
    LoadFindsTheLedger(g);
    TextOfCut(filed);
    CutIsOk(cfg, t.files, filed);
    CutAscends(filed);
    LoadedFits(cfg, t, filed);
    assert Restarted(t).ledgerFile == t.ledgerFile;
    hide Load, LedgerText, Restarted, Valid, AllTextStorable, AllCut, Current;
  }

  lemma CutAscends(filed: seq<QuarantineRecord>)
    requires forall i, j :: 0 <= i < j < |filed| ==> filed[i].id < filed[j].id
    ensures Ascending(AllCut(filed), NextFor(filed)) && NextFor(AllCut(filed)) == NextFor(filed)
  {
    hide CutToSeconds;
    assert forall i :: 0 <= i < |filed| ==> AllCut(filed)[i].id == filed[i].id by {
      forall i | 0 <= i < |filed| ensures AllCut(filed)[i].id == filed[i].id { CutKeepsId(filed[i]); }
    }
  }

  lemma CutKeepsId(r: QuarantineRecord)
    ensures CutToSeconds(r).id == r.id
  {}

  lemma CutIsOk(cfg: Config, files: Files, filed: seq<QuarantineRecord>)
    requires AllTextStorable(filed) && forall i :: 0 <= i < |filed| ==> StaticOk(cfg, filed[i])
    ensures AllTextStorable(AllCut(filed))
    ensures (forall i :: 0 <= i < |filed| ==> RecordOk(cfg, files, AllCut(filed)[i]))
            <==> forall i :: 0 <= i < |filed| && Live(filed[i]) ==> Kept(cfg, files, filed[i])
  {
    forall i | 0 <= i < |filed|
      ensures TextStorable(AllCut(filed)[i])
      ensures RecordOk(cfg, files, AllCut(filed)[i]) <==> (Live(filed[i]) ==> Kept(cfg, files, filed[i]))
    {
      assert TextStorable(filed[i]) && StaticOk(cfg, filed[i]);
      CutKeepsRecord(cfg, files, filed[i]);
    }
    hide RecordOk, TextStorable, Live, Kept, StaticOk, CutToSeconds;
  }

  // ---- Writes that work or change nothing ----

  /** The write works, or leaves the file as it was. */
  predicate WholeWrite(cfg: Config, s: State, op: Op) {
    WritesWork(cfg, s, op) || Step(cfg, s, op).1.ledgerFile == s.ledgerFile
  }

  /** The records the file holds after a call, if it held `filed` before. */
  function FiledAfter(cfg: Config, s: State, filed: seq<QuarantineRecord>, op: Op): seq<QuarantineRecord> {
    var t := Step(cfg, s, op).1;
    if t.ledger == s.ledger || !WritesWork(cfg, s, op) then filed
    else if op.DoQuarantine? then filed + [t.ledger[|t.ledger| - 1]]
    else t.ledger
  }

  /** And after a run. A quarantine whose append failed is missing from it until a later rewrite, and a restore or
      shred whose rewrite failed has left the record as it was. */
  function Filed(cfg: Config, s: State, ops: seq<Op>): seq<QuarantineRecord> {
    if |ops| == 0 then s.ledger
    else
      var before := ops[..|ops| - 1];
      FiledAfter(cfg, Run(cfg, s, before), Filed(cfg, s, before), ops[|ops| - 1])
  }

  lemma StepFiles(cfg: Config, s: State, filed: seq<QuarantineRecord>, op: Op)
    requires s.ledgerFile == LedgerText(filed) && WholeWrite(cfg, s, op)
    ensures Step(cfg, s, op).1.ledgerFile == LedgerText(FiledAfter(cfg, s, filed, op))
  {
    var t := Step(cfg, s, op).1;
    hide LedgerLine, LedgerText, AfterQuarantine, AfterRestore, AfterShred, Appended, RewriteWorks, AppendWorks;
    if t.ledger == s.ledger {
      UnchangedLedgerIsNotWritten(cfg, s, op);
    } else if WritesWork(cfg, s, op) {
      if op.DoQuarantine? {
        NewRecordIsAppended(cfg, s, op.candidate, op.now, op.faults);
        AppendSyncs(s.ledgerFile, filed, t.ledger[|t.ledger| - 1], op.faults.ledger);
      } else {
        RewriteRepairs(cfg, s, op);
      }
    }
  }

  lemma UnchangedLedgerIsNotWritten(cfg: Config, s: State, op: Op)
    requires Step(cfg, s, op).1.ledger == s.ledger
    ensures Step(cfg, s, op).1.ledgerFile == s.ledgerFile
  {
    match op
    case DoQuarantine(c, now, f) => hide Admits, Moves, AfterMove, Appended, LedgerLine, VaultPath;
    case DoRestore(id, f) => NoChangeNoRewrite(s, id, f);
    case DoShred(id, f) => NoChangeNoRewrite(s, id, f);
    case Elsewhere(_) =>
  }

  lemma NewRecordIsAppended(cfg: Config, s: State, c: RemediationCandidate, now: int, f: Faults)
    ensures var t := AfterQuarantine(cfg, s, c, now, f).1;
            && s.nextId <= t.nextId
            && (t.ledger != s.ledger ==>
                  && |t.ledger| == |s.ledger| + 1 && t.nextId == s.nextId + 1
                  && var r := t.ledger[|s.ledger|];
                     t.ledger == s.ledger + [r] && r.id == s.nextId
                     && t.ledgerFile == Appended(s.ledgerFile, LedgerLine(r) + "\n", f.ledger))
  {
    hide Admits, Moves, AfterMove, Appended, LedgerLine, VaultPath;
  }

  lemma RecordIsStatic(cfg: Config, t: State, i: nat)
    requires AllOk(cfg, t) && i < |t.ledger|
    ensures StaticOk(cfg, t.ledger[i])
  {
    assert RecordOk(cfg, t.files, t.ledger[i]);
  }

  lemma FiledSnoc(cfg: Config, filed: seq<QuarantineRecord>, r: QuarantineRecord, nextId: nat)
    requires FiledOk(cfg, filed, nextId) && TextStorable(r) && StaticOk(cfg, r) && r.id == nextId
    ensures FiledOk(cfg, filed + [r], nextId + 1)
  {
    hide StaticOk, TextStorable;
  }

  lemma FiledGrows(cfg: Config, filed: seq<QuarantineRecord>, low: nat, high: nat)
    requires FiledOk(cfg, filed, low) && low <= high
    ensures FiledOk(cfg, filed, high)
  {}

  lemma LedgerIsFiledOk(cfg: Config, t: State)
    requires Valid(cfg, t) && AllTextStorable(t.ledger)
    ensures FiledOk(cfg, t.ledger, t.nextId)
  {
    hide StaticOk, TextStorable, AllOk, Unused;
    forall i | 0 <= i < |t.ledger| ensures StaticOk(cfg, t.ledger[i]) { RecordIsStatic(cfg, t, i); }
  }

  lemma StepKeepsFiledOk(cfg: Config, s: State, filed: seq<QuarantineRecord>, op: Op)
    requires CleanConfig(cfg) && InRange(op) && AllTextStorable(s.ledger)
    requires Valid(cfg, s) && TargetsOutside(cfg, op) && FiledOk(cfg, filed, s.nextId)
    ensures var t := Step(cfg, s, op).1;
            FiledOk(cfg, FiledAfter(cfg, s, filed, op), t.nextId) && AllTextStorable(t.ledger) && Valid(cfg, t)
  {
    var t := Step(cfg, s, op).1;
    StepKeepsValid(cfg, s, op);
    StepKeepsStorable(cfg, s, op);
    LedgerIsFiledOk(cfg, t);
    NextIdGrows(cfg, s, op);
    FiledGrows(cfg, filed, s.nextId, t.nextId);
    assert AllOk(cfg, t);
    if op.DoQuarantine? && t.ledger != s.ledger {
      NewRecordIsAppended(cfg, s, op.candidate, op.now, op.faults);
      var n := |s.ledger|;
      assert Step(cfg, s, op) == AfterQuarantine(cfg, s, op.candidate, op.now, op.faults);
      hide AfterQuarantine, Step, StaticOk, TextStorable, RecordOk, WritesWork, InRange, CleanConfig, Valid, AllOk,
           FiledOk, Appended, LedgerLine;
      RecordIsStatic(cfg, t, n);
      assert TextStorable(t.ledger[n]);
      FiledSnoc(cfg, filed, t.ledger[n], s.nextId);
    }
  }

  lemma NextIdGrows(cfg: Config, s: State, op: Op)
    ensures s.nextId <= Step(cfg, s, op).1.nextId
  {
    match op
    case DoQuarantine(c, now, f) => NewRecordIsAppended(cfg, s, c, now, f);
    case DoRestore(id, f) => IdsStay(s, id, f);
    case DoShred(id, f) => IdsStay(s, id, f);
    case Elsewhere(_) =>
  }

  lemma IdsStay(s: State, id: nat, f: Faults)
    ensures AfterRestore(s, id, f).1.nextId == s.nextId && AfterShred(s, id, f).1.nextId == s.nextId
  {}

  // ---- One process ----

  /** A process whose ledger writes each work or leave the file as it was. */
  ghost predicate Whole(cfg: Config, s: State, ops: seq<Op>) {
    && AllOutside(cfg, ops)
    && forall i :: 0 <= i < |ops| ==> InRange(ops[i]) && WholeWrite(cfg, Run(cfg, s, ops[..i]), ops[i])
  }

  lemma WholeBefore(cfg: Config, s: State, ops: seq<Op>)
    requires Whole(cfg, s, ops) && |ops| > 0
    ensures Whole(cfg, s, ops[..|ops| - 1])
    ensures var n := |ops| - 1; InRange(ops[n]) && WholeWrite(cfg, Run(cfg, s, ops[..n]), ops[n])
  {
    hide WholeWrite, Run;
    var before := ops[..|ops| - 1];
    forall i | 0 <= i < |before| ensures WholeWrite(cfg, Run(cfg, s, before[..i]), before[i]) {
      assert before[..i] == ops[..i] && before[i] == ops[i];
    }
  }

  /** The file holds the filed records, and they are sound. */
  ghost predicate FiledWell(cfg: Config, t: State, filed: seq<QuarantineRecord>) {
    && Valid(cfg, t) && AllTextStorable(t.ledger)
    && t.ledgerFile == LedgerText(filed) && FiledOk(cfg, filed, t.nextId)
  }

  lemma StartsWell(cfg: Config, s: State)
    requires Started(cfg, s)
    ensures FiledWell(cfg, s, s.ledger)
  {
    LedgerIsFiledOk(cfg, s);
  }

  lemma StepFilesWell(cfg: Config, s: State, filed: seq<QuarantineRecord>, op: Op)
    requires CleanConfig(cfg) && InRange(op) && TargetsOutside(cfg, op) && WholeWrite(cfg, s, op)
    requires FiledWell(cfg, s, filed)
    ensures FiledWell(cfg, Step(cfg, s, op).1, FiledAfter(cfg, s, filed, op))
  {
    StepFiles(cfg, s, filed, op);
    StepKeepsFiledOk(cfg, s, filed, op);
    hide Step, FiledAfter, Valid, FiledOk, AllTextStorable, LedgerText;
  }

  lemma {:induction false} RunFiles(cfg: Config, s: State, ops: seq<Op>)
    requires CleanConfig(cfg) && Started(cfg, s) && Whole(cfg, s, ops)
    ensures FiledWell(cfg, Run(cfg, s, ops), Filed(cfg, s, ops))
  {
    hide CleanConfig, Started, FiledWell, Step, FiledAfter;
    if |ops| > 0 {
      var n := |ops| - 1;
      WholeBefore(cfg, s, ops);
      assert TargetsOutside(cfg, ops[n]);
      RunFiles(cfg, s, ops[..n]);
      hide Whole, TargetsOutside, WholeWrite, InRange;
      StepFilesWell(cfg, Run(cfg, s, ops[..n]), Filed(cfg, s, ops[..n]), ops[n]);
    } else {
      StartsWell(cfg, s);
    }
  }

  /** Whichever ledger writes of a process fail, as long as those leave the file as it was: the next process finds
      the records last filed, their times cut to seconds, and the vault invariant survives exactly when each of
      those that is live is still in the vault and nothing lies behind the last of them. */
  lemma RestartSurvivesExactly(cfg: Config, s: State, ops: seq<Op>)
    requires CleanConfig(cfg) && Started(cfg, s) && Whole(cfg, s, ops) && Run(cfg, s, ops).nextId < TWO_64
    ensures var t, filed := Run(cfg, s, ops), Filed(cfg, s, ops);
            && Restarted(t).ledger == AllCut(filed)
            && (Valid(cfg, Restarted(t)) <==> Current(cfg, t, filed))
            && (Current(cfg, t, filed) ==> Started(cfg, Restarted(t)))
  {
    RunFiles(cfg, s, ops);
    assert FiledWell(cfg, Run(cfg, s, ops), Filed(cfg, s, ops));
    hide Run, Filed, Valid, AllTextStorable, LedgerText, FiledOk, Restarted, Current, Started, AllCut;
    FiledFits(cfg, Run(cfg, s, ops), Filed(cfg, s, ops));
  }

  /** A quarantine that fails and leaves something at its vault path: the rename fails, and so does the copy,
      leaving a part, or the copy succeeds and neither it nor the original can be removed. */
  predicate Strays(cfg: Config, s: State, op: Op) {
    && op.DoQuarantine? && Admits(cfg, s.files, op.candidate, op.faults) && |s.ledger| < MAX_LEDGER_RECORDS
    && op.faults.renameFails
    && if op.faults.copyFails then op.faults.copyLeft.Some? else op.faults.removeFails && op.faults.cleanupFails
  }

  lemma QuarantineSettles(cfg: Config, s: State, c: RemediationCandidate, now: int, f: Faults)
    requires Valid(cfg, s) && s.nextId >= 1 && !InVault(cfg, c.targetPath)
    ensures var t, strays := AfterQuarantine(cfg, s, c, now, f).1, Strays(cfg, s, DoQuarantine(c, now, f));
            && (|t.ledger| > |s.ledger| ==> Settled(cfg, t) && !strays)
            && (|t.ledger| <= |s.ledger| ==>
                  t.ledger == s.ledger && (Settled(cfg, t) <==> Settled(cfg, s) && !strays))
  {
    var t := AfterQuarantine(cfg, s, c, now, f).1;
    if Admits(cfg, s.files, c, f) && |s.ledger| < MAX_LEDGER_RECORDS {
      var target, vault := c.targetPath, VaultPath(cfg.vaultDir, s.nextId);
      VaultPathInVault(cfg, s.nextId);
      assert vault !in s.files && NextFor(s.ledger) <= s.nextId;
      MoveTouchesTwo(s.files, target, vault, f);
      if !Moves(s.files, target, vault, f) {
        assert vault in t.files <==> Strays(cfg, s, DoQuarantine(c, now, f));
        hide AfterQuarantine, AfterMove, Strays, Moves, Admits, VaultPath, InVault;
        EarlierPathsStay(cfg, s, t.files, target);
        assert NextFor(t.ledger) <= s.nextId < t.nextId;
        assert Settled(cfg, t) ==> vault !in t.files;
      }
    }
  }

  lemma EarlierPathsStay(cfg: Config, s: State, files: Files, target: string)
    requires SameExcept(s.files, files, target, VaultPath(cfg.vaultDir, s.nextId)) && !InVault(cfg, target)
    ensures forall id: nat :: id < s.nextId ==>
              (VaultPath(cfg.vaultDir, id) in files <==> VaultPath(cfg.vaultDir, id) in s.files)
  {
    forall id: nat | id < s.nextId
      ensures VaultPath(cfg.vaultDir, id) in files <==> VaultPath(cfg.vaultDir, id) in s.files
    {
      VaultPathInVault(cfg, id);
      if VaultPath(cfg.vaultDir, id) == VaultPath(cfg.vaultDir, s.nextId) {
        VaultPathsDiffer(cfg.vaultDir, id, s.nextId);
      }
    }
  }

  /** Only the two paths of a record change, and its id is not behind the last one. */
  lemma RecordPathsAreEarlier(cfg: Config, s: State, i: nat, files: Files)
    requires Valid(cfg, s) && i < |s.ledger|
    requires SameExcept(s.files, files, s.ledger[i].originalPath, s.ledger[i].vaultPath)
    ensures forall id: nat :: NextFor(s.ledger) <= id ==>
              (VaultPath(cfg.vaultDir, id) in files <==> VaultPath(cfg.vaultDir, id) in s.files)
  {
    var r := s.ledger[i];
    assert RecordOk(cfg, s.files, r) && r.id < NextFor(s.ledger);
    hide VaultPath, InVault, Kept;
    forall id: nat | NextFor(s.ledger) <= id
      ensures VaultPath(cfg.vaultDir, id) in files <==> VaultPath(cfg.vaultDir, id) in s.files
    {
      VaultPathInVault(cfg, id);
      if VaultPath(cfg.vaultDir, id) == r.vaultPath { VaultPathsDiffer(cfg.vaultDir, id, r.id); }
    }
  }

  lemma RestoreKeepsPaths(s: State, id: nat, f: Faults)
    ensures var i, t := IndexOf(s.ledger, id), AfterRestore(s, id, f).1;
            && t.nextId == s.nextId && |t.ledger| == |s.ledger| && NextFor(t.ledger) == NextFor(s.ledger)
            && if i == |s.ledger| then t.files == s.files
               else SameExcept(s.files, t.files, s.ledger[i].originalPath, s.ledger[i].vaultPath)
  {
    var i := IndexOf(s.ledger, id);
    if i < |s.ledger| && CanRestore(s.files, s.ledger[i], f) { MoveBackTouchesTwo(s.files, s.ledger[i], f); }
    hide AfterMoveBack, CanRestore, MovesBack, Rewritten;
  }

  lemma ShredKeepsPaths(s: State, id: nat, f: Faults)
    ensures var i, t := IndexOf(s.ledger, id), AfterShred(s, id, f).1;
            && t.nextId == s.nextId && |t.ledger| == |s.ledger| && NextFor(t.ledger) == NextFor(s.ledger)
            && if i == |s.ledger| then t.files == s.files
               else SameExcept(s.files, t.files, s.ledger[i].originalPath, s.ledger[i].vaultPath)
  {
    var i := IndexOf(s.ledger, id);
    if i < |s.ledger| { EraseTouchesOne(s.files, s.ledger[i].vaultPath, f); }
    hide AfterErase, Rewritten;
  }

  /** The other calls touch no path of an id behind the last record. */
  lemma OthersKeepSettled(cfg: Config, s: State, op: Op)
    requires Valid(cfg, s) && !op.DoQuarantine?
    ensures var t := Step(cfg, s, op).1;
            |t.ledger| == |s.ledger| && t.nextId == s.nextId && NextFor(t.ledger) == NextFor(s.ledger)
            && (Settled(cfg, t) <==> Settled(cfg, s))
  {
    var t := Step(cfg, s, op).1;
    if op.Elsewhere? {
      forall id: nat ensures VaultPath(cfg.vaultDir, id) in t.files <==> VaultPath(cfg.vaultDir, id) in s.files {
        VaultPathInVault(cfg, id);
      }
    } else {
      if op.DoRestore? { RestoreKeepsPaths(s, op.id, op.faults); } else { ShredKeepsPaths(s, op.id, op.faults); }
      var i := IndexOf(s.ledger, op.id);
      hide AfterRestore, AfterShred, Valid, VaultPath, NextFor, SameExcept;
      if i < |s.ledger| { RecordPathsAreEarlier(cfg, s, i, t.files); }
    }
  }

  lemma StepSettles(cfg: Config, s: State, op: Op)
    requires Valid(cfg, s) && s.nextId >= 1 && TargetsOutside(cfg, op)
    ensures var t := Step(cfg, s, op).1;
            && |s.ledger| <= |t.ledger| && t.nextId >= 1
            && (|s.ledger| < |t.ledger| ==> Settled(cfg, t) && !Strays(cfg, s, op))
            && (|s.ledger| == |t.ledger| ==> (Settled(cfg, t) <==> Settled(cfg, s) && !Strays(cfg, s, op)))
  {
    if op.DoQuarantine? {
      QuarantineSettles(cfg, s, op.candidate, op.now, op.faults);
    } else {
      OthersKeepSettled(cfg, s, op);
    }
  }

  ghost predicate TidyAt(cfg: Config, s: State, ops: seq<Op>, i: nat, size: nat)
    requires i < |ops|
  {
    Strays(cfg, Run(cfg, s, ops[..i]), ops[i]) ==> |Run(cfg, s, ops[..i]).ledger| < size
  }

  /** Every call that left something behind was followed by a quarantine that made a record. */
  ghost predicate Tidy(cfg: Config, s: State, ops: seq<Op>) {
    forall i :: 0 <= i < |ops| ==> TidyAt(cfg, s, ops, i, |Run(cfg, s, ops).ledger|)
  }

  lemma {:induction false} LedgerOnlyGrows(cfg: Config, s: State, ops: seq<Op>, i: nat)
    requires Valid(cfg, s) && s.nextId >= 1 && AllOutside(cfg, ops) && i <= |ops|
    ensures |Run(cfg, s, ops[..i]).ledger| <= |Run(cfg, s, ops).ledger|
    ensures Run(cfg, s, ops).nextId >= 1
    decreases |ops|
  {
    if |ops| > 0 {
      var before, op := ops[..|ops| - 1], ops[|ops| - 1];
      RunKeepsValid(cfg, s, before);
      LedgerOnlyGrows(cfg, s, before, if i < |ops| then i else 0);
      StepSettles(cfg, Run(cfg, s, before), op);
      if i < |ops| { assert before[..i] == ops[..i]; } else { assert ops[..i] == ops; }
    } else {
      assert ops[..i] == ops;
    }
  }

  lemma TidyAtBefore(cfg: Config, s: State, ops: seq<Op>, i: nat, n: nat, size: nat)
    requires i < n <= |ops|
    ensures TidyAt(cfg, s, ops[..n], i, size) <==> TidyAt(cfg, s, ops, i, size)
  {
    hide Strays, Run;
    assert ops[..n][..i] == ops[..i] && ops[..n][i] == ops[i];
  }

  /** A call that makes a record leaves a run tidy; any other does if it was so and the call leaves nothing. */
  lemma TidySnoc(cfg: Config, s: State, before: seq<Op>, op: Op)
    requires Valid(cfg, s) && s.nextId >= 1 && AllOutside(cfg, before)
    requires var t, u := Run(cfg, s, before), Run(cfg, s, before + [op]);
             |t.ledger| <= |u.ledger| && (|t.ledger| < |u.ledger| ==> !Strays(cfg, t, op))
    ensures var t, u := Run(cfg, s, before), Run(cfg, s, before + [op]);
            Tidy(cfg, s, before + [op]) <==>
              |t.ledger| < |u.ledger| || (Tidy(cfg, s, before) && !Strays(cfg, t, op))
  {
    var n, ops := |before|, before + [op];
    var t, u := Run(cfg, s, before), Run(cfg, s, ops);
    assert ops[..n] == before && ops[n] == op;
    assert TidyAt(cfg, s, ops, n, |u.ledger|) <==> (Strays(cfg, t, op) ==> |t.ledger| < |u.ledger|);
    forall i | 0 <= i < n
      ensures TidyAt(cfg, s, before, i, |u.ledger|) <==> TidyAt(cfg, s, ops, i, |u.ledger|)
      ensures |t.ledger| < |u.ledger| ==> TidyAt(cfg, s, ops, i, |u.ledger|)
    {
      TidyAtBefore(cfg, s, ops, i, n, |u.ledger|);
      LedgerOnlyGrows(cfg, s, before, i);
    }
    hide TidyAt, Strays, Run;
  }

  lemma {:induction false} RunSettles(cfg: Config, s: State, ops: seq<Op>)
    requires Valid(cfg, s) && s.nextId >= 1 && Settled(cfg, s) && AllOutside(cfg, ops)
    ensures Settled(cfg, Run(cfg, s, ops)) <==> Tidy(cfg, s, ops)
  {
    if |ops| > 0 {
      var before, op := ops[..|ops| - 1], ops[|ops| - 1];
      assert ops == before + [op];
      RunKeepsValid(cfg, s, before);
      LedgerOnlyGrows(cfg, s, before, 0);
      StepSettles(cfg, Run(cfg, s, before), op);
      assert Run(cfg, s, ops) == Step(cfg, Run(cfg, s, before), op).1;
      hide Settled, Strays, Step, Run, Valid, Tidy;
      RunSettles(cfg, s, before);
      TidySnoc(cfg, s, before, op);
    }
  }

  lemma DurableIsWhole(cfg: Config, s: State, ops: seq<Op>)
    requires Durable(cfg, s, ops)
    ensures Whole(cfg, s, ops)
  {
    hide WritesWork, Run, InRange;
  }

  lemma {:induction false} DurableFilesAll(cfg: Config, s: State, ops: seq<Op>)
    requires Durable(cfg, s, ops) && Valid(cfg, s)
    ensures Filed(cfg, s, ops) == Run(cfg, s, ops).ledger
  {
    if |ops| > 0 {
      var n := |ops| - 1;
      DurableBefore(cfg, s, ops);
      DurableFilesAll(cfg, s, ops[..n]);
      if ops[n].DoQuarantine? {
        NewRecordIsAppended(cfg, Run(cfg, s, ops[..n]), ops[n].candidate, ops[n].now, ops[n].faults);
      }
      assert WritesWork(cfg, Run(cfg, s, ops[..n]), ops[n]);
      hide AfterQuarantine, AfterRestore, AfterShred, WritesWork, Durable;
    }
  }

  /** When all of them work, that is in terms of the calls: exactly when every failed move that left something
      behind was followed by a successful quarantine. */
  lemma TidyProcessSurvives(cfg: Config, s: State, ops: seq<Op>)
    requires CleanConfig(cfg) && Started(cfg, s) && Durable(cfg, s, ops) && Run(cfg, s, ops).nextId < TWO_64
    ensures Valid(cfg, Restarted(Run(cfg, s, ops))) <==> Tidy(cfg, s, ops)
  {
    DurableIsWhole(cfg, s, ops);
    DurableFilesAll(cfg, s, ops);
    RestartSurvivesExactly(cfg, s, ops);
    RunKeepsValid(cfg, s, ops);
    RunSettles(cfg, s, ops);
    var t := Run(cfg, s, ops);
    assert forall i :: 0 <= i < |t.ledger| ==> RecordOk(cfg, t.files, t.ledger[i]);
    assert Current(cfg, t, t.ledger) <==> Settled(cfg, t);
  }

  // ---- Many processes, one after the other ----

  /** The state process k begins in. */
  function Begins(cfg: Config, s: State, processes: seq<seq<Op>>, k: nat): State
    requires k <= |processes|
    decreases k, 0
  {
    if k == 0 then s else Restarted(Ends(cfg, s, processes, k - 1))
  }

  /** The state it leaves behind. */
  function Ends(cfg: Config, s: State, processes: seq<seq<Op>>, k: nat): State
    requires k < |processes|
    decreases k, 1
  {
    Run(cfg, Begins(cfg, s, processes, k), processes[k])
  }

  ghost predicate AllProcessesOutside(cfg: Config, processes: seq<seq<Op>>) {
    forall k :: 0 <= k < |processes| ==> AllOutside(cfg, processes[k])
  }

  /** Each of the first k processes, and the next one, finds a valid vault. */
  ghost predicate AllBeginValid(cfg: Config, s: State, processes: seq<seq<Op>>, k: nat)
    requires k <= |processes|
  {
    Valid(cfg, Begins(cfg, s, processes, k)) && (k > 0 ==> AllBeginValid(cfg, s, processes, k - 1))
  }

  /** Each of the first k processes leaves a ledger file that fits. */
  ghost predicate AllFit(cfg: Config, s: State, processes: seq<seq<Op>>, k: nat)
    requires k <= |processes|
  {
    k > 0 ==> FileFits(cfg, Ends(cfg, s, processes, k - 1)) && AllFit(cfg, s, processes, k - 1)
  }

  /** Over any number of processes, whatever fails in them: each finds a valid vault exactly when each one before
      left a ledger file that fits. */
  lemma {:induction false} EveryProcessStartsValid(cfg: Config, s: State, processes: seq<seq<Op>>, k: nat)
    requires Valid(cfg, s) && AllProcessesOutside(cfg, processes) && k <= |processes|
    ensures AllBeginValid(cfg, s, processes, k) <==> AllFit(cfg, s, processes, k)
  {
    if k > 0 {
      var b, e := Begins(cfg, s, processes, k - 1), Ends(cfg, s, processes, k - 1);
      assert Begins(cfg, s, processes, k) == Restarted(e) && e == Run(cfg, b, processes[k - 1]);
      assert AllBeginValid(cfg, s, processes, k - 1) ==> Valid(cfg, b);
      hide Valid, FileFits, Restarted, Run, Begins, Ends;
      EveryProcessStartsValid(cfg, s, processes, k - 1);
      if AllBeginValid(cfg, s, processes, k - 1) {
        RunKeepsValid(cfg, b, processes[k - 1]);
        RestartIsValid(cfg, e);
      }
    }
  }

  /** At any point of any of these processes. */
  lemma ReachedIsValid(cfg: Config, s: State, processes: seq<seq<Op>>, k: nat, n: nat)
    requires Valid(cfg, s) && AllProcessesOutside(cfg, processes) && k < |processes| && n <= |processes[k]|
    requires AllFit(cfg, s, processes, k)
    ensures Valid(cfg, Run(cfg, Begins(cfg, s, processes, k), processes[k][..n]))
  {
    EveryProcessStartsValid(cfg, s, processes, k);
    var b, ops := Begins(cfg, s, processes, k), processes[k];
    assert Valid(cfg, b) && AllOutside(cfg, ops);
    hide Valid, Run, Begins, AllFit, AllBeginValid, TargetsOutside;
    RunKeepsValid(cfg, b, ops[..n]);
  }

  /** Then each live record's bytes are at its own vault path and match its hash, and no record is both restored
      and shredded. */
  lemma LiveRecordsSurviveRestarts(cfg: Config, s: State, processes: seq<seq<Op>>, k: nat, n: nat, i: nat)
    requires Valid(cfg, s) && AllProcessesOutside(cfg, processes) && k < |processes| && n <= |processes[k]|
    requires AllFit(cfg, s, processes, k)
    requires i < |Run(cfg, Begins(cfg, s, processes, k), processes[k][..n]).ledger|
    ensures var t := Run(cfg, Begins(cfg, s, processes, k), processes[k][..n]); var r := t.ledger[i];
            && (!r.restored && !r.shredded ==> Kept(cfg, t.files, r))
            && !(r.restored && r.shredded)
            && (forall j :: 0 <= j < |t.ledger| && j != i ==> t.ledger[j].vaultPath != r.vaultPath)
  {
    ReachedIsValid(cfg, s, processes, k, n);
    hide Begins, AllFit, AllProcessesOutside, Kept;
    var t := Run(cfg, Begins(cfg, s, processes, k), processes[k][..n]);
    LiveRecordsAreKept(cfg, t, [], i);
  }

  /** And no quarantine loses a file, nor a restore that can look at the original path. */
  lemma FilesSurviveRestarts(cfg: Config, s: State, processes: seq<seq<Op>>, k: nat, n: nat)
    requires Valid(cfg, s) && AllProcessesOutside(cfg, processes) && k < |processes| && n < |processes[k]|
    requires AllFit(cfg, s, processes, k)
    requires processes[k][n].DoQuarantine? || (processes[k][n].DoRestore? && !processes[k][n].faults.probeFails)
    ensures var t := Run(cfg, Begins(cfg, s, processes, k), processes[k][..n]);
            KeepsEveryFile(t.files, Step(cfg, t, processes[k][n]).1.files)
  {
    ReachedIsValid(cfg, s, processes, k, n);
    assert AllOutside(cfg, processes[k]);
    hide Begins, AllFit, AllProcessesOutside, Run, Valid, KeepsEveryFile, Step;
    ValidVaultLosesNothing(cfg, Run(cfg, Begins(cfg, s, processes, k), processes[k][..n]), processes[k][n]);
  }

  // ---- Processes after which the file does not fit ----

  /** An id whose move failed is not in the ledger, so a restart gives it out again, even when a copy that
      could not be taken back still lies at its vault path: the vault invariant does not outlive the
      process. */
  lemma RestartForgetsFailedMoves(cfg: Config, s: State, c: RemediationCandidate, now: int, f: Faults)
    requires Valid(cfg, s) && InSync(s) && AllStorable(s.ledger) && s.nextId >= 1
    requires !InVault(cfg, c.targetPath) && Admits(cfg, s.files, c, f) && |s.ledger| < MAX_LEDGER_RECORDS
    requires f.renameFails && !f.copyFails && f.removeFails && f.cleanupFails
    ensures var t := AfterQuarantine(cfg, s, c, now, f).1;
            !Unused(cfg, t.files, Load(t.ledgerFile).nextId)
  {
    var t := AfterQuarantine(cfg, s, c, now, f).1;
    var vault := VaultPath(cfg.vaultDir, s.nextId);
    VaultPathInVault(cfg, s.nextId);
    assert vault != c.targetPath && vault !in s.files && c.targetPath in s.files && s.files[c.targetPath].File?;
    assert Ascending(s.ledger, s.nextId);
    hide Load, LedgerText, LedgerLine, Admits, VaultPath, InVault, Valid, Appended, NewRecord;
    assert vault in t.files && t.ledgerFile == LedgerText(s.ledger);
    hide AfterQuarantine, AfterMove;
    LoadRebuilds(s.ledger);
    NextIdAtMost(t.ledgerFile, s.nextId);
  }

  /** A quarantine whose append cannot open the ledger reports success all the same. After a restart its id is the
      next one again, while its file is at that id's vault path. */
  lemma FailedAppendReusesId(cfg: Config, s: State, c: RemediationCandidate, now: int, f: Faults)
    requires Started(cfg, s) && s.nextId < TWO_64 && !InVault(cfg, c.targetPath)
    requires AfterQuarantine(cfg, s, c, now, f).0 == OK && f.ledger.openFails
    ensures var t := AfterQuarantine(cfg, s, c, now, f).1; var vault := VaultPath(cfg.vaultDir, s.nextId);
            && Restarted(t).nextId == s.nextId && c.targetPath in s.files
            && vault in t.files && t.files[vault] == s.files[c.targetPath]
            && !Valid(cfg, Restarted(t))
  {
    var t, vault := AfterQuarantine(cfg, s, c, now, f).1, VaultPath(cfg.vaultDir, s.nextId);
    VaultPathInVault(cfg, s.nextId);
    MoveKeepsBytes(s.files, c.targetPath, vault, f);
    LoadedNextId(s);
    assert t.ledgerFile == s.ledgerFile;
    assert Restarted(t).files == t.files;
    hide AfterMove, Load, VaultPath, InVault, AllOk, Ascending;
  }

  /** The next process's first quarantine then loses that file, if it was the only copy. */
  lemma NextQuarantineLoses(cfg: Config, s: State, c: RemediationCandidate, now: int, f: Faults,
                            d: RemediationCandidate, later: int, g: Faults)
    requires Started(cfg, s) && s.nextId < TWO_64 && !InVault(cfg, c.targetPath)
    requires AfterQuarantine(cfg, s, c, now, f).0 == OK && f.ledger.openFails
    requires var u := Restarted(AfterQuarantine(cfg, s, c, now, f).1);
             && Admits(cfg, u.files, d, g) && |u.ledger| < MAX_LEDGER_RECORDS && !g.renameFails
             && !InVault(cfg, d.targetPath)
             && VaultPath(cfg.vaultDir, s.nextId) in u.files
             && !HasOtherCopy(u.files, VaultPath(cfg.vaultDir, s.nextId))
    ensures var u := Restarted(AfterQuarantine(cfg, s, c, now, f).1);
            !KeepsEveryFile(u.files, AfterQuarantine(cfg, u, d, later, g).1.files)
  {
    FailedAppendReusesId(cfg, s, c, now, f);
    var u := Restarted(AfterQuarantine(cfg, s, c, now, f).1);
    VaultPathInVault(cfg, s.nextId);
    assert s.files[c.targetPath].File?;
    QuarantineLosesExactly(cfg, u, d, later, g);
    hide KeepsEveryFile, HasOtherCopy, AfterQuarantine, Restarted, VaultPath, InVault;
  }

  // ---- A quarantine that loses a file ----

  const NO_LEDGER: Faults := NO_FAULTS.(ledger := NO_FAULTS.ledger.(openFails := true))

  /** The one process quarantines p and cannot open its ledger; the next one quarantines q. */
  function LosingProcesses(p: string, q: string): seq<seq<Op>> {
    [[DoQuarantine(ApprovedFor(p), 0, NO_LEDGER)], [DoQuarantine(ApprovedFor(q), 0, NO_LEDGER)]]
  }

  lemma RunOfOne(cfg: Config, s: State, op: Op)
    ensures Run(cfg, s, [op]) == Step(cfg, s, op).1
  {
    hide Step;
    assert [op][..0] == [] && Run(cfg, s, []) == s;
  }

  lemma OneMoves(cfg: Config, files: Files, path: string, bytes: seq<byte>)
    requires Quarantinable(cfg, path, bytes) && path in files && files[path] == File(bytes)
    ensures var (code, t) := AfterQuarantine(cfg, State([], 1, files, ""), ApprovedFor(path), 0, NO_LEDGER);
            code == OK && t.files == Renamed(files, path, VaultPath(cfg.vaultDir, 1)) && t.ledgerFile == ""
  {
    hide VaultPath, InVault, IsProtected, Clean, LedgerLine, Renamed;
    assert Admits(cfg, files, ApprovedFor(path), NO_LEDGER);
  }

  lemma RestartedEmpty(t: State)
    requires t.ledgerFile == ""
    ensures Restarted(t) == State([], 1, t.files, "")
  {
    NoLines(NOTHING_LOADED);
  }

  lemma LosingProcessFiles(cfg: Config, p: string, q: string, a: seq<byte>, b: seq<byte>)
    requires Quarantinable(cfg, p, a) && Quarantinable(cfg, q, b) && p != q
    ensures var s, processes := State([], 1, map[p := File(a), q := File(b)], ""), LosingProcesses(p, q);
            var vault := VaultPath(cfg.vaultDir, 1);
            && Step(cfg, s, processes[0][0]).0 == OK
            && Step(cfg, Begins(cfg, s, processes, 1), processes[1][0]).0 == OK
            && Begins(cfg, s, processes, 1).files == map[vault := File(a), q := File(b)]
            && Ends(cfg, s, processes, 1).files == map[vault := File(b)]
  {
    var s, processes := State([], 1, map[p := File(a), q := File(b)], ""), LosingProcesses(p, q);
    var vault := VaultPath(cfg.vaultDir, 1);
    VaultPathInVault(cfg, 1);
    OneMoves(cfg, s.files, p, a);
    assert Renamed(s.files, p, vault) == map[vault := File(a), q := File(b)];
    RunOfOne(cfg, s, processes[0][0]);
    assert Begins(cfg, s, processes, 0) == s;
    var t := Ends(cfg, s, processes, 0);
    RestartedEmpty(t);
    var u := Begins(cfg, s, processes, 1);
    assert u == Restarted(t);
    OneMoves(cfg, u.files, q, b);
    assert Renamed(u.files, q, vault) == map[vault := File(b)];
    RunOfOne(cfg, u, processes[1][0]);
  }

  /** So with any two files: from a fresh vault, two quarantines that both report success lose the first file. */
  lemma QuarantineCanLose(cfg: Config, p: string, q: string, a: seq<byte>, b: seq<byte>)
    requires Quarantinable(cfg, p, a) && Quarantinable(cfg, q, b) && p != q && a != b
    ensures var s, processes := State([], 1, map[p := File(a), q := File(b)], ""), LosingProcesses(p, q);
            && Fresh(cfg, s) && AllProcessesOutside(cfg, processes)
            && Step(cfg, s, processes[0][0]).0 == OK
            && Step(cfg, Begins(cfg, s, processes, 1), processes[1][0]).0 == OK
            && Holds(Begins(cfg, s, processes, 1).files, a) && !Holds(Ends(cfg, s, processes, 1).files, a)
  {
    LosingProcessFiles(cfg, p, q, a, b);
    var s := State([], 1, map[p := File(a), q := File(b)], "");
    FreshFiles(cfg, s.files);
    hide VaultPath, Begins, Ends, Step;
    assert Begins(cfg, s, LosingProcesses(p, q), 1).files[VaultPath(cfg.vaultDir, 1)] == File(a);
  }
}
