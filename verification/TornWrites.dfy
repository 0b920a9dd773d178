/** The vault after ledger writes that stop part-way (src/security/quarantine_executor.cpp). */
module TornWrites {
  import opened Common
  import opened Decimal
  import opened Policy
  import opened Ledger
  import opened Quarantine
  import opened QuarantineRuns
  import opened QuarantineLedger
  import opened QuarantineRestarts
  import opened TornLedger

  // ---- A torn append ----

  /** How much of its line a quarantine got into the ledger. */
  function Written(r: QuarantineRecord, f: LedgerFaults): nat {
    if f.openFails then 0 else Min(f.written, |LedgerLine(r)| + 1)
  }

  lemma AppendedLoads(text: string, r: QuarantineRecord, f: LedgerFaults)
    requires EndsLine(text) && Storable(r) && Live(r)
    ensures Load(Appended(text, LedgerLine(r) + "\n", f)) ==
            Add(Load(text), if Written(r, f) >= Readable(r) then Some(CutToSeconds(r)) else None)
  {
    var w := Written(r, f);
    assert Appended(text, LedgerLine(r) + "\n", f) == text + (LedgerLine(r) + "\n")[..w];
    assert TornRecord(r, w) == if w >= Readable(r) then Some(CutToSeconds(r)) else None;
    hide LedgerLine, Load, EndsLine, Storable, TornRecord, Readable;
    LastLineLoads(text, r, w);
  }

  lemma QuarantinedRecord(cfg: Config, s: State, c: RemediationCandidate, now: int, f: Faults)
    requires Valid(cfg, s) && !InVault(cfg, c.targetPath) && AfterQuarantine(cfg, s, c, now, f).0 == OK
    ensures var t, r := AfterQuarantine(cfg, s, c, now, f).1, NewRecord(cfg, s.files, s.nextId, c, now);
            && t.ledger == s.ledger + [r] && t.nextId == s.nextId + 1
            && t.ledgerFile == Appended(s.ledgerFile, LedgerLine(r) + "\n", f.ledger)
            && VaultPath(cfg.vaultDir, s.nextId) in t.files
  {
    VaultPathInVault(cfg, s.nextId);
    MoveKeepsBytes(s.files, c.targetPath, VaultPath(cfg.vaultDir, s.nextId), f);
    hide LedgerLine, AfterMove, VaultPath, InVault, Appended, Moves;
  }

  lemma NewRecordIsStorable(cfg: Config, s: State, c: RemediationCandidate, now: int, f: Faults)
    requires CleanConfig(cfg) && InRange(DoQuarantine(c, now, f)) && s.nextId < TWO_64
    requires AfterQuarantine(cfg, s, c, now, f).0 == OK
    ensures var r := NewRecord(cfg, s.files, s.nextId, c, now);
            Storable(r) && TextStorable(r) && Live(r) && r.id == s.nextId
  {
    VaultPathIsClean(cfg.vaultDir, s.nextId);
    hide VaultPath, Clean, AfterMove, Moves, Appended, LedgerLine, IsProtected;
    assert Clean(c.targetPath);
  }

  /** The records in the file, the new one among them if enough of its line is there. */
  function WithNew(filed: seq<QuarantineRecord>, r: QuarantineRecord, f: LedgerFaults): seq<QuarantineRecord> {
    if Written(r, f) >= Readable(r) then filed + [r] else filed
  }

  lemma FiledLoads(cfg: Config, s: State, filed: seq<QuarantineRecord>)
    requires FiledWell(cfg, s, filed) && s.nextId < TWO_64
    ensures Load(s.ledgerFile).ledger == AllCut(filed) && EndsLine(s.ledgerFile)
  {
    hide Load, LedgerText, AllOk, Unused, EndsLine, AllTextStorable, AllCut, StaticOk;
    LoadFindsTheLedger(s.(ledger := filed));
    TextEndsLine(filed);
  }

  lemma TornAppendLoads(cfg: Config, s: State, filed: seq<QuarantineRecord>, c: RemediationCandidate, now: int,
                        f: Faults)
    requires CleanConfig(cfg) && InRange(DoQuarantine(c, now, f)) && FiledWell(cfg, s, filed) && s.nextId + 1 < TWO_64
    requires !InVault(cfg, c.targetPath) && AfterQuarantine(cfg, s, c, now, f).0 == OK
    ensures var t, r := AfterQuarantine(cfg, s, c, now, f).1, NewRecord(cfg, s.files, s.nextId, c, now);
            && Load(t.ledgerFile).ledger == AllCut(WithNew(filed, r, f.ledger))
            && FiledOk(cfg, WithNew(filed, r, f.ledger), t.nextId) && Valid(cfg, t)
  {
    var t, r := AfterQuarantine(cfg, s, c, now, f).1, NewRecord(cfg, s.files, s.nextId, c, now);
    WellIs(cfg, s, filed);
    hide *;
    QuarantinedRecord(cfg, s, c, now, f);
    NewRecordIsStorable(cfg, s, c, now, f);
    QuarantineKeepsValid(cfg, s, c, now, f);
    LastIsStatic(cfg, t, s.ledger, r);
    FiledLoads(cfg, s, filed);
    WithNewIsFiled(cfg, filed, r, f.ledger, s.nextId);
    AppendedLoads(s.ledgerFile, r, f.ledger);
    WithNewLoads(filed, r, f.ledger, Load(s.ledgerFile));
  }

  lemma WithNewIsFiled(cfg: Config, filed: seq<QuarantineRecord>, r: QuarantineRecord, f: LedgerFaults, n: nat)
    requires FiledOk(cfg, filed, n) && TextStorable(r) && StaticOk(cfg, r) && r.id == n
    ensures FiledOk(cfg, WithNew(filed, r, f), n + 1)
  {
    hide FiledOk, TextStorable, StaticOk, Written, Readable;
    FiledSnoc(cfg, filed, r, n);
    FiledGrows(cfg, filed, n, n + 1);
  }

  lemma WellIs(cfg: Config, s: State, filed: seq<QuarantineRecord>)
    requires FiledWell(cfg, s, filed)
    ensures Valid(cfg, s) && FiledOk(cfg, filed, s.nextId)
  {}

  lemma LastIsStatic(cfg: Config, t: State, before: seq<QuarantineRecord>, r: QuarantineRecord)
    requires Valid(cfg, t) && t.ledger == before + [r]
    ensures StaticOk(cfg, r)
  {
    hide StaticOk, Unused, Ascending;
    assert t.ledger[|before|] == r;
    RecordIsStatic(cfg, t, |before|);
  }

  lemma WithNewLoads(filed: seq<QuarantineRecord>, r: QuarantineRecord, f: LedgerFaults, loaded: Loaded)
    requires loaded.ledger == AllCut(filed)
    ensures WithNew(filed, r, f) == if Written(r, f) >= Readable(r) then filed + [r] else filed
    ensures Add(loaded, if Written(r, f) >= Readable(r) then Some(CutToSeconds(r)) else None).ledger
            == AllCut(WithNew(filed, r, f))
  {
    hide Written, Readable, CutToSeconds, AllCut;
    CutSnoc(filed, r);
  }

  /** The records are current exactly when the new one is among them and the others are in the vault. */
  lemma CurrentWithNew(cfg: Config, t: State, filed: seq<QuarantineRecord>, r: QuarantineRecord, f: LedgerFaults)
    requires |t.ledger| > 0 && t.ledger[|t.ledger| - 1] == r && AllOk(cfg, t)
    requires t.nextId == r.id + 1 && VaultPath(cfg.vaultDir, r.id) in t.files
    requires r.id >= 1 && forall i :: 0 <= i < |filed| ==> filed[i].id < r.id
    ensures Current(cfg, t, WithNew(filed, r, f)) <==>
              && Written(r, f) >= Readable(r)
              && forall i :: 0 <= i < |filed| && Live(filed[i]) ==> Kept(cfg, t.files, filed[i])
  {
    var more := WithNew(filed, r, f);
    assert RecordOk(cfg, t.files, r);
    hide Written, Readable, Kept, VaultPath, InVault;
    if Written(r, f) >= Readable(r) {
      assert forall i :: 0 <= i < |filed| ==> more[i] == filed[i];
      assert NoneBetween(cfg, t.files, NextFor(more), t.nextId);
    } else {
      assert more == filed && NextFor(filed) <= r.id < t.nextId;
    }
  }

  /** After any process whose writes worked or changed nothing, and a last quarantine whose append got however far:
      the next process finds the records filed before, and the new one exactly when its line got past the sixth
      bar; and it finds a valid vault exactly when that is so and the other live records on file are in the
      vault. */
  lemma TornAppendSurvives(cfg: Config, s: State, ops: seq<Op>, c: RemediationCandidate, now: int, f: Faults)
    requires CleanConfig(cfg) && Started(cfg, s) && Whole(cfg, s, ops) && Run(cfg, s, ops).nextId + 1 < TWO_64
    requires InRange(DoQuarantine(c, now, f)) && !InVault(cfg, c.targetPath)
    requires AfterQuarantine(cfg, Run(cfg, s, ops), c, now, f).0 == OK
    ensures var m, filed := Run(cfg, s, ops), Filed(cfg, s, ops);
            var t, r := AfterQuarantine(cfg, m, c, now, f).1, NewRecord(cfg, m.files, m.nextId, c, now);
            && t.ledger == m.ledger + [r]
            && Restarted(t).ledger == AllCut(WithNew(filed, r, f.ledger))
            && (Valid(cfg, Restarted(t)) <==>
                  && Written(r, f.ledger) >= Readable(r)
                  && forall i :: 0 <= i < |filed| && Live(filed[i]) ==> Kept(cfg, t.files, filed[i]))
  {
    RunFiles(cfg, s, ops);
    assert s.nextId >= 1 && Valid(cfg, s) && AllOutside(cfg, ops);
    hide *;
    LedgerOnlyGrows(cfg, s, ops, 0);
    TornAppendFrom(cfg, Run(cfg, s, ops), Filed(cfg, s, ops), c, now, f);
  }

  lemma TornAppendFrom(cfg: Config, m: State, filed: seq<QuarantineRecord>, c: RemediationCandidate, now: int,
                       f: Faults)
    requires CleanConfig(cfg) && InRange(DoQuarantine(c, now, f)) && FiledWell(cfg, m, filed)
    requires 1 <= m.nextId < TWO_64 - 1
    requires !InVault(cfg, c.targetPath) && AfterQuarantine(cfg, m, c, now, f).0 == OK
    ensures var t, r := AfterQuarantine(cfg, m, c, now, f).1, NewRecord(cfg, m.files, m.nextId, c, now);
            && t.ledger == m.ledger + [r]
            && Restarted(t).ledger == AllCut(WithNew(filed, r, f.ledger))
            && Restarted(t).nextId == NextFor(WithNew(filed, r, f.ledger))
            && (Valid(cfg, Restarted(t)) <==>
                  && Written(r, f.ledger) >= Readable(r)
                  && forall i :: 0 <= i < |filed| && Live(filed[i]) ==> Kept(cfg, t.files, filed[i]))
  {
    var t, r := AfterQuarantine(cfg, m, c, now, f).1, NewRecord(cfg, m.files, m.nextId, c, now);
    assert Valid(cfg, m) && forall i :: 0 <= i < |filed| ==> filed[i].id < m.nextId;
    TornAppendLoads(cfg, m, filed, c, now, f);
    QuarantinedRecord(cfg, m, c, now, f);
    NewRecordIsStorable(cfg, m, c, now, f);
    assert AllOk(cfg, t) && t.ledger[|t.ledger| - 1] == r;
    hide *;
    LoadedFits(cfg, t, WithNew(filed, r, f.ledger));
    CurrentWithNew(cfg, t, filed, r, f.ledger);
  }

  /** From a process's start on everything is on file, so only the new line matters. */
  lemma TornAppendFromStart(cfg: Config, s: State, c: RemediationCandidate, now: int, f: Faults)
    requires CleanConfig(cfg) && InRange(DoQuarantine(c, now, f)) && Started(cfg, s) && s.nextId + 1 < TWO_64
    requires !InVault(cfg, c.targetPath) && AfterQuarantine(cfg, s, c, now, f).0 == OK
    ensures var t, r := AfterQuarantine(cfg, s, c, now, f).1, NewRecord(cfg, s.files, s.nextId, c, now);
            && Restarted(t).nextId == NextFor(WithNew(s.ledger, r, f.ledger))
            && (Valid(cfg, Restarted(t)) <==> Written(r, f.ledger) >= Readable(r))
  {
    StartsWell(cfg, s);
    TornAppendFrom(cfg, s, s.ledger, c, now, f);
    assert Valid(cfg, s);
    QuarantineKeepsValid(cfg, s, c, now, f);
    var t := AfterQuarantine(cfg, s, c, now, f).1;
    forall i | 0 <= i < |s.ledger| && Live(s.ledger[i]) ensures Kept(cfg, t.files, s.ledger[i]) {
      assert RecordOk(cfg, t.files, t.ledger[i]) && t.ledger[i] == s.ledger[i];
    }
  }

  lemma StartedLoads(cfg: Config, s: State)
    requires Started(cfg, s) && s.nextId < TWO_64
    ensures Load(s.ledgerFile) == Loaded(AllCut(s.ledger), NextFor(s.ledger)) && NextFor(s.ledger) == s.nextId
    ensures EndsLine(s.ledgerFile)
  {
    hide Load, LedgerText, AllOk, Unused, EndsLine, AllTextStorable, AllCut;
    LoadedNextId(s);
    LoadFindsTheLedger(s);
    TextEndsLine(s.ledger);
  }

  lemma AppendedIs(text: string, r: QuarantineRecord, f: LedgerFaults)
    ensures Appended(text, LedgerLine(r) + "\n", f) == text + (LedgerLine(r) + "\n")[..Written(r, f)]
  {
    hide LedgerLine;
  }

  /** A torn line is read back, but the append after it is not: the process after next knows neither record, though
      the second append was complete and both calls reported success. */
  lemma TornAppendCostsBoth(cfg: Config, s: State, c: RemediationCandidate, now: int, f: Faults,
                            d: RemediationCandidate, later: int, g: Faults)
    requires CleanConfig(cfg) && InRange(DoQuarantine(c, now, f)) && InRange(DoQuarantine(d, later, g))
    requires Started(cfg, s) && s.nextId + 1 < TWO_64 && !InVault(cfg, c.targetPath) && !InVault(cfg, d.targetPath)
    requires AfterQuarantine(cfg, s, c, now, f).0 == OK
    requires var r := NewRecord(cfg, s.files, s.nextId, c, now);
             Readable(r) <= Written(r, f.ledger) <= |LedgerLine(r)|
    requires var u := Restarted(AfterQuarantine(cfg, s, c, now, f).1);
             var q := NewRecord(cfg, u.files, u.nextId, d, later);
             AfterQuarantine(cfg, u, d, later, g).0 == OK && Written(q, g.ledger) == |LedgerLine(q)| + 1
    ensures var u := Restarted(AfterQuarantine(cfg, s, c, now, f).1);
            var v := AfterQuarantine(cfg, u, d, later, g).1;
            Valid(cfg, u) && Restarted(v).ledger == AllCut(s.ledger) && !Valid(cfg, Restarted(v))
  {
    var t, r := AfterQuarantine(cfg, s, c, now, f).1, NewRecord(cfg, s.files, s.nextId, c, now);
    var u := Restarted(t);
    var q := NewRecord(cfg, u.files, u.nextId, d, later);
    var v := AfterQuarantine(cfg, u, d, later, g).1;
    var w := Written(r, f.ledger);
    assert Valid(cfg, s);
    TornAppendFromStart(cfg, s, c, now, f);
    QuarantinedRecord(cfg, s, c, now, f);
    QuarantinedRecord(cfg, u, d, later, g);
    NewRecordIsStorable(cfg, s, c, now, f);
    NewRecordIsStorable(cfg, u, d, later, g);
    StartedLoads(cfg, s);
    assert u.ledgerFile == t.ledgerFile && u.nextId == s.nextId + 1;
    hide *;
    AppendedIs(s.ledgerFile, r, f.ledger);
    AppendedIs(u.ledgerFile, q, g.ledger);
    PartOfLine(LedgerLine(r), w);
    PartOfLine(LedgerLine(q), |LedgerLine(q)| + 1);
    PastTheId(r);
    JoinedLoads(s.ledgerFile, r, w, q);
    assert Load(v.ledgerFile) == Load(s.ledgerFile);
    TakenId(cfg, v, u.nextId);
  }

  lemma TakenId(cfg: Config, v: State, id: nat)
    requires VaultPath(cfg.vaultDir, id) in v.files && Load(v.ledgerFile).nextId <= id
    ensures Restarted(v).ledger == Load(v.ledgerFile).ledger && !Valid(cfg, Restarted(v))
  {
    hide Load, VaultPath, AllOk, Ascending;
  }

  // ---- A torn rewrite ----

  /** A restore or shred that changed a record, and whose text took the ledger's place as far as it was written. */
  predicate Rewrites(cfg: Config, s: State, op: Op) {
    && (op.DoRestore? || op.DoShred?) && Step(cfg, s, op).1.ledger != s.ledger
    && !op.faults.ledger.openFails && !(op.faults.ledger.renameFails && op.faults.ledger.copyFails)
  }

  lemma RewriteIs(cfg: Config, s: State, op: Op)
    requires Rewrites(cfg, s, op)
    ensures var t := Step(cfg, s, op).1; var text := LedgerText(t.ledger);
            t.nextId == s.nextId && t.ledgerFile == text[..Min(op.faults.ledger.written, |text|)]
  {
    hide LedgerText, CanRestore, MovesBack, AfterMoveBack, AfterErase;
  }

  /** What a torn line keeps of its record. */
  lemma TornRecordKeeps(cfg: Config, r: QuarantineRecord, w: nat)
    requires TextStorable(r) && StaticOk(cfg, r) && TornRecord(r, w).Some?
    ensures var q := TornRecord(r, w).value;
            q.id == r.id && TextStorable(q) && StaticOk(cfg, q) && CutToSeconds(q) == q
  {
    CutFits(r.quarantinedAt);
    CutTwice(r);
    hide Clean, Seconds, Readable, VaultPath, InVault;
  }

  lemma LeftIsFiled(cfg: Config, loaded: seq<QuarantineRecord>, ledger: seq<QuarantineRecord>, w: nat, n: nat)
    requires IsLeft(loaded, ledger, w) && FiledOk(cfg, ledger, n)
    ensures FiledOk(cfg, loaded, n) && AllCut(loaded) == loaded
  {
    forall i | 0 <= i < |loaded|
      ensures loaded[i].id == ledger[i].id && TextStorable(loaded[i]) && StaticOk(cfg, loaded[i])
      ensures CutToSeconds(loaded[i]) == loaded[i]
    {
      assert LeftOf(ledger, i, w) == Some(loaded[i]);
      assert TextStorable(ledger[i]) && StaticOk(cfg, ledger[i]);
      TornRecordKeeps(cfg, ledger[i], w - Offset(ledger, i));
    }
    hide IsLeft, TextStorable, StaticOk, CutToSeconds;
  }

  lemma FiledIsStorable(cfg: Config, ledger: seq<QuarantineRecord>, n: nat)
    requires FiledOk(cfg, ledger, n) && n < TWO_64
    ensures AllStorable(ledger)
  {
    hide StaticOk, Clean;
    forall i | 0 <= i < |ledger| ensures Storable(ledger[i]) { assert TextStorable(ledger[i]); }
  }

  /** However far the rewrite got, and whatever was in the file before: the next process finds exactly the records
      whose lines got past their sixth bars, and a valid vault exactly when these are current. */
  lemma TornRewriteSurvives(cfg: Config, s: State, op: Op)
    requires CleanConfig(cfg) && Valid(cfg, s) && AllTextStorable(s.ledger) && s.nextId < TWO_64
    requires Rewrites(cfg, s, op)
    ensures var t := Step(cfg, s, op).1;
            && IsLeft(Restarted(t).ledger, t.ledger, Min(op.faults.ledger.written, |LedgerText(t.ledger)|))
            && (Valid(cfg, Restarted(t)) <==> Current(cfg, t, Restarted(t).ledger))
  {
    var t := Step(cfg, s, op).1;
    var w := Min(op.faults.ledger.written, |LedgerText(t.ledger)|);
    var loaded := Load(t.ledgerFile).ledger;
    assert InRange(op) && TargetsOutside(cfg, op) && Restarted(t).ledger == loaded;
    hide *;
    RewriteIs(cfg, s, op);
    StepKeepsValid(cfg, s, op);
    StepKeepsStorable(cfg, s, op);
    LedgerIsFiledOk(cfg, t);
    FiledIsStorable(cfg, t.ledger, t.nextId);
    TruncatedLoads(t.ledger, w);
    LeftIsFiled(cfg, loaded, t.ledger, w, t.nextId);
    LoadedFits(cfg, t, loaded);
  }
}
