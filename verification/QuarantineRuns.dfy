/** What holds along every run of quarantine, restore and shred in one process, whichever file-system
    calls fail, as long as nobody else touches the vault and no target lies in it. */
module QuarantineRuns {
  import opened Common
  import opened Decimal
  import opened Policy
  import opened Ledger
  import opened Quarantine

  datatype Op =
    | DoQuarantine(candidate: RemediationCandidate, now: int, faults: Faults)
    | DoRestore(id: nat, faults: Faults)
    | DoShred(id: nat, faults: Faults)
    | Elsewhere(files: Files)   // other programs, outside the vault

  predicate InVault(cfg: Config, path: string) {
    cfg.vaultDir + "/" <= path
  }

  /** The vault as in `vault`, everything else as in `rest`. */
  function Overlay(cfg: Config, vault: Files, rest: Files): Files {
    map path | path in vault.Keys + rest.Keys && (if InVault(cfg, path) then path in vault else path in rest) ::
      if InVault(cfg, path) then vault[path] else rest[path]
  }

  function Step(cfg: Config, s: State, op: Op): (ErrorCode, State) {
    match op
    case DoQuarantine(c, now, f) => AfterQuarantine(cfg, s, c, now, f)
    case DoRestore(id, f) => AfterRestore(s, id, f)
    case DoShred(id, f) => AfterShred(s, id, f)
    case Elsewhere(files) => (OK, s.(files := Overlay(cfg, s.files, files)))
  }

  predicate TargetsOutside(cfg: Config, op: Op) {
    op.DoQuarantine? ==> !InVault(cfg, op.candidate.targetPath)
  }

  // ---- Vault paths ----

  lemma VaultPathsDiffer(dir: string, a: nat, b: nat)
    requires VaultPath(dir, a) == VaultPath(dir, b)
    ensures a == b
  {
    var p := dir + "/q_";
    var x, y := ToString(a), ToString(b);
    hide ToString;
    assert VaultPath(dir, a) == p + x + ".gcadq" && VaultPath(dir, b) == p + y + ".gcadq";
    Middle(p, x, y, ".gcadq");
    ToStringInjective(a, b);
  }

  lemma Middle(p: string, x: string, y: string, z: string)
    requires p + x + z == p + y + z
    ensures x == y
  {
    assert |x| == |y|;
    assert x == (p + x + z)[|p|..|p| + |x|] && y == (p + y + z)[|p|..|p| + |y|];
  }

  lemma VaultPathInVault(cfg: Config, id: nat)
    ensures InVault(cfg, VaultPath(cfg.vaultDir, id))
  {
    assert VaultPath(cfg.vaultDir, id)[..|cfg.vaultDir| + 1] == cfg.vaultDir + "/";
  }

  // ---- The invariant ----

  predicate Live(r: QuarantineRecord) {
    !r.restored && !r.shredded
  }

  /** The bytes a record stands for are at its vault path and match its hash. */
  predicate Kept(cfg: Config, files: Files, r: QuarantineRecord) {
    r.vaultPath in files && files[r.vaultPath].File? && cfg.hash(files[r.vaultPath].bytes) == r.sha256
  }

  predicate RecordOk(cfg: Config, files: Files, r: QuarantineRecord) {
    && r.vaultPath == VaultPath(cfg.vaultDir, r.id) && !InVault(cfg, r.originalPath)
    && !(r.restored && r.shredded)
    && (Live(r) ==> Kept(cfg, files, r))
  }

  predicate Ascending(ledger: seq<QuarantineRecord>, nextId: nat) {
    && (forall i, j :: 0 <= i < j < |ledger| ==> ledger[i].id < ledger[j].id)
    && (forall i :: 0 <= i < |ledger| ==> ledger[i].id < nextId)
  }

  ghost predicate Unused(cfg: Config, files: Files, nextId: nat) {
    forall id :: id >= nextId ==> VaultPath(cfg.vaultDir, id) !in files
  }

  predicate AllOk(cfg: Config, s: State) {
    forall i :: 0 <= i < |s.ledger| ==> RecordOk(cfg, s.files, s.ledger[i])
  }

  ghost predicate Valid(cfg: Config, s: State) {
    Ascending(s.ledger, s.nextId) && AllOk(cfg, s) && Unused(cfg, s.files, s.nextId)
  }

  /** Two records never share a vault path. */
  lemma OwnVaultPath(cfg: Config, s: State, i: nat, j: nat)
    requires Valid(cfg, s) && i < |s.ledger| && j < |s.ledger| && i != j
    ensures s.ledger[i].vaultPath != s.ledger[j].vaultPath
  {
    assert RecordOk(cfg, s.files, s.ledger[i]) && RecordOk(cfg, s.files, s.ledger[j]);
    if s.ledger[i].vaultPath == s.ledger[j].vaultPath {
      VaultPathsDiffer(cfg.vaultDir, s.ledger[i].id, s.ledger[j].id);
    }
  }

  // ---- What each call leaves alone ----

  /** Only the two paths may differ. */
  ghost predicate SameExcept(before: Files, after: Files, a: string, b: string) {
    forall p :: p != a && p != b ==> (p in before <==> p in after) && (p in before ==> after[p] == before[p])
  }

  lemma MoveTouchesTwo(files: Files, target: string, vault: string, f: Faults)
    requires target in files
    ensures SameExcept(files, AfterMove(files, target, vault, f), target, vault)
  {}

  lemma MoveBackTouchesTwo(files: Files, r: QuarantineRecord, f: Faults)
    requires r.vaultPath in files
    ensures SameExcept(files, AfterMoveBack(files, r, f), r.originalPath, r.vaultPath)
  {}

  lemma EraseTouchesOne(files: Files, path: string, f: Faults)
    ensures SameExcept(files, AfterErase(files, path, f), path, path)
  {}

  lemma OthersStayOk(cfg: Config, before: Files, after: Files, a: string, b: string, r: QuarantineRecord)
    requires RecordOk(cfg, before, r) && SameExcept(before, after, a, b)
    requires r.vaultPath != a && r.vaultPath != b
    ensures RecordOk(cfg, after, r)
  {}

  lemma StaysUnused(cfg: Config, before: Files, after: Files, a: string, b: string, nextId: nat, id: nat)
    requires Unused(cfg, before, nextId) && SameExcept(before, after, a, b) && !InVault(cfg, a)
    requires b == VaultPath(cfg.vaultDir, id) && id < nextId
    ensures Unused(cfg, after, nextId)
  {
    forall k | k >= nextId ensures VaultPath(cfg.vaultDir, k) !in after {
      VaultPathInVault(cfg, k);
      if VaultPath(cfg.vaultDir, k) == b { VaultPathsDiffer(cfg.vaultDir, k, id); }
    }
  }

  // ---- Quarantine ----

  lemma MoveKeepsBytes(files: Files, target: string, vault: string, f: Faults)
    requires target in files && files[target].File? && vault !in files && target != vault
    ensures var after := AfterMove(files, target, vault, f);
            if Moves(files, target, vault, f) then target !in after && vault in after && after[vault] == files[target]
            else target in after && after[target] == files[target]
  {}

  lemma QuarantineKeepsValid(cfg: Config, s: State, c: RemediationCandidate, now: int, f: Faults)
    requires Valid(cfg, s) && !InVault(cfg, c.targetPath)
    ensures Valid(cfg, AfterQuarantine(cfg, s, c, now, f).1)
  {
    if Admits(cfg, s.files, c, f) && |s.ledger| < MAX_LEDGER_RECORDS {
      var t := AfterQuarantine(cfg, s, c, now, f).1;
      var vault := VaultPath(cfg.vaultDir, s.nextId);
      var files := AfterMove(s.files, c.targetPath, vault, f);
      var target := c.targetPath;
      assert t.files == files && t.nextId == s.nextId + 1;
      VaultPathInVault(cfg, s.nextId);
      MoveTouchesTwo(s.files, target, vault, f);
      assert vault !in s.files;
      MoveKeepsBytes(s.files, target, vault, f);
      if Moves(s.files, target, vault, f) {
        var r := NewRecord(cfg, s.files, s.nextId, c, now);
        assert t.ledger == s.ledger + [r] && RecordOk(cfg, files, r);
      }
      hide Admits, AfterMove, AfterQuarantine, VaultPath, InVault, RecordOk, Moves;
      forall i | 0 <= i < |s.ledger| ensures RecordOk(cfg, files, s.ledger[i]) {
        RecordElsewhere(cfg, s, i, target, vault);
        OthersStayOk(cfg, s.files, files, target, vault, s.ledger[i]);
      }
      assert Unused(cfg, s.files, s.nextId + 1);
      StaysUnused(cfg, s.files, files, target, vault, s.nextId + 1, s.nextId);
    }
  }

  lemma RecordElsewhere(cfg: Config, s: State, i: nat, target: string, vault: string)
    requires Valid(cfg, s) && i < |s.ledger| && !InVault(cfg, target) && vault == VaultPath(cfg.vaultDir, s.nextId)
    ensures s.ledger[i].vaultPath != target && s.ledger[i].vaultPath != vault
  {
    var r := s.ledger[i];
    assert RecordOk(cfg, s.files, r);
    VaultPathInVault(cfg, r.id);
    if r.vaultPath == vault { VaultPathsDiffer(cfg.vaultDir, r.id, s.nextId); }
  }

  // ---- Restore and shred ----

  /** One record changes, and only files at its own two paths. */
  lemma RecordChangeKeepsValid(cfg: Config, s: State, i: nat, r: QuarantineRecord, files: Files, ledgerFile: string)
    requires Valid(cfg, s) && i < |s.ledger| && r.id == s.ledger[i].id
    requires SameExcept(s.files, files, s.ledger[i].originalPath, s.ledger[i].vaultPath)
    requires RecordOk(cfg, files, r)
    ensures Valid(cfg, State(s.ledger[i := r], s.nextId, files, ledgerFile))
  {
    var was := s.ledger[i];
    assert RecordOk(cfg, s.files, was);
    var t := State(s.ledger[i := r], s.nextId, files, ledgerFile);
    forall k | 0 <= k < |t.ledger| ensures RecordOk(cfg, files, t.ledger[k]) {
      if k != i {
        OwnVaultPath(cfg, s, k, i);
        assert RecordOk(cfg, s.files, s.ledger[k]);
        VaultPathInVault(cfg, s.ledger[k].id);
        OthersStayOk(cfg, s.files, files, was.originalPath, was.vaultPath, s.ledger[k]);
      }
    }
    StaysUnused(cfg, s.files, files, was.originalPath, was.vaultPath, s.nextId, was.id);
  }

  lemma MoveBackKeepsBytes(files: Files, r: QuarantineRecord, f: Faults)
    requires r.vaultPath in files && files[r.vaultPath].File? && r.originalPath != r.vaultPath
    ensures var after := AfterMoveBack(files, r, f);
            if MovesBack(files, r, f) then r.originalPath in after && after[r.originalPath] == files[r.vaultPath]
            else r.vaultPath in after && after[r.vaultPath] == files[r.vaultPath]
  {}

  lemma RestoreKeepsValid(cfg: Config, s: State, id: nat, f: Faults)
    requires Valid(cfg, s)
    ensures Valid(cfg, AfterRestore(s, id, f).1)
  {
    var i := IndexOf(s.ledger, id);
    if i < |s.ledger| && Live(s.ledger[i]) && CanRestore(s.files, s.ledger[i], f) {
      var r := s.ledger[i];
      assert RecordOk(cfg, s.files, r);
      VaultPathInVault(cfg, r.id);
      var files := AfterMoveBack(s.files, r, f);
      MoveBackTouchesTwo(s.files, r, f);
      MoveBackKeepsBytes(s.files, r, f);
      var t := AfterRestore(s, id, f).1;
      var after := if MovesBack(s.files, r, f) then r.(restored := true) else r;
      assert t == State(s.ledger[i := after], s.nextId, files, t.ledgerFile) by {
        if !MovesBack(s.files, r, f) { assert s.ledger[i := r] == s.ledger; }
      }
      RecordChangeKeepsValid(cfg, s, i, after, files, t.ledgerFile);
    }
  }

  lemma ShredKeepsValid(cfg: Config, s: State, id: nat, f: Faults)
    requires Valid(cfg, s)
    ensures Valid(cfg, AfterShred(s, id, f).1)
  {
    var i := IndexOf(s.ledger, id);
    if i < |s.ledger| && Live(s.ledger[i]) {
      var r := s.ledger[i];
      assert RecordOk(cfg, s.files, r);
      EraseTouchesOne(s.files, r.vaultPath, f);
      var t := AfterShred(s, id, f).1;
      RecordChangeKeepsValid(cfg, s, i, r.(shredded := true), t.files, t.ledgerFile);
    }
  }

  lemma ElsewhereKeepsValid(cfg: Config, s: State, files: Files)
    requires Valid(cfg, s)
    ensures Valid(cfg, s.(files := Overlay(cfg, s.files, files)))
  {
    var after := Overlay(cfg, s.files, files);
    forall p | InVault(cfg, p) ensures (p in s.files <==> p in after) && (p in s.files ==> after[p] == s.files[p]) {}
    forall id | id >= s.nextId ensures VaultPath(cfg.vaultDir, id) !in after { VaultPathInVault(cfg, id); }
    forall i | 0 <= i < |s.ledger| ensures RecordOk(cfg, after, s.ledger[i]) {
      assert RecordOk(cfg, s.files, s.ledger[i]);
      VaultPathInVault(cfg, s.ledger[i].id);
    }
  }

  lemma StepKeepsValid(cfg: Config, s: State, op: Op)
    requires Valid(cfg, s) && TargetsOutside(cfg, op)
    ensures Valid(cfg, Step(cfg, s, op).1)
  {
    match op
    case DoQuarantine(c, now, f) => QuarantineKeepsValid(cfg, s, c, now, f);
    case DoRestore(id, f) => RestoreKeepsValid(cfg, s, id, f);
    case DoShred(id, f) => ShredKeepsValid(cfg, s, id, f);
    case Elsewhere(files) => ElsewhereKeepsValid(cfg, s, files);
  }

  // ---- No call but shred loses a file ----

  ghost predicate Holds(files: Files, bytes: seq<byte>) {
    exists p :: p in files && files[p] == File(bytes)
  }

  ghost predicate KeepsEveryFile(before: Files, after: Files) {
    forall bytes :: Holds(before, bytes) ==> Holds(after, bytes)
  }

  /** The same bytes are somewhere else as well. */
  ghost predicate HasOtherCopy(files: Files, path: string)
    requires path in files
  {
    exists p :: p in files && p != path && files[p] == files[path]
  }

  /** The path of a file that a call's rename goes over, if there is one: at the vault path of a quarantine, or
      at the original path of a restore whose look there failed, so that the file was not noticed. */
  function Overwritten(cfg: Config, s: State, op: Op): (path: Option<string>)
    ensures path.Some? ==> path.value in s.files && s.files[path.value].File?
  {
    match op
    case DoQuarantine(c, now, f) =>
      var vault := VaultPath(cfg.vaultDir, s.nextId);
      if Admits(cfg, s.files, c, f) && |s.ledger| < MAX_LEDGER_RECORDS && !f.renameFails
         && vault != c.targetPath && vault in s.files && s.files[vault].File?
      then Some(vault) else None
    case DoRestore(id, f) =>
      var i := IndexOf(s.ledger, id);
      if i == |s.ledger| then None
      else
        var r := s.ledger[i];
        if Live(r) && CanRestore(s.files, r, f) && !f.renameFails
           && r.originalPath != r.vaultPath && r.originalPath in s.files && s.files[r.originalPath].File?
        then Some(r.originalPath) else None
    case _ => None
  }

  /** Every file of `before` is where it was or at one of the two paths. */
  lemma KeepsFiles(before: Files, after: Files, a: string, b: string)
    requires SameExcept(before, after, a, b)
    requires a in before && before[a].File? ==> Holds(after, before[a].bytes)
    requires b in before && before[b].File? ==> Holds(after, before[b].bytes)
    ensures KeepsEveryFile(before, after)
  {
    forall bytes | Holds(before, bytes) ensures Holds(after, bytes) {
      var p :| p in before && before[p] == File(bytes);
      if p != a && p != b { assert p in after && after[p] == File(bytes); }
    }
  }

  /** A rename onto a file loses it exactly when it has no other copy; any other rename loses nothing. */
  lemma RenameLosesExactly(files: Files, from: string, to: string)
    requires from in files
    ensures KeepsEveryFile(files, Renamed(files, from, to))
            <==> (from != to && to in files && files[to].File? ==> HasOtherCopy(files, to))
  {
    var after := Renamed(files, from, to);
    assert after[to] == files[from];
    if from != to && to in files && files[to].File? && !HasOtherCopy(files, to) {
      assert Holds(files, files[to].bytes);
      forall p | p in after ensures after[p] != files[to] {
        if p != to { assert p in files && after[p] == files[p]; }
      }
      assert !Holds(after, files[to].bytes);
    } else {
      if from != to && to in files && files[to].File? {
        var p :| p in files && p != to && files[p] == files[to];
        assert after[if p == from then to else p] == files[to];
      }
      KeepsFiles(files, after, from, to);
    }
  }

  lemma FailedRenameLosesNothing(files: Files, target: string, vault: string, f: Faults)
    requires target in files && f.renameFails
    ensures KeepsEveryFile(files, AfterMove(files, target, vault, f))
  {
    var after := AfterMove(files, target, vault, f);
    if vault in files {
      assert after == files;
    } else {
      MoveTouchesTwo(files, target, vault, f);
      if files[target].File? {
        assert after[if Moves(files, target, vault, f) then vault else target] == files[target];
      }
      KeepsFiles(files, after, target, vault);
    }
  }

  lemma FailedRenameBackLosesNothing(files: Files, r: QuarantineRecord, f: Faults)
    requires r.vaultPath in files && f.renameFails
    ensures KeepsEveryFile(files, AfterMoveBack(files, r, f))
  {
    var after := AfterMoveBack(files, r, f);
    if r.originalPath in files {
      assert after == files;
    } else {
      MoveBackTouchesTwo(files, r, f);
      if files[r.vaultPath].File? {
        assert after[if MovesBack(files, r, f) then r.originalPath else r.vaultPath] == files[r.vaultPath];
      }
      KeepsFiles(files, after, r.originalPath, r.vaultPath);
    }
  }

  lemma QuarantineLosesExactly(cfg: Config, s: State, c: RemediationCandidate, now: int, f: Faults)
    ensures var o := Overwritten(cfg, s, DoQuarantine(c, now, f));
            KeepsEveryFile(s.files, AfterQuarantine(cfg, s, c, now, f).1.files)
            <==> (o.Some? ==> HasOtherCopy(s.files, o.value))
  {
    if Admits(cfg, s.files, c, f) && |s.ledger| < MAX_LEDGER_RECORDS {
      var target, vault := c.targetPath, VaultPath(cfg.vaultDir, s.nextId);
      assert AfterQuarantine(cfg, s, c, now, f).1.files == AfterMove(s.files, target, vault, f);
      if f.renameFails {
        FailedRenameLosesNothing(s.files, target, vault, f);
      } else {
        RenameLosesExactly(s.files, target, vault);
      }
      hide KeepsEveryFile, HasOtherCopy, VaultPath, Admits, AfterQuarantine;
    }
  }

  lemma RestoreLosesExactly(cfg: Config, s: State, id: nat, f: Faults)
    ensures var o := Overwritten(cfg, s, DoRestore(id, f));
            KeepsEveryFile(s.files, AfterRestore(s, id, f).1.files) <==> (o.Some? ==> HasOtherCopy(s.files, o.value))
  {
    var i := IndexOf(s.ledger, id);
    if i < |s.ledger| && Live(s.ledger[i]) && CanRestore(s.files, s.ledger[i], f) {
      var r := s.ledger[i];
      assert AfterRestore(s, id, f).1.files == AfterMoveBack(s.files, r, f);
      if f.renameFails {
        FailedRenameBackLosesNothing(s.files, r, f);
      } else {
        RenameLosesExactly(s.files, r.vaultPath, r.originalPath);
      }
      hide KeepsEveryFile, HasOtherCopy, AfterRestore;
    }
  }

  /** From any state at all, a quarantine or restore loses a file exactly when its rename goes over one that has
      no other copy. */
  lemma OnlyShredLoses(cfg: Config, s: State, op: Op)
    requires op.DoQuarantine? || op.DoRestore?
    ensures var o := Overwritten(cfg, s, op);
            KeepsEveryFile(s.files, Step(cfg, s, op).1.files) <==> (o.Some? ==> HasOtherCopy(s.files, o.value))
  {
    hide KeepsEveryFile, HasOtherCopy, Overwritten, AfterQuarantine, AfterRestore;
    match op
    case DoQuarantine(c, now, f) => QuarantineLosesExactly(cfg, s, c, now, f);
    case DoRestore(id, f) => RestoreLosesExactly(cfg, s, id, f);
  }

  /** In a valid vault that leaves the restore alone, and it only while its look at the original path fails:
      the vault path of a quarantine is free. */
  lemma ValidVaultLosesNothing(cfg: Config, s: State, op: Op)
    requires Valid(cfg, s) && TargetsOutside(cfg, op) && (op.DoQuarantine? || op.DoRestore?)
    requires op.DoRestore? ==> !op.faults.probeFails
    ensures KeepsEveryFile(s.files, Step(cfg, s, op).1.files)
  {
    OnlyShredLoses(cfg, s, op);
    hide KeepsEveryFile, AfterQuarantine, AfterRestore;
    assert VaultPath(cfg.vaultDir, s.nextId) !in s.files;
    assert Overwritten(cfg, s, op) == None;
  }

  /** Shredding a live record reports success and marks it shredded in any case, and changes nothing but its own
      vault file. That is gone exactly when both the probe and the removal work, and it is left as it was exactly
      when the probe fails, or the removal fails and the overwriting changed nothing. */
  lemma ShredErasesOnlyItsFile(cfg: Config, s: State, id: nat, f: Faults)
    requires Valid(cfg, s) && IndexOf(s.ledger, id) < |s.ledger| && Live(s.ledger[IndexOf(s.ledger, id)])
    ensures var i := IndexOf(s.ledger, id);
            var (code, t) := AfterShred(s, id, f);
            var vault := s.ledger[i].vaultPath;
            && code == OK && t.ledger == s.ledger[i := s.ledger[i].(shredded := true)]
            && SameExcept(s.files, t.files, vault, vault)
            && (vault !in t.files <==> !f.vaultProbeFails && !f.removeFails)
            && vault in s.files && s.files[vault].File?
            && (vault in t.files && t.files[vault] == s.files[vault] <==>
                  f.vaultProbeFails || (f.removeFails && Unharmed(s.files[vault].bytes, f.overwritten)))
  {
    var r := s.ledger[IndexOf(s.ledger, id)];
    assert RecordOk(cfg, s.files, r);
    EraseTouchesOne(s.files, r.vaultPath, f);
    ZeroedIsSame(s.files[r.vaultPath].bytes, f.overwritten);
    hide Zeroed, Unharmed, Rewritten, InVault, VaultPath;
  }

  /** What was overwritten was zero already, if anything was. */
  predicate Unharmed(bytes: seq<byte>, overwritten: nat) {
    forall k :: 0 <= k < |bytes| && k < overwritten ==> bytes[k] == 0
  }

  lemma ZeroedIsSame(bytes: seq<byte>, overwritten: nat)
    ensures Zeroed(bytes, overwritten) == bytes <==> Unharmed(bytes, overwritten)
  {
    var z, k := Zeroed(bytes, overwritten), Min(overwritten, |bytes|);
    assert forall i :: 0 <= i < k ==> z[i] == 0;
    assert forall i :: k <= i < |bytes| ==> z[i] == bytes[i];
    if Unharmed(bytes, overwritten) {
      assert z == bytes;
    } else {
      var i :| 0 <= i < |bytes| && i < overwritten && bytes[i] != 0;
      assert z[i] != bytes[i];
    }
  }

  // ---- What success means ----

  /** Only an approved, unprotected file whose hash is the expected one enters the vault. */
  lemma OnlyApprovedEnter(cfg: Config, s: State, c: RemediationCandidate, now: int, f: Faults)
    requires Valid(cfg, s) && !InVault(cfg, c.targetPath)
    ensures var (code, t) := AfterQuarantine(cfg, s, c, now, f);
            && (code == OK <==> t.ledger != s.ledger)
            && (code == OK ==>
                  && c.approvalState == Approved && !IsProtected(c.targetPath, cfg.policy)
                  && c.targetPath in s.files && c.targetPath !in t.files
                  && |t.ledger| == |s.ledger| + 1 && t.ledger[..|s.ledger|] == s.ledger
                  && var r := t.ledger[|s.ledger|];
                     && r.findingId == c.findingId && r.originalPath == c.targetPath && Live(r)
                     && r.id == s.nextId && r.quarantinedAt == now && t.nextId == s.nextId + 1
                     && r.vaultPath in t.files && t.files[r.vaultPath] == s.files[c.targetPath]
                     && (c.expectedSha256 != "" ==> r.sha256 == c.expectedSha256))
  {
    if Admits(cfg, s.files, c, f) && |s.ledger| < MAX_LEDGER_RECORDS {
      VaultPathInVault(cfg, s.nextId);
      MoveKeepsBytes(s.files, c.targetPath, VaultPath(cfg.vaultDir, s.nextId), f);
      hide AfterMove, VaultPath, InVault, Moves, LedgerLine;
    }
  }

  /** A restore that reports success has put bytes with the recorded hash back at the original path. */
  lemma RestoreGivesBack(cfg: Config, s: State, id: nat, f: Faults)
    requires Valid(cfg, s) && IndexOf(s.ledger, id) < |s.ledger| && Live(s.ledger[IndexOf(s.ledger, id)])
    ensures var r := s.ledger[IndexOf(s.ledger, id)];
            var (code, t) := AfterRestore(s, id, f);
            code == OK ==>
              && r.originalPath in t.files && t.files[r.originalPath] == s.files[r.vaultPath]
              && cfg.hash(t.files[r.originalPath].bytes) == r.sha256
  {
    var r := s.ledger[IndexOf(s.ledger, id)];
    assert RecordOk(cfg, s.files, r);
    VaultPathInVault(cfg, r.id);
    MoveBackKeepsBytes(s.files, r, f);
  }

  lemma NewRecordIndex(ledger: seq<QuarantineRecord>, r: QuarantineRecord)
    requires forall i :: 0 <= i < |ledger| ==> ledger[i].id < r.id
    ensures IndexOf(ledger + [r], r.id) == |ledger|
  {
    assert (ledger + [r])[|ledger|] == r;
    assert forall k :: 0 <= k < |ledger| ==> (ledger + [r])[k] == ledger[k];
  }

  predicate NoFaults(f: Faults) {
    !f.probeFails && !f.vaultProbeFails && !f.renameFails
  }

  lemma MovedThereAndBack(before: Files, after: Files, target: string, vault: string)
    requires SameExcept(before, after, target, vault) && target in before && vault !in before
    requires target !in after && vault in after && after[vault] == before[target]
    ensures Renamed(after, vault, target) == before
  {}

  /** What a quarantine took, a restore gives back: all files are as they were. */
  lemma RestoreUndoesQuarantine(cfg: Config, s: State, c: RemediationCandidate, now: int, f: Faults, g: Faults)
    requires Valid(cfg, s) && !InVault(cfg, c.targetPath) && NoFaults(g)
    requires AfterQuarantine(cfg, s, c, now, f).0 == OK
    ensures var t := AfterQuarantine(cfg, s, c, now, f).1;
            AfterRestore(t, s.nextId, g).0 == OK && AfterRestore(t, s.nextId, g).1.files == s.files
  {
    var vault := VaultPath(cfg.vaultDir, s.nextId);
    VaultPathInVault(cfg, s.nextId);
    var r := NewRecord(cfg, s.files, s.nextId, c, now);
    var t := AfterQuarantine(cfg, s, c, now, f).1;
    MoveKeepsBytes(s.files, c.targetPath, vault, f);
    MoveTouchesTwo(s.files, c.targetPath, vault, f);
    assert t.ledger == s.ledger + [r];
    NewRecordIndex(s.ledger, r);
    assert CanRestore(t.files, r, g);
    hide AfterQuarantine, AfterMove, VaultPath, InVault, CanRestore, SameExcept, NewRecord, Rewritten;
    assert AfterRestore(t, s.nextId, g).1.files == Renamed(t.files, vault, c.targetPath);
    MovedThereAndBack(s.files, t.files, c.targetPath, vault);
  }

  // ---- Runs ----

  function Run(cfg: Config, s: State, ops: seq<Op>): State {
    if |ops| == 0 then s else Step(cfg, Run(cfg, s, ops[..|ops| - 1]), ops[|ops| - 1]).1
  }

  predicate AllOutside(cfg: Config, ops: seq<Op>) {
    forall i :: 0 <= i < |ops| ==> TargetsOutside(cfg, ops[i])
  }

  /** A vault that holds nothing of the executor's yet. */
  ghost predicate Fresh(cfg: Config, s: State) {
    s.ledger == [] && s.nextId == 1 && s.ledgerFile == "" && Unused(cfg, s.files, 1)
  }

  lemma {:induction false} RunKeepsValid(cfg: Config, s: State, ops: seq<Op>)
    requires Valid(cfg, s) && AllOutside(cfg, ops)
    ensures Valid(cfg, Run(cfg, s, ops))
  {
    if |ops| > 0 {
      RunKeepsValid(cfg, s, ops[..|ops| - 1]);
      StepKeepsValid(cfg, Run(cfg, s, ops[..|ops| - 1]), ops[|ops| - 1]);
    }
  }

  /** Along every run from a valid vault, a fresh one or one whose ledger was loaded, each live record's bytes
      sit at its own vault path and match its hash, and no record is both restored and shredded. */
  lemma LiveRecordsAreKept(cfg: Config, s: State, ops: seq<Op>, i: nat)
    requires Valid(cfg, s) && AllOutside(cfg, ops) && i < |Run(cfg, s, ops).ledger|
    ensures var t := Run(cfg, s, ops); var r := t.ledger[i];
            && (!r.restored && !r.shredded ==> Kept(cfg, t.files, r))
            && !(r.restored && r.shredded)
            && (forall j :: 0 <= j < |t.ledger| && j != i ==> t.ledger[j].vaultPath != r.vaultPath)
  {
    RunKeepsValid(cfg, s, ops);
    var t := Run(cfg, s, ops);
    assert RecordOk(cfg, t.files, t.ledger[i]);
    forall j | 0 <= j < |t.ledger| && j != i ensures t.ledger[j].vaultPath != t.ledger[i].vaultPath {
      OwnVaultPath(cfg, t, j, i);
    }
  }

  // ---- A run that loses a file ----

  const NO_FAULTS: Faults :=
    Faults(false, false, false, false, false, false, None, false, false, 0, LedgerFaults(false, 0, false, false, ""))

  /** A file that the executor takes once it is approved. */
  predicate Quarantinable(cfg: Config, path: string, bytes: seq<byte>) {
    && path != "" && Clean(path) && !IsProtected(path, cfg.policy) && !InVault(cfg, path)
    && 0 < |bytes| <= MAX_QUARANTINE_BYTES && cfg.hash(bytes) != ""
  }

  function ApprovedFor(path: string): RemediationCandidate {
    RemediationCandidate(1, QuarantineCandidate, Approved, path, "", "")
  }

  /** A file is quarantined, another program puts a new one in its place, and a restore that cannot look there
      brings the old one back over it. */
  function LosingRun(path: string, b: seq<byte>): seq<Op> {
    [DoQuarantine(ApprovedFor(path), 0, NO_FAULTS), Elsewhere(map[path := File(b)]),
     DoRestore(1, NO_FAULTS.(probeFails := true))]
  }

  lemma RunOfThree(cfg: Config, s: State, x: Op, y: Op, z: Op)
    ensures Run(cfg, s, [x, y, z][..2]) == Step(cfg, Step(cfg, s, x).1, y).1
    ensures Run(cfg, s, [x, y, z]) == Step(cfg, Step(cfg, Step(cfg, s, x).1, y).1, z).1
  {
    hide Step;
    assert [x, y, z][..2] == [x, y] && [x, y][..1] == [x] && [x][..0] == [];
    assert Run(cfg, s, [x]) == Step(cfg, Run(cfg, s, []), x).1;
    assert Run(cfg, s, [x, y]) == Step(cfg, Run(cfg, s, [x]), y).1;
  }

  lemma LosingQuarantine(cfg: Config, path: string, a: seq<byte>)
    requires Quarantinable(cfg, path, a)
    ensures var t := AfterQuarantine(cfg, State([], 1, map[path := File(a)], ""), ApprovedFor(path), 0, NO_FAULTS).1;
            && t.files == map[VaultPath(cfg.vaultDir, 1) := File(a)]
            && t.ledger == [NewRecord(cfg, map[path := File(a)], 1, ApprovedFor(path), 0)]
  {
    VaultPathInVault(cfg, 1);
    hide VaultPath, InVault, IsProtected, Clean, LedgerLine, Appended;
    var files := map[path := File(a)];
    assert Admits(cfg, files, ApprovedFor(path), NO_FAULTS);
    assert Renamed(files, path, VaultPath(cfg.vaultDir, 1)) == map[VaultPath(cfg.vaultDir, 1) := File(a)];
  }

  lemma LosingRestore(s: State, r: QuarantineRecord, path: string, a: seq<byte>, b: seq<byte>)
    requires s.ledger == [r] && r.id == 1 && Live(r) && r.originalPath == path && r.vaultPath != path
    requires s.files == map[r.vaultPath := File(a), path := File(b)]
    ensures AfterRestore(s, 1, NO_FAULTS.(probeFails := true)).1.files == map[path := File(a)]
  {
    hide Rewritten;
    assert IndexOf(s.ledger, 1) == 0;
    assert Renamed(s.files, r.vaultPath, path) == map[path := File(a)];
  }

  lemma LosingOverlay(cfg: Config, vault: string, path: string, a: seq<byte>, b: seq<byte>)
    requires InVault(cfg, vault) && !InVault(cfg, path)
    ensures Overlay(cfg, map[vault := File(a)], map[path := File(b)]) == map[vault := File(a), path := File(b)]
  {
    hide InVault;
  }

  lemma LosingRunFiles(cfg: Config, path: string, a: seq<byte>, b: seq<byte>)
    requires Quarantinable(cfg, path, a)
    ensures var s, ops := State([], 1, map[path := File(a)], ""), LosingRun(path, b);
            && Run(cfg, s, ops[..2]).files == map[VaultPath(cfg.vaultDir, 1) := File(a), path := File(b)]
            && Run(cfg, s, ops).files == map[path := File(a)]
  {
    var s, ops := State([], 1, map[path := File(a)], ""), LosingRun(path, b);
    VaultPathInVault(cfg, 1);
    RunOfThree(cfg, s, ops[0], ops[1], ops[2]);
    LosingQuarantine(cfg, path, a);
    LosingOverlay(cfg, VaultPath(cfg.vaultDir, 1), path, a, b);
    hide Run, AfterQuarantine, AfterRestore, Overlay, VaultPath, InVault, IsProtected, Clean;
    var s2 := Step(cfg, Step(cfg, s, ops[0]).1, ops[1]).1;
    LosingRestore(s2, s2.ledger[0], path, a, b);
  }

  lemma FreshFiles(cfg: Config, files: Files)
    requires forall path :: path in files ==> !InVault(cfg, path)
    ensures Fresh(cfg, State([], 1, files, ""))
  {
    hide VaultPath, InVault;
    forall id: nat | id >= 1 ensures VaultPath(cfg.vaultDir, id) !in files { VaultPathInVault(cfg, id); }
  }

  /** So a fresh vault can come to lose a file's only copy, whatever file that is. */
  lemma RestoreCanLose(cfg: Config, path: string, a: seq<byte>, b: seq<byte>)
    requires Quarantinable(cfg, path, a) && a != b
    ensures var s, ops := State([], 1, map[path := File(a)], ""), LosingRun(path, b);
            && Fresh(cfg, s) && AllOutside(cfg, ops)
            && Holds(Run(cfg, s, ops[..2]).files, b) && !Holds(Run(cfg, s, ops).files, b)
  {
    var s, ops := State([], 1, map[path := File(a)], ""), LosingRun(path, b);
    assert forall p :: p in s.files ==> p == path && !InVault(cfg, p);
    assert AllOutside(cfg, ops);
    hide Run, VaultPath, Quarantinable, AllOutside, Fresh, InVault;
    FreshFiles(cfg, s.files);
    LosingRunFiles(cfg, path, a, b);
    assert Run(cfg, s, ops[..2]).files[path] == File(b);
    assert forall p :: p in Run(cfg, s, ops).files ==> Run(cfg, s, ops).files[p] == File(a);
  }
}
