/** Moving approved files into the vault, back out, and shredding them
    (src/security/quarantine_executor.cpp). Which file-system calls fail, and what a failed copy or write
    leaves behind, comes in with each call as its Faults. */
module Quarantine {
  import opened Common
  import opened Decimal
  import opened Policy
  import opened Ledger

  const MAX_QUARANTINE_BYTES: nat := 200 * 1024 * 1024
  const MAX_LEDGER_RECORDS: nat := 5000

  // ---- The file system ----

  datatype Node = File(bytes: seq<byte>) | Symlink | Other

  type Files = map<string, Node>

  /** `copyLeft` is what a failed copy leaves at its destination. */
  datatype Faults = Faults(
    probeFails: bool,
    vaultProbeFails: bool,
    hashFails: bool,
    linkResolves: bool,
    renameFails: bool,
    copyFails: bool,
    copyLeft: Option<seq<byte>>,
    removeFails: bool,
    cleanupFails: bool,
    overwritten: nat,
    ledger: LedgerFaults)

  /** `written` is how much of the text reaches the file; `copyLeft` what a failed copy makes of the
      ledger. */
  datatype LedgerFaults = LedgerFaults(openFails: bool, written: nat, renameFails: bool, copyFails: bool,
        copyLeft: string)

  /** std::filesystem::exists follows links, and answers false when it fails. */
  predicate Exists(files: Files, path: string, probeFails: bool, linkResolves: bool) {
    !probeFails && path in files && (files[path].Symlink? ==> linkResolves)
  }

  /** rename replaces what is at `to`. */
  function Renamed(files: Files, from: string, to: string): Files
    requires from in files
  {
    (files - {from})[to := files[from]]
  }

  predicate CanCopy(files: Files, from: string, to: string, fails: bool) {
    !fails && to !in files && from in files && files[from].File?
  }

  /** copy_file without overwriting: nothing happens when the destination exists. */
  function Copied(files: Files, from: string, to: string, fails: bool, left: Option<seq<byte>>): Files {
    if CanCopy(files, from, to, fails) then files[to := files[from]]
    else if to !in files && left.Some? then files[to := File(left.value)]
    else files
  }

  class Disk {
    var files: Files
    var ledgerFile: string

    constructor (files: Files)
      ensures this.files == files && ledgerFile == ""
    {
      this.files, ledgerFile := files, "";
    }

    method Rename(from: string, to: string, fails: bool) returns (ok: bool)
      modifies this`files
      ensures ok == (!fails && from in old(files))
      ensures files == if ok then Renamed(old(files), from, to) else old(files)
    {
      ok := !fails && from in files;
      if ok {
        var node := files[from];
        files := files - {from};
        files := files[to := node];
      }
    }

    method CopyFile(from: string, to: string, fails: bool, left: Option<seq<byte>>) returns (ok: bool)
      modifies this`files
      ensures ok == CanCopy(old(files), from, to, fails)
      ensures files == Copied(old(files), from, to, fails, left)
    {
      if to in files { return false; }
      ok := !fails && from in files && files[from].File?;
      if ok {
        files := files[to := files[from]];
      } else if left.Some? {
        files := files[to := File(left.value)];
      }
    }

    method Remove(path: string, fails: bool) returns (ok: bool)
      modifies this`files
      ensures ok == !fails && files == if ok then old(files) - {path} else old(files)
    {
      ok := !fails;
      if ok { files := files - {path}; }
    }
  }

  // ---- What each call does ----

  /** `hash` is the file hash in hexadecimal. */
  datatype Config = Config(vaultDir: string, policy: LocalSecurityPolicy, hash: seq<byte> -> string)

  datatype State = State(ledger: seq<QuarantineRecord>, nextId: nat, files: Files, ledgerFile: string)

  function VaultPath(vaultDir: string, id: nat): string {
    vaultDir + "/q_" + ToString(id) + ".gcadq"
  }

  function HashFile(cfg: Config, files: Files, path: string, fails: bool): string {
    if fails || path !in files || !files[path].File? then "" else cfg.hash(files[path].bytes)
  }

  /** The checks before the ledger is touched. */
  predicate Admits(cfg: Config, files: Files, c: RemediationCandidate, f: Faults) {
    && c.approvalState == Approved && c.targetPath != "" && Clean(c.targetPath)
    && !IsProtected(c.targetPath, cfg.policy)
    && !f.probeFails && c.targetPath in files && files[c.targetPath].File?
    && 0 < |files[c.targetPath].bytes| <= MAX_QUARANTINE_BYTES
    && HashFile(cfg, files, c.targetPath, f.hashFails) != ""
    && (c.expectedSha256 != "" ==> HashFile(cfg, files, c.targetPath, f.hashFails) == c.expectedSha256)
  }

  /** Whether the file ends up in the vault, by rename or by copy and remove. */
  predicate Moves(files: Files, target: string, vault: string, f: Faults) {
    !f.renameFails || (CanCopy(files, target, vault, f.copyFails) && !f.removeFails)
  }

  /** The files after the attempt. A copy whose original cannot be removed is taken back. */
  function AfterMove(files: Files, target: string, vault: string, f: Faults): Files
    requires target in files
  {
    if !f.renameFails then Renamed(files, target, vault)
    else
      var copied := Copied(files, target, vault, f.copyFails, f.copyLeft);
      if !CanCopy(files, target, vault, f.copyFails) then copied
      else if !f.removeFails then copied - {target}
      else if !f.cleanupFails then copied - {vault}
      else copied
  }

  function Appended(file: string, line: string, f: LedgerFaults): string {
    if f.openFails then file else file + line[..Min(f.written, |line|)]
  }

  function Rewritten(file: string, ledger: seq<QuarantineRecord>, f: LedgerFaults): string {
    var text := LedgerText(ledger);
    if f.openFails then file
    else if f.renameFails && f.copyFails then f.copyLeft
    else text[..Min(f.written, |text|)]
  }

  function NewRecord(cfg: Config, files: Files, id: nat, c: RemediationCandidate, now: int): QuarantineRecord {
    QuarantineRecord(id, c.findingId, c.targetPath, VaultPath(cfg.vaultDir, id),
                     HashFile(cfg, files, c.targetPath, false), now, false, false)
  }

  /** The id is used up even when the move fails. */
  function AfterQuarantine(cfg: Config, s: State, c: RemediationCandidate, now: int, f: Faults): (ErrorCode, State) {
    if !Admits(cfg, s.files, c, f) then (ErrQuarantineDenied, s)
    else if |s.ledger| >= MAX_LEDGER_RECORDS then (ErrQuarantineFull, s)
    else
      var vault := VaultPath(cfg.vaultDir, s.nextId);
      var files := AfterMove(s.files, c.targetPath, vault, f);
      if !Moves(s.files, c.targetPath, vault, f) then
        (ErrQuarantineDenied, s.(nextId := s.nextId + 1, files := files))
      else
        var r := NewRecord(cfg, s.files, s.nextId, c, now);
        (OK, State(s.ledger + [r], s.nextId + 1, files, Appended(s.ledgerFile, LedgerLine(r) + "\n", f.ledger)))
  }

  /** The first record with an id, or the length. */
  function IndexOf(ledger: seq<QuarantineRecord>, id: nat): (i: nat)
    ensures i <= |ledger| && (i < |ledger| ==> ledger[i].id == id)
    ensures forall k :: 0 <= k < i ==> ledger[k].id != id
  {
    FirstWhere(ledger, (r: QuarantineRecord) => r.id == id)
  }

  predicate CanRestore(files: Files, r: QuarantineRecord, f: Faults) {
    && !Exists(files, r.originalPath, f.probeFails, f.linkResolves)
    && Exists(files, r.vaultPath, f.vaultProbeFails, f.linkResolves)
  }

  predicate MovesBack(files: Files, r: QuarantineRecord, f: Faults) {
    !f.renameFails || CanCopy(files, r.vaultPath, r.originalPath, f.copyFails)
  }

  /** When the vault's copy cannot be removed the file counts as restored all the same. */
  function AfterMoveBack(files: Files, r: QuarantineRecord, f: Faults): Files
    requires r.vaultPath in files
  {
    if !f.renameFails then Renamed(files, r.vaultPath, r.originalPath)
    else
      var copied := Copied(files, r.vaultPath, r.originalPath, f.copyFails, f.copyLeft);
      if CanCopy(files, r.vaultPath, r.originalPath, f.copyFails) && !f.removeFails then copied - {r.vaultPath}
      else copied
  }

  function Saved(s: State, i: nat, r: QuarantineRecord, files: Files, f: Faults): State
    requires i < |s.ledger|
  {
    var ledger := s.ledger[i := r];
    State(ledger, s.nextId, files, Rewritten(s.ledgerFile, ledger, f.ledger))
  }

  function AfterRestore(s: State, id: nat, f: Faults): (ErrorCode, State) {
    var i := IndexOf(s.ledger, id);
    if i == |s.ledger| then (ErrNotFound, s)
    else
      var r := s.ledger[i];
      if r.shredded then (ErrRollbackFail, s)
      else if r.restored then (OK, s)
      else if !CanRestore(s.files, r, f) then (ErrRollbackFail, s)
      else
        var files := AfterMoveBack(s.files, r, f);
        if !MovesBack(s.files, r, f) then (ErrRollbackFail, s.(files := files))
        else (OK, Saved(s, i, r.(restored := true), files, f))
  }

  /** The first n bytes overwritten. */
  function Zeroed(bytes: seq<byte>, n: nat): seq<byte> {
    var k := Min(n, |bytes|);
    Fill(k, 0) + bytes[k..]
  }

  /** Overwritten as far as the writes got, then removed unless that fails. */
  function AfterErase(files: Files, path: string, f: Faults): Files {
    if !Exists(files, path, f.vaultProbeFails, f.linkResolves) then files
    else if !f.removeFails then files - {path}
    else if files[path].File? then files[path := File(Zeroed(files[path].bytes, f.overwritten))]
    else files
  }

  function AfterShred(s: State, id: nat, f: Faults): (ErrorCode, State) {
    var i := IndexOf(s.ledger, id);
    if i == |s.ledger| then (ErrNotFound, s)
    else
      var r := s.ledger[i];
      if r.shredded then (OK, s)
      else if r.restored then (ErrNotFound, s)
      else (OK, Saved(s, i, r.(shredded := true), AfterErase(s.files, r.vaultPath, f), f))
  }

  class QuarantineExecutor {
    const cfg: Config
    const disk: Disk
    var ledger: seq<QuarantineRecord>
    var nextId: nat

    ghost function Contents(): State
      reads this, disk
    {
      State(ledger, nextId, disk.files, disk.ledgerFile)
    }

    /** The ledger file, if there is one, is read back. */
    constructor (cfg: Config, disk: Disk)
      ensures this.cfg == cfg && this.disk == disk
      ensures ledger == Load(disk.ledgerFile).ledger && nextId == Load(disk.ledgerFile).nextId
    {
      this.cfg, this.disk := cfg, disk;
      var loaded := LoadLedger(disk.ledgerFile);
      ledger, nextId := loaded.ledger, loaded.nextId;
    }

    method Quarantine(c: RemediationCandidate, now: int, f: Faults) returns (code: ErrorCode)
      modifies this, disk
      ensures (code, Contents()) == AfterQuarantine(cfg, old(Contents()), c, now, f)
    {
      var hash := Check(c, f);
      if hash == "" { return ErrQuarantineDenied; }
      if |ledger| >= MAX_LEDGER_RECORDS { return ErrQuarantineFull; }
      var id := nextId;
      nextId := nextId + 1;
      var vaultPath := VaultPath(cfg.vaultDir, id);
      var moved := MoveIn(c.targetPath, vaultPath, f);
      if !moved { return ErrQuarantineDenied; }
      var record := QuarantineRecord(id, c.findingId, c.targetPath, vaultPath, hash, now, false, false);
      ledger := ledger + [record];
      AppendLedger(record, f.ledger);
      return OK;
    }

    /** The hash of a file that may be quarantined, "" for one that may not. */
    method Check(c: RemediationCandidate, f: Faults) returns (hash: string)
      ensures hash == if Admits(cfg, disk.files, c, f) then cfg.hash(disk.files[c.targetPath].bytes) else ""
      ensures hash != "" <==> Admits(cfg, disk.files, c, f)
    {
      if c.approvalState != Approved { return ""; }
      if c.targetPath == "" { return ""; }
      if !Clean(c.targetPath) { return ""; }
      var protected := IsProtectedPath(c.targetPath, cfg.policy);
      if protected { return ""; }
      if f.probeFails || c.targetPath !in disk.files { return ""; }
      if disk.files[c.targetPath].Symlink? { return ""; }
      if !disk.files[c.targetPath].File? { return ""; }
      var size := |disk.files[c.targetPath].bytes|;
      if size == 0 || size > MAX_QUARANTINE_BYTES { return ""; }
      hash := HashFile(cfg, disk.files, c.targetPath, f.hashFails);
      if hash == "" { return; }
      if c.expectedSha256 != "" && hash != c.expectedSha256 { return ""; }
    }

    method MoveIn(target: string, vault: string, f: Faults) returns (moved: bool)
      requires target in disk.files && disk.files[target].File?
      modifies disk`files
      ensures moved == Moves(old(disk.files), target, vault, f)
      ensures disk.files == AfterMove(old(disk.files), target, vault, f)
    {
      moved := disk.Rename(target, vault, f.renameFails);
      if moved { return; }
      var copied := disk.CopyFile(target, vault, f.copyFails, f.copyLeft);
      if !copied { return false; }
      var removed := disk.Remove(target, f.removeFails);
      if !removed {
        var _ := disk.Remove(vault, f.cleanupFails);
        return false;
      }
      return true;
    }

    method AppendLedger(record: QuarantineRecord, f: LedgerFaults)
      modifies disk`ledgerFile
      ensures disk.ledgerFile == Appended(old(disk.ledgerFile), LedgerLine(record) + "\n", f)
    {
      if f.openFails { return; }
      var line := LedgerLine(record) + "\n";
      disk.ledgerFile := disk.ledgerFile + line[..Min(f.written, |line|)];
    }

    method RewriteLedger(f: LedgerFaults)
      modifies disk`ledgerFile
      ensures disk.ledgerFile == Rewritten(old(disk.ledgerFile), ledger, f)
    {
      if f.openFails { return; }
      var text := "";
      for i := 0 to |ledger|
        invariant text == LedgerText(ledger[..i])
      {
        assert ledger[..i + 1][..i] == ledger[..i];
        text := text + LedgerLine(ledger[i]) + "\n";
      }
      assert ledger[..|ledger|] == ledger;
      var temporary := text[..Min(f.written, |text|)];
      if !f.renameFails || !f.copyFails {
        disk.ledgerFile := temporary;
      } else {
        disk.ledgerFile := f.copyLeft;
      }
    }

    method Find(id: nat) returns (i: nat)
      ensures i == IndexOf(ledger, id)
    {
      i := 0;
      while i < |ledger|
        invariant i <= |ledger| && forall k :: 0 <= k < i ==> ledger[k].id != id
      {
        if ledger[i].id == id { return; }
        i := i + 1;
      }
    }

    method Restore(id: nat, f: Faults) returns (code: ErrorCode)
      modifies this`ledger, disk
      ensures (code, Contents()) == AfterRestore(old(Contents()), id, f)
    {
      var i := Find(id);
      if i == |ledger| { return ErrNotFound; }
      var record := ledger[i];
      if record.shredded { return ErrRollbackFail; }
      if record.restored { return OK; }
      if Exists(disk.files, record.originalPath, f.probeFails, f.linkResolves) { return ErrRollbackFail; }
      if !Exists(disk.files, record.vaultPath, f.vaultProbeFails, f.linkResolves) { return ErrRollbackFail; }
      var moved := disk.Rename(record.vaultPath, record.originalPath, f.renameFails);
      if !moved {
        var copied := disk.CopyFile(record.vaultPath, record.originalPath, f.copyFails, f.copyLeft);
        if !copied { return ErrRollbackFail; }
        var _ := disk.Remove(record.vaultPath, f.removeFails);
      }
      ledger := ledger[i := record.(restored := true)];
      RewriteLedger(f.ledger);
      return OK;
    }

    method Erase(path: string, f: Faults)
      requires Exists(disk.files, path, f.vaultProbeFails, f.linkResolves)
      modifies disk`files
      ensures disk.files == AfterErase(old(disk.files), path, f)
    {
      var node := disk.files[path];
      if node.File? && |node.bytes| > 0 {
        disk.files := disk.files[path := File(Zeroed(node.bytes, f.overwritten))];
        assert disk.files - {path} == old(disk.files) - {path};
      }
      assert node.File? && |node.bytes| == 0 ==> Zeroed(node.bytes, f.overwritten) == node.bytes;
      assert old(disk.files)[path := node] == old(disk.files);
      var _ := disk.Remove(path, f.removeFails);
    }

    method Shred(id: nat, f: Faults) returns (code: ErrorCode)
      modifies this`ledger, disk
      ensures (code, Contents()) == AfterShred(old(Contents()), id, f)
    {
      var i := Find(id);
      if i == |ledger| { return ErrNotFound; }
      var record := ledger[i];
      if record.shredded { return OK; }
      if record.restored { return ErrNotFound; }
      if Exists(disk.files, record.vaultPath, f.vaultProbeFails, f.linkResolves) {
        Erase(record.vaultPath, f);
      }
      ledger := ledger[i := record.(shredded := true)];
      RewriteLedger(f.ledger);
      return OK;
    }
  }
}
