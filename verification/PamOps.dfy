// The operations of irauthctl on a PAM directory: enable, disable and migrate. Each is proved
// against its effect in PamDisk, for every fault schedule.
module PamOps {
  import opened Text
  import opened PamText
  import opened Order
  import opened PamDisk
  import opened PamStore

  lemma CannotEndWith(s: string, p: string)
    requires p != "" && forall i :: 0 <= i < |s| ==> s[i] != p[0]
    ensures !EndsWith(s, p)
  {
    if |p| <= |s| {
      assert s[|s| - |p|..][0] == s[|s| - |p|];
    }
  }

  lemma ServiceIsNoArtifact(service: string)
    requires ValidServiceName(service)
    ensures !IsArtifact(service)
  {
    CannotEndWith(service, BAK);
    CannotEndWith(service, TMP);
  }

  /** An operation that gave up has added at most artifacts. */
  ghost predicate OnlyArtifactsAdded(d: Disk, s: Disk) {
    && (forall p :: p in d ==> p in s && s[p] == d[p])
    && (forall p :: p in s && p !in d ==> p.Pam? && IsArtifact(p.name))
  }

  lemma OneArtifactAdded(d: Disk, s: Disk, p: Path)
    requires Only(d, s, p) && (p in d ==> s == d) && p.Pam? && IsArtifact(p.name)
    ensures OnlyArtifactsAdded(d, s)
  {
  }

  lemma AnotherArtifactAdded(d: Disk, e: Disk, s: Disk, p: Path)
    requires OnlyArtifactsAdded(d, e) && Only(e, s, p) && (p in e ==> s == e) && p.Pam? && IsArtifact(p.name)
    ensures OnlyArtifactsAdded(d, s)
  {
  }

  /** Every state from `from` on may be reached by attempting the operation on `d`. */
  ghost predicate AllAttempted(op: Op, d: Disk, states: seq<Disk>, from: nat) {
    forall i :: from <= i < |states| ==> Attempted(op, d, states[i])
  }

  lemma MoreAttempted(op: Op, d: Disk, states: seq<Disk>, more: seq<Disk>, from: nat)
    requires from <= |states| && states <= more
    requires AllAttempted(op, d, states, from) && AllAttempted(op, d, more, |states|)
    ensures AllAttempted(op, d, more, from)
  {
    hide Attempted;
  }

  lemma NoneAttempted(op: Op, d: Disk, states: seq<Disk>)
    ensures AllAttempted(op, d, states, |states|)
  {
  }

  lemma ArtifactsAreAttempted(op: Op, d: Disk, s: Disk)
    requires OnlyArtifactsAdded(d, s)
    ensures Attempted(op, d, s)
  {
    hide Rewrites, IsArtifact;
  }

  lemma ManifestIsNoMatter(op: Op, d: Disk, e: Disk, s: Disk)
    requires Attempted(op, d, e) && SamePam(e, s)
    ensures Attempted(op, d, s)
  {
    hide RestoredService, Migratable, EnableText, RewriteText, ValidServiceName, IsArtifact, HasIrauth, Lines;
  }

  lemma ArtifactNames(n: string, pid: string)
    ensures IsArtifact(TempName(n, pid)) && IsArtifact(Bak(n))
  {
    hide IsTemp, IsBackup;
    TempFacts(n, pid);
    BakFacts(n, n);
  }

  // ---------------------------------------------------------------- replacing one service

  /** What both writers need: an unchanged service that the transaction may change. */
  ghost predicate Replaceable(fs: Store, n: string, text: string)
    reads fs
  {
    && fs.Watched() && BackupsWhole(fs.origin, fs.disk) && MayChange(Pam(n), fs.services)
    && IsText(fs.origin, Pam(n)) && Pam(n) in fs.disk && fs.disk[Pam(n)] == fs.origin[Pam(n)]
    && NewText(TextAt(fs.origin, Pam(n)), text)
  }

  /** Backs a service up and puts a new text in its place. */
  method ReplaceService(fs: Store, n: string, text: string) returns (ok: bool)
    requires fs.Valid() && IsText(fs.disk, Pam(n))
    modifies fs`disk, fs`history, fs`leftovers, fs`faults
    ensures fs.Valid() && old(fs.history) <= fs.history && old(fs.faults) <= fs.faults
    ensures ok ==> fs.disk == Replace(old(fs.disk), n, text)
    ensures fs.faults == old(fs.faults) ==> (ok <==> CanReplace(old(fs.disk), n, fs.pid))
    ensures !ok ==> OnlyArtifactsAdded(old(fs.disk), fs.disk)
    ensures old(fs.leftovers) <= fs.leftovers
    ensures !ok && fs.leftovers == old(fs.leftovers) ==>
              fs.disk == old(fs.disk) || fs.disk == WithBackup(old(fs.disk), n)
    ensures forall i :: |old(fs.history)| <= i < |fs.history| ==>
              OnlyArtifactsAdded(old(fs.disk), fs.history[i]) || fs.history[i] == Replace(old(fs.disk), n, text)
    ensures old(Replaceable(fs, n, text)) ==>
              fs.Watched() && (ok ==> BackupsWhole(fs.origin, fs.disk))
  {
    hide NewText, MayChange, Guarded, IsArtifact, OnlyArtifactsAdded, BackupsWhole, TempName, IsTemp;
    ghost var d := fs.disk;
    ghost var good := Replaceable(fs, n, text);
    if good {
      BackupIsFree(fs, n);
    }
    ok := fs.CreateBackupOnce(n);
    ArtifactNames(n, fs.pid);
    forall i | |old(fs.history)| <= i < |fs.history| ensures OnlyArtifactsAdded(d, fs.history[i]) {
      OneArtifactAdded(d, fs.history[i], Pam(Bak(n)));
    }
    OneArtifactAdded(d, fs.disk, Pam(Bak(n)));
    if !ok {
      return false;
    }
    var fault: bool := *;
    if fault {
      fs.faults := fs.faults + 1;
      return false;
    }
    var f := File(Utf8(text), fs.disk[Pam(n)].file.mode);
    TempIsNoBackup(n, fs.pid, n);
    if good {
      WriteIsFree(fs, d, n, f);
    }
    ghost var e, states := fs.disk, fs.history;
    ok := fs.AtomicWrite(Pam(n), f);
    BakFacts(n, n);
    forall i | |states| <= i < |fs.history|
      ensures OnlyArtifactsAdded(d, fs.history[i]) || fs.history[i] == Replace(d, n, text)
    {
      if fs.history[i] != e[Pam(n) := Regular(f)] {
        AnotherArtifactAdded(d, e, fs.history[i], Temp(Pam(n), fs.pid));
      }
    }
    if !ok {
      AnotherArtifactAdded(d, e, fs.disk, Temp(Pam(n), fs.pid));
    }
  }

  lemma TempIsNoBackup(n: string, pid: string, m: string)
    ensures TempName(n, pid) != Bak(m)
  {
    hide TempName, IsTemp;
    TempFacts(n, pid);
    BakFacts(m, m);
  }

  /** Neither a complete backup nor the replacement behind it leaves a backup incomplete. */
  lemma ReplaceIsWhole(d: Disk, n: string, text: string)
    requires IsText(d, Pam(n))
    ensures BackupsWhole(d, d) && BackupsWhole(d, WithBackup(d, n)) && BackupsWhole(d, Replace(d, n, text))
  {
    assert |Bak(n)| > |n|;
    forall m ensures Bak(m) == Bak(n) ==> m == n {
      BakFacts(m, n);
    }
  }

  lemma BackupIsFree(fs: Store, n: string)
    requires fs.Watched() && Pam(n) in fs.disk
    requires Pam(n) in fs.origin ==> fs.disk[Pam(n)] == fs.origin[Pam(n)]
    ensures Pam(Bak(n)) in fs.disk || fs.Free(Pam(Bak(n)))
  {
  }

  lemma WriteIsFree(fs: Store, d: Disk, n: string, f: File)
    requires fs.Watched() && MayChange(Pam(n), fs.services) && BackupsWhole(fs.origin, d)
    requires IsText(fs.origin, Pam(n)) && Pam(n) in d && d[Pam(n)] == fs.origin[Pam(n)]
    requires fs.disk == WithBackup(d, n)
    requires f.content.Utf8? && NewText(TextAt(fs.origin, Pam(n)), f.content.text)
    requires f.mode == fs.origin[Pam(n)].file.mode
    ensures fs.MayWrite(Pam(n), f)
    ensures BackupsWhole(fs.origin, fs.disk[Pam(n) := Regular(f)])
  {
    hide NewText, Guarded;
    var tmp := Temp(Pam(n), fs.pid);
    assert |Bak(n)| > |n|;
    TempFacts(n, fs.pid);
    assert MayAppear(tmp, fs.pid) && !IsBackup(tmp.name) && tmp != MANIFEST;
    assert forall m {:trigger Bak(m)} :: Bak(m) != n by {
      forall m ensures Bak(m) != n {
        BakFacts(m, m);
      }
    }
    assert forall m :: Bak(m) == Bak(n) ==> m == n by {
      forall m ensures Bak(m) == Bak(n) ==> m == n {
        BakFacts(m, n);
      }
    }
    hide MayChange, MayAppear, IsBackup;
    if tmp !in fs.disk {
      forall s | Only(fs.disk, s, tmp) ensures Guarded(fs.origin, s, fs.services, fs.pid) {
        GuardedScratch(fs.origin, fs.disk, s, tmp, fs.services, fs.pid);
      }
    }
    GuardedReplace(fs.origin, fs.disk, n, f, fs.services, fs.pid);
  }

  // ---------------------------------------------------------------- enable

  method PamEnable(fs: Store, service: string) returns (ok: bool)
    requires fs.Valid()
    modifies fs`disk, fs`history, fs`leftovers, fs`misreads, fs`faults
    ensures fs.Valid() && old(fs.history) <= fs.history
    ensures old(fs.misreads) <= fs.misreads && old(fs.faults) <= fs.faults
    ensures fs.faults == old(fs.faults) && fs.misreads == old(fs.misreads) ==>
              (ok <==> CanEnable(old(fs.disk), service, fs.pid))
    ensures ok ==> ValidServiceName(service) && IsText(old(fs.disk), Pam(service))
                   && fs.disk == EnableDisk(old(fs.disk), service)
    ensures ok ==> Does(Op.Enabling(service), old(fs.disk), fs.disk)
    ensures !ok ==> OnlyArtifactsAdded(old(fs.disk), fs.disk)
    ensures old(fs.leftovers) <= fs.leftovers
    ensures fs.leftovers == old(fs.leftovers) ==> BackupsWhole(old(fs.disk), fs.disk)
    ensures Attempted(Op.Enabling(service), old(fs.disk), fs.disk)
    ensures AllAttempted(Op.Enabling(service), old(fs.disk), fs.history, |old(fs.history)|)
    ensures old(fs.Watched() && BackupsWhole(fs.origin, fs.disk) && service in fs.services) ==>
              (fs.Watched() && (ok ==> BackupsWhole(fs.origin, fs.disk)))
  {
    hide Guarded, HasIrauth, EnableText, Lines, NewText, Attempted, OnlyArtifactsAdded;
    ghost var d, op := fs.disk, Op.Enabling(service);
    NothingAdded(d);
    ArtifactsAreAttempted(op, d, d);
    var path := Pam(service);
    if !ValidServiceName(service) || path !in fs.disk || fs.disk[path].Special? {
      return false;
    }
    var content := fs.ReadText(path);
    if content == None {
      return false;
    }
    if HasIrauth(Lines(content.value)) {
      return true;
    }
    var out := InsertStanza(content.value);
    if fs.Watched() && BackupsWhole(fs.origin, fs.disk) && service in fs.services {
      EnableMayReplace(fs, service, out);
    }
    ok := ReplaceService(fs, service, out);
    ReplaceIsWhole(d, service, out);
    ReplaceIsEnabling(d, service);
    forall s | OnlyArtifactsAdded(d, s) ensures Attempted(op, d, s) {
      ArtifactsAreAttempted(op, d, s);
    }
  }

  lemma NothingAdded(d: Disk)
    ensures OnlyArtifactsAdded(d, d)
  {
  }

  lemma ReplaceIsEnabling(d: Disk, n: string)
    requires ValidServiceName(n) && IsText(d, Pam(n)) && !HasIrauth(Lines(TextAt(d, Pam(n))))
    ensures Attempted(Op.Enabling(n), d, Replace(d, n, EnableText(TextAt(d, Pam(n)))))
  {
    hide HasIrauth, EnableText, Lines, IsTemp;
    BakFacts(n, n);
    assert |Bak(n)| > |n|;
  }

  /** A service without a pam_irauth line has not been replaced in this transaction. */
  lemma EnableMayReplace(fs: Store, n: string, out: string)
    requires fs.Watched() && BackupsWhole(fs.origin, fs.disk) && n in fs.services
    requires ValidServiceName(n) && IsText(fs.disk, Pam(n)) && !HasIrauth(Lines(TextAt(fs.disk, Pam(n))))
    requires out == EnableText(TextAt(fs.disk, Pam(n)))
    ensures Replaceable(fs, n, out)
  {
    hide HasIrauth, HasDirect, Lines, EnableText, RewriteText, IsTemp;
    ServiceIsNoArtifact(n);
    assert Pam(n) != MANIFEST;
    if fs.disk[Pam(n)] != fs.origin[Pam(n)] {
      EnabledOnce(TextAt(fs.origin, Pam(n)));
    }
  }

  // ---------------------------------------------------------------- disable

  method PamDisable(fs: Store, service: string) returns (ok: bool, ghost listed: set<string>)
    requires fs.Valid()
    modifies fs`disk, fs`history, fs`leftovers, fs`misreads, fs`faults
    ensures fs.Valid() && old(fs.history) <= fs.history
    ensures old(fs.misreads) <= fs.misreads && old(fs.faults) <= fs.faults
    ensures fs.faults == old(fs.faults) && fs.misreads == old(fs.misreads) ==>
              (ok <==> CanDisable(old(fs.disk), service, fs.pid))
    ensures ok ==> Disabled(old(fs.disk), fs.disk, service)
    ensures ok ==> (Agrees(fs.disk) <==> listed == Marked(RestoredService(old(fs.disk), service)))
    ensures ok && fs.misreads == old(fs.misreads) ==> Does(Op.Disabling(service), old(fs.disk), fs.disk)
    ensures old(fs.leftovers) <= fs.leftovers && BackupsWhole(old(fs.disk), fs.disk)
    ensures Attempted(Op.Disabling(service), old(fs.disk), fs.disk)
    ensures AllAttempted(Op.Disabling(service), old(fs.disk), fs.history, |old(fs.history)|)
  {
    hide StripText, Attempted, Refreshed, Marked, Agrees, BackupsWhole, SamePam, OnlyArtifactsAdded, CanRefresh,
         IsTemp, TempName;
    listed := {};
    ghost var d, op := fs.disk, Op.Disabling(service);
    NothingAdded(d);
    GuardedStart(d, {}, fs.pid);
    ArtifactsAreAttempted(op, d, d);
    var path, backup := Pam(service), Pam(Bak(service));
    if !ValidServiceName(service) || path !in fs.disk || fs.disk[path].Special? {
      return false, listed;
    }
    var fault: bool := *;
    var f: File;
    if backup in fs.disk {
      if fs.disk[backup].Special? {
        return false, listed;
      }
      if fault {
        fs.faults := fs.faults + 1;
        return false, listed;
      }
      f := fs.disk[backup].file;
    } else {
      var content := fs.ReadText(path);
      if content == None {
        return false, listed;
      }
      if fault {
        fs.faults := fs.faults + 1;
        return false, listed;
      }
      var out := StripStanza(content.value);
      f := File(Utf8(out), fs.disk[path].file.mode);
    }
    assert RestoredService(d, service) == d[path := Regular(f)];
    ok := fs.AtomicWrite(path, f);
    ghost var e, states := fs.disk, fs.history;
    forall i | |old(fs.history)| <= i < |states| ensures Attempted(op, d, states[i]) {
      WriteIsDisabling(d, service, states[i], f, fs.pid);
    }
    NoNewBackup(d, service, e, f, fs.pid);
    if ok {
      WriteIsDisabling(d, service, e, f, fs.pid);
      ok, listed := fs.RefreshManifest();
      forall s | SamePam(e, s) ensures Attempted(op, d, s) {
        ManifestIsNoMatter(op, d, e, s);
      }
    } else {
      WriteIsDisabling(d, service, e, f, fs.pid);
    }
  }

  lemma NoNewBackup(d: Disk, n: string, s: Disk, f: File, pid: string)
    requires Pam(n) in d && (s == d[Pam(n) := Regular(f)] || Only(d, s, Temp(Pam(n), pid)))
    ensures BackupsWhole(d, s) && forall t :: SamePam(s, t) ==> BackupsWhole(d, t)
  {
    TempFacts(n, pid);
    hide IsTemp, TempName, IsBackup;
    forall m ensures Bak(m) != TempName(n, pid) {
      BakFacts(m, m);
    }
  }

  /** Writing the restored service passes through attempted states only. */
  lemma WriteIsDisabling(d: Disk, n: string, s: Disk, f: File, pid: string)
    requires ValidServiceName(n) && (Pam(Bak(n)) in d || IsText(d, Pam(n)))
    requires Pam(n) in d && RestoredService(d, n) == d[Pam(n) := Regular(f)]
    requires s == d[Pam(n) := Regular(f)] || (Only(d, s, Temp(Pam(n), pid)) && (Temp(Pam(n), pid) in d ==> s == d))
    ensures Attempted(Op.Disabling(n), d, s)
  {
    hide StripText, IsArtifact, RestoredService;
    if s != d[Pam(n) := Regular(f)] {
      ArtifactNames(n, pid);
      OneArtifactAdded(d, s, Temp(Pam(n), pid));
      ArtifactsAreAttempted(Op.Disabling(n), d, s);
    }
  }

  // ---------------------------------------------------------------- migrate

  ghost function SetOf(names: seq<string>): set<string> {
    set n | n in names
  }

  datatype Step = Skipped | Rewritten | Failed

  /** The body of the migration loop: one directory entry, `done` being rewritten already. */
  method MigrateEntry(fs: Store, name: string, selected: seq<string>, ghost d: Disk, ghost done: set<string>)
    returns (r: Step)
    requires fs.Valid() && Pam(name) in d && name !in done
    requires forall n :: n in done ==> Migratable(d, SetOf(selected), n) && IsText(d, Pam(n))
    requires fs.disk == MigrateDisk(d, done)
    modifies fs`disk, fs`history, fs`leftovers, fs`misreads, fs`faults
    ensures fs.Valid() && old(fs.history) <= fs.history
    ensures old(fs.misreads) <= fs.misreads && old(fs.faults) <= fs.faults
    ensures r.Skipped? ==> fs.disk == old(fs.disk)
    ensures fs.faults == old(fs.faults) ==> (r.Rewritten? ==> CanReplace(d, name, fs.pid))
    ensures fs.faults == old(fs.faults) ==>
              (r.Failed? ==> Migratable(d, SetOf(selected), name) && !CanReplace(d, name, fs.pid))
    ensures r.Skipped? && fs.misreads == old(fs.misreads) ==> !Migratable(d, SetOf(selected), name)
    ensures r.Rewritten? ==> Migratable(d, SetOf(selected), name) && fs.disk == MigrateDisk(d, done + {name})
    ensures r.Failed? ==> OnlyArtifactsAdded(old(fs.disk), fs.disk)
    ensures old(fs.leftovers) <= fs.leftovers
    ensures r.Failed? && fs.leftovers == old(fs.leftovers) ==> BackupsWhole(d, fs.disk)
    ensures AllAttempted(Op.Migrating(SetOf(selected)), d, fs.history, |old(fs.history)|)
    ensures old(fs.Watched() && fs.origin == d && SetOf(selected) <= fs.services && BackupsWhole(d, fs.disk)) ==>
              fs.Watched() && (!r.Failed? ==> BackupsWhole(d, fs.disk))
  {
    hide Guarded, RewriteText, Lines, HasDirect, NewText, IsBackup, StartsWith, MayChange, CanReplace,
         MigrateDisk, Replace, BackupsWhole, Todo, Replaceable, Attempted, OnlyArtifactsAdded;
    ghost var sel, e := SetOf(selected), fs.disk;
    NotYetMigrated(d, done, name);
    if fs.disk[Pam(name)].Special? || StartsWith(name, "irauth-") || IsBackup(name) || name !in selected {
      return Skipped;
    }
    var content := fs.ReadText(Pam(name));
    if content == None {
      return Skipped;
    }
    var out, found := RewriteDirectHowdyPam(content.value);
    if !found {
      return Skipped;
    }
    if fs.Watched() && fs.origin == d && sel <= fs.services && BackupsWhole(d, fs.disk) {
      MigrateMayReplace(fs, name, out);
    }
    MigrateOneMore(d, done, name);
    MigrateKeepsFree(d, done, name, fs.pid);
    var replaced := ReplaceService(fs, name, out);
    r := if replaced then Rewritten else Failed;
    MigratedIsWhole(d, done);
    OneMoreWhole(d, e, name);
    NothingAdded(MigrateDisk(d, done + {name}));
    MigratedInPart(d, sel, done + {name}, MigrateDisk(d, done + {name}));
    forall s | OnlyArtifactsAdded(e, s) ensures Attempted(Op.Migrating(sel), d, s) {
      MigratedInPart(d, sel, done, s);
    }
  }

  /** Migrating others neither removes nor creates what stands in the way of `n`. */
  lemma MigrateKeepsFree(d: Disk, done: set<string>, n: string, pid: string)
    requires forall m :: m in done ==> IsText(d, Pam(m)) && !IsBackup(m)
    requires n !in done
    ensures CanReplace(MigrateDisk(d, done), n, pid) <==> CanReplace(d, n, pid)
  {
    hide RewriteText, TempName, IsBackup, IsText;
    BakFacts(n, n);
    forall m ensures (Bak(m) == Bak(n) ==> m == n) && TempName(n, pid) != Bak(m) {
      BakFacts(m, n);
      TempIsNoBackup(n, pid, m);
    }
  }

  lemma MigratedIsWhole(d: Disk, done: set<string>)
    requires forall m :: m in done ==> IsText(d, Pam(m)) && !IsBackup(m)
    ensures BackupsWhole(d, MigrateDisk(d, done))
  {
    hide RewriteText, IsBackup;
    forall k, l ensures IsBackup(Bak(k)) && Unbak(Bak(k)) == k && (Bak(k) == Bak(l) ==> k == l) {
      BakFacts(k, l);
    }
  }

  lemma OneMoreWhole(d: Disk, s: Disk, n: string)
    requires BackupsWhole(d, s) && Pam(n) in d && Pam(n) in s && s[Pam(n)] == d[Pam(n)]
    ensures BackupsWhole(d, WithBackup(s, n))
  {
    forall m ensures Bak(m) == Bak(n) ==> m == n {
      BakFacts(m, n);
    }
  }

  /** A migration that has done some services, and perhaps left artifacts behind. */
  lemma MigratedInPart(d: Disk, sel: set<string>, done: set<string>, s: Disk)
    requires forall n :: n in done ==> Migratable(d, sel, n) && IsText(d, Pam(n))
    requires OnlyArtifactsAdded(MigrateDisk(d, done), s)
    ensures Attempted(Op.Migrating(sel), d, s)
  {
    hide RewriteText, Lines, HasDirect, StartsWith, IsTemp;
    var m := MigrateDisk(d, done);
    forall n | Pam(n) in d ensures Pam(n) in s && (s[Pam(n)] == d[Pam(n)] || Rewrites(Op.Migrating(sel), d, s, n)) {
      assert Pam(n) in m;
      BakFacts(n, n);
      if n in done {
        assert Pam(Bak(n)) in (set k | k in done :: Pam(Bak(k)));
        assert Bak(n) !in done;
      }
    }
    forall n | Pam(n) in s && Pam(n) !in d ensures IsArtifact(n) {
      if Pam(n) in m {
        var k :| k in done && Pam(n) == Pam(Bak(k));
        BakFacts(k, k);
      }
    }
  }

  ghost predicate Starts(fs: Store, sel: set<string>)
    reads fs
  {
    fs.Watched() && fs.disk == fs.origin && sel <= fs.services
  }

  /** The services in `done` are among the first `k` names and qualify. */
  ghost predicate DoneAmong(d: Disk, sel: set<string>, done: set<string>, names: seq<string>, k: nat)
    requires k <= |names|
  {
    forall n :: n in done ==> n in names[..k] && Migratable(d, sel, n) && IsText(d, Pam(n))
  }

  /** Every service that qualifies among the first `k` names is in `done`. */
  ghost predicate NoneMissed(d: Disk, sel: set<string>, done: set<string>, names: seq<string>, k: nat)
    requires k <= |names|
  {
    forall n :: n in names[..k] && Migratable(d, sel, n) ==> n in done
  }

  /** Where the loop stands before name `k`. */
  ghost predicate Underway(d: Disk, sel: set<string>, done: set<string>, names: seq<string>, k: nat, count: nat,
                           s: Disk)
    requires k <= |names|
  {
    count == |done| && DoneAmong(d, sel, done, names, k) && s == MigrateDisk(d, done)
  }

  /** What the loop body may rely on. */
  lemma BeforeName(d: Disk, sel: set<string>, done: set<string>, names: seq<string>, k: nat, count: nat, s: Disk)
    requires k < |names| && DistinctKeys(names, Same) && Underway(d, sel, done, names, k, count, s)
    ensures names[k] !in done && names[k] in names && s == MigrateDisk(d, done)
    ensures forall n :: n in done ==> Migratable(d, sel, n) && IsText(d, Pam(n))
  {
    hide Migratable, IsText;
    assert names[k] !in names[..k] by {
      assert forall i :: 0 <= i < k ==> Same(names[i]) != Same(names[k]);
    }
  }

  /** One name further, skipped or rewritten. */
  lemma PastName(d: Disk, sel: set<string>, done: set<string>, names: seq<string>, k: nat, count: nat, s: Disk, t: Disk)
    requires k < |names| && DistinctKeys(names, Same) && Underway(d, sel, done, names, k, count, s)
    ensures s == t ==> Underway(d, sel, done, names, k + 1, count, t)
    ensures Migratable(d, sel, names[k]) && t == MigrateDisk(d, done + {names[k]}) ==>
              Underway(d, sel, done + {names[k]}, names, k + 1, count + 1, t)
  {
    hide Migratable, IsText, DistinctKeys, MigrateDisk;
    BeforeName(d, sel, done, names, k, count, s);
    assert names[..k + 1] == names[..k] + [names[k]];
    if Migratable(d, sel, names[k]) {
      MigratableIsText(d, sel, names[k]);
    }
  }

  lemma NoneMissedPast(d: Disk, sel: set<string>, done: set<string>, names: seq<string>, k: nat)
    requires k < |names| && NoneMissed(d, sel, done, names, k)
    ensures !Migratable(d, sel, names[k]) ==> NoneMissed(d, sel, done, names, k + 1)
    ensures NoneMissed(d, sel, done + {names[k]}, names, k + 1)
  {
    hide Migratable;
    assert names[..k + 1] == names[..k] + [names[k]];
  }

  /** The loop of `migrate_direct_howdy_pam_in`. */
  method MigrateServices(fs: Store, selected: seq<string>)
    returns (ok: bool, migrated: nat, ghost done: set<string>)
    requires fs.Valid()
    modifies fs`disk, fs`history, fs`leftovers, fs`misreads, fs`faults
    ensures fs.Valid() && old(fs.history) <= fs.history
    ensures old(fs.misreads) <= fs.misreads && old(fs.leftovers) <= fs.leftovers && old(fs.faults) <= fs.faults
    ensures fs.faults == old(fs.faults) && fs.misreads == old(fs.misreads) ==>
              (ok <==> AllReplaceable(old(fs.disk), Todo(old(fs.disk), SetOf(selected)), fs.pid))
    ensures done <= Todo(old(fs.disk), SetOf(selected)) && migrated == |done|
    ensures ok ==> fs.disk == MigrateDisk(old(fs.disk), done)
    ensures !ok ==> OnlyArtifactsAdded(MigrateDisk(old(fs.disk), done), fs.disk)
    ensures fs.leftovers == old(fs.leftovers) ==> BackupsWhole(old(fs.disk), fs.disk)
    ensures Attempted(Op.Migrating(SetOf(selected)), old(fs.disk), fs.disk)
    ensures AllAttempted(Op.Migrating(SetOf(selected)), old(fs.disk), fs.history, |old(fs.history)|)
    ensures ok && fs.misreads == old(fs.misreads) ==> done == Todo(old(fs.disk), SetOf(selected))
    ensures old(Starts(fs, SetOf(selected))) ==> fs.Watched() && (ok ==> BackupsWhole(fs.origin, fs.disk))
  {
    ghost var d, sel := fs.disk, SetOf(selected);
    ghost var good, op := Starts(fs, sel), Op.Migrating(sel);
    ok, migrated, done := true, 0, {};
    var names := fs.ReadDir();
    GuardedStart(d, fs.services, fs.pid);
    LoopStarts(d, sel, names);
    NoneAttempted(op, d, fs.history);
    assert good ==> fs.Watched() && fs.origin == d && sel <= fs.services;
    hide Guarded, Migratable, BackupsWhole, SetOf, IsText, Todo, Attempted, AllAttempted, OnlyArtifactsAdded,
         Underway, NoneMissed, DistinctKeys, MigrateDisk, Starts, CanReplace, AllReplaceable;
    for i := 0 to |names|
      invariant fs.Valid() && old(fs.history) <= fs.history
      invariant old(fs.misreads) <= fs.misreads && old(fs.leftovers) <= fs.leftovers && old(fs.faults) <= fs.faults
      invariant fs.faults == old(fs.faults) ==> AllReplaceable(d, done, fs.pid)
      invariant Underway(d, sel, done, names, i, migrated, fs.disk)
      invariant AllAttempted(op, d, fs.history, |old(fs.history)|)
      invariant fs.misreads == old(fs.misreads) ==> NoneMissed(d, sel, done, names, i)
      invariant good ==> fs.Watched() && fs.origin == d && sel <= fs.services && BackupsWhole(d, fs.disk)
    {
      ghost var states, e := fs.history, fs.disk;
      BeforeName(d, sel, done, names, i, migrated, e);
      var r := MigrateEntry(fs, names[i], selected, d, done);
      MoreAttempted(op, d, states, fs.history, |old(fs.history)|);
      if r.Failed? {
        if fs.faults == old(fs.faults) {
          OneIrreplaceable(d, sel, names[i], fs.pid);
        }
        LoopEnds(d, sel, done, names, i, migrated, e);
        MigratedInPart(d, sel, done, fs.disk);
        return false, migrated, done;
      }
      PastName(d, sel, done, names, i, migrated, e, fs.disk);
      if fs.misreads == old(fs.misreads) {
        NoneMissedPast(d, sel, done, names, i);
      }
      if r.Rewritten? {
        if fs.faults == old(fs.faults) {
          OneMoreReplaceable(d, done, names[i], fs.pid);
        }
        done := done + {names[i]};
        migrated := migrated + 1;
      }
    }
    LoopEnds(d, sel, done, names, |names|, migrated, fs.disk);
    NothingAdded(fs.disk);
    MigratedInPart(d, sel, done, fs.disk);
  }

  lemma OneMoreReplaceable(d: Disk, done: set<string>, n: string, pid: string)
    requires AllReplaceable(d, done, pid) && CanReplace(d, n, pid)
    ensures AllReplaceable(d, done + {n}, pid)
  {
    hide CanReplace;
  }

  lemma OneIrreplaceable(d: Disk, sel: set<string>, n: string, pid: string)
    requires Migratable(d, sel, n) && !CanReplace(d, n, pid)
    ensures !AllReplaceable(d, Todo(d, sel), pid)
  {
    hide CanReplace;
    assert n in Todo(d, sel);
  }

  lemma LoopStarts(d: Disk, sel: set<string>, names: seq<string>)
    ensures Underway(d, sel, {}, names, 0, 0, d) && NoneMissed(d, sel, {}, names, 0)
    ensures forall pid :: AllReplaceable(d, {}, pid)
  {
    assert MigrateDisk(d, {}) == d;
  }

  /** What is done when the loop ends before name `k`. */
  lemma LoopEnds(d: Disk, sel: set<string>, done: set<string>, names: seq<string>, k: nat, count: nat, s: Disk)
    requires k <= |names| && Underway(d, sel, done, names, k, count, s)
    requires forall n :: n in names <==> Pam(n) in d
    ensures forall n :: n in done ==> Migratable(d, sel, n) && IsText(d, Pam(n))
    ensures done <= Todo(d, sel) && count == |done| && s == MigrateDisk(d, done) && BackupsWhole(d, s)
    ensures k == |names| && NoneMissed(d, sel, done, names, k) ==> done == Todo(d, sel)
  {
    assert names[..|names|] == names;
    TodoOf(d, sel, done);
    if k == |names| && NoneMissed(d, sel, done, names, k) {
      AllDone(d, sel, done);
    }
    hide HasDirect, StartsWith, IsText, TextAt;
    MigratedIsWhole(d, done);
  }

  /** `migrate_direct_howdy_pam_in`. */
  method Migrate(fs: Store, selected: seq<string>)
    returns (ok: bool, migrated: nat, ghost done: set<string>, ghost listed: set<string>)
    requires fs.Valid()
    modifies fs`disk, fs`history, fs`leftovers, fs`misreads, fs`faults
    ensures fs.Valid() && old(fs.history) <= fs.history
    ensures old(fs.misreads) <= fs.misreads && old(fs.leftovers) <= fs.leftovers && old(fs.faults) <= fs.faults
    ensures fs.faults == old(fs.faults) && fs.misreads == old(fs.misreads) ==>
              (ok <==> CanMigrate(old(fs.disk), SetOf(selected), fs.pid))
    ensures done <= Todo(old(fs.disk), SetOf(selected)) && migrated == |done|
    ensures ok ==> fs.disk == Refreshed(MigrateDisk(old(fs.disk), done), listed)
    ensures ok ==> listed <= Marked(MigrateDisk(old(fs.disk), done))
    ensures ok ==> (Agrees(fs.disk) <==> listed == Marked(MigrateDisk(old(fs.disk), done)))
    ensures fs.leftovers == old(fs.leftovers) ==> BackupsWhole(old(fs.disk), fs.disk)
    ensures Attempted(Op.Migrating(SetOf(selected)), old(fs.disk), fs.disk)
    ensures AllAttempted(Op.Migrating(SetOf(selected)), old(fs.disk), fs.history, |old(fs.history)|)
    ensures ok && fs.misreads == old(fs.misreads) ==>
              done == Todo(old(fs.disk), SetOf(selected)) && Does(Op.Migrating(SetOf(selected)), old(fs.disk), fs.disk)
    ensures old(Starts(fs, SetOf(selected))) ==> fs.Watched() && (ok ==> BackupsWhole(fs.origin, fs.disk))
  {
    hide Guarded, Todo, MigrateDisk, BackupsWhole, SetOf, Refreshed, Marked, Attempted, OnlyArtifactsAdded, Agrees,
         CanReplace, CanRefresh;
    ok, migrated, done, listed := false, 0, {}, {};
    ghost var d, op := fs.disk, Op.Migrating(SetOf(selected));
    NothingAdded(d);
    ArtifactsAreAttempted(op, d, d);
    GuardedStart(d, {}, fs.pid);
    var fault: bool := *;
    if fault {
      fs.faults := fs.faults + 1;
      TodoOf(fs.disk, SetOf(selected), {});
      return;
    }
    ok, migrated, done := MigrateServices(fs, selected);
    if ok {
      ghost var e := fs.disk;
      forall s | SamePam(e, s) ensures Attempted(op, d, s) {
        ManifestIsNoMatter(op, d, e, s);
      }
      ok, listed := fs.RefreshManifest();
      if ok {
        RefreshedFacts(e, listed);
      }
      SamePamWhole(fs.origin, e, fs.disk);
      SamePamWhole(d, e, fs.disk);
    }
  }

  lemma MigratableIsText(d: Disk, sel: set<string>, n: string)
    requires Migratable(d, sel, n)
    ensures IsText(d, Pam(n)) && Pam(n) in d
  {
  }

  lemma AllDone(d: Disk, sel: set<string>, done: set<string>)
    requires done <= Todo(d, sel)
    requires forall n :: Pam(n) in d && Migratable(d, sel, n) ==> n in done
    ensures done == Todo(d, sel)
  {
  }

  lemma TodoOf(d: Disk, sel: set<string>, done: set<string>)
    requires forall n :: n in done ==> Migratable(d, sel, n)
    ensures done <= Todo(d, sel)
  {
  }

  lemma SamePamWhole(o: Disk, d: Disk, s: Disk)
    requires SamePam(d, s)
    ensures BackupsWhole(o, d) ==> BackupsWhole(o, s)
  {
  }

  lemma NotYetMigrated(d: Disk, done: set<string>, n: string)
    requires forall m :: m in done ==> IsText(d, Pam(m))
    requires Pam(n) in d && n !in done
    ensures Pam(n) in MigrateDisk(d, done) && MigrateDisk(d, done)[Pam(n)] == d[Pam(n)]
  {
  }

  lemma MigrateMayReplace(fs: Store, n: string, out: string)
    requires fs.Watched() && BackupsWhole(fs.origin, fs.disk) && n in fs.services && !IsBackup(n)
    requires IsText(fs.origin, Pam(n)) && Pam(n) in fs.disk && fs.disk[Pam(n)] == fs.origin[Pam(n)]
    requires HasDirect(Lines(TextAt(fs.origin, Pam(n)))) && out == RewriteText(TextAt(fs.origin, Pam(n)))
    ensures Replaceable(fs, n, out)
  {
  }
}
