// The PAM transaction engine of irauthctl over a mutable directory. Every system call may fail at
// any time (`*`), and a failed write may leave anything in the file being written, so a contract
// of this class holds for every schedule of faults. `history` records every state the directory
// has been in; `faults` counts the calls that failed although nothing in the directory stood in
// their way, `misreads` readable files that a caller gave up on, and `leftovers` files that could
// not be removed after a failure; `hidden` holds the names that the latest lenient listing did not
// show.
module PamStore {
  import opened Text
  import opened PamText
  import opened Order
  import opened PamDisk

  datatype Opened = Created | AlreadyExists | Refused

  datatype SetupResult = Untouched | Committed | RolledBack | RollbackFailed

  class Store {
    const pid: string
    var disk: Disk
    ghost var history: seq<Disk>
    ghost var faults: nat
    ghost var misreads: nat
    ghost var leftovers: nat
    ghost var hidden: set<string>

    // The transaction being watched: where it began, what it may change, and since when.
    ghost var origin: Disk
    ghost var services: set<string>
    ghost var mark: nat

    ghost predicate Valid()
      reads this
    {
      mark < |history| && history[|history| - 1] == disk
    }

    /** Every state since `mark` is a legitimate state of the transaction. */
    ghost predicate Watched()
      reads this
    {
      Valid() && forall i :: mark <= i < |history| ==> Guarded(origin, history[i], services, pid)
    }

    /** Whatever happens at `p` alone is legitimate. */
    ghost predicate Free(p: Path)
      reads this
    {
      forall s :: Only(disk, s, p) ==> Guarded(origin, s, services, pid)
    }

    constructor (pid: string, disk: Disk)
      ensures Valid() && this.disk == disk && this.pid == pid
    {
      this.pid := pid;
      this.disk := disk;
      history := [disk];
      faults := 0;
      misreads := 0;
      leftovers := 0;
      hidden := {};
      origin := disk;
      services := {};
      mark := 0;
    }

    // -------------------------------------------------------------- system calls

    method Commit(d: Disk)
      requires Valid()
      modifies this`disk, this`history
      ensures Valid() && disk == d && history == old(history) + [d]
      ensures old(Watched()) && Guarded(origin, d, services, pid) ==> Watched()
    {
      disk := d;
      history := history + [d];
    }

    /** `create_new`: an empty file under a mode the umask may have changed. */
    method CreateNew(p: Path) returns (r: Opened)
      requires Valid()
      modifies this`disk, this`history, this`faults
      ensures Valid() && old(history) <= history && old(faults) <= faults
      ensures r.AlreadyExists? <==> p in old(disk)
      ensures r.Refused? ==> faults > old(faults)
      ensures r.Created? ==> p in disk && Only(old(disk), disk, p)
      ensures !r.Created? ==> disk == old(disk) && history == old(history)
      ensures forall i :: |old(history)| <= i < |history| ==> Only(old(disk), history[i], p)
      ensures old(Watched() && (p in disk || Free(p))) ==> Watched()
    {
      if p in disk {
        return AlreadyExists;
      }
      var fault: bool := *;
      if fault {
        faults := faults + 1;
        return Refused;
      }
      var mode: nat := *;
      Commit(disk[p := Regular(File(Utf8(""), mode))]);
      return Created;
    }

    /** `write_all`, `sync_all` and `set_permissions` on a file just created. */
    method Fill(p: Path, f: File) returns (ok: bool)
      requires Valid() && p in disk
      modifies this`disk, this`history, this`faults
      ensures Valid() && old(history) <= history && old(faults) <= faults
      ensures ok ==> disk == old(disk)[p := Regular(f)]
      ensures !ok ==> faults > old(faults)
      ensures Only(old(disk), disk, p) && p in disk
      ensures forall i :: |old(history)| <= i < |history| ==> Only(old(disk), history[i], p)
      ensures old(Watched() && Free(p)) ==> Watched()
    {
      hide Guarded;
      var torn: Content := *;
      var mode: nat := *;
      var fault: bool := *;
      if fault {
        Commit(disk[p := Regular(File(torn, mode))]);
        faults := faults + 1;
        return false;
      }
      Commit(disk[p := Regular(File(f.content, mode))]);
      fault := *;
      if fault {
        faults := faults + 1;
        return false;
      }
      Commit(disk[p := Regular(f)]);
      return true;
    }

    method Remove(p: Path) returns (ok: bool)
      requires Valid()
      modifies this`disk, this`history, this`faults
      ensures Valid() && old(history) <= history && old(faults) <= faults
      ensures ok ==> p in old(disk) && disk == old(disk) - {p} && history == old(history) + [disk]
      ensures !ok && faults == old(faults) ==> p !in old(disk)
      ensures !ok ==> disk == old(disk) && history == old(history)
      ensures old(Watched() && Free(p)) ==> Watched()
    {
      var fault: bool := *;
      if p !in disk {
        return false;
      }
      if fault {
        faults := faults + 1;
        return false;
      }
      Commit(disk - {p});
      return true;
    }

    /** The removal after a failure, whose own failure is ignored. */
    method CleanUp(p: Path)
      requires Valid() && p in disk
      modifies this`disk, this`history, this`leftovers, this`faults
      ensures Valid() && old(history) <= history && old(leftovers) <= leftovers && old(faults) <= faults
      ensures leftovers == old(leftovers) ==> disk == old(disk) - {p}
      ensures leftovers > old(leftovers) ==> faults > old(faults)
      ensures Only(old(disk), disk, p)
      ensures forall i :: |old(history)| <= i < |history| ==> Only(old(disk), history[i], p)
      ensures old(Watched() && Free(p)) ==> Watched()
    {
      var removed := Remove(p);
      if !removed {
        leftovers := leftovers + 1;
      }
    }

    /** Reads a file as text; None when it is not text or the read fails. */
    method ReadText(p: Path) returns (r: Option<string>)
      modifies this`misreads
      ensures r.Some? ==> IsText(disk, p) && r.value == TextAt(disk, p)
      ensures old(misreads) <= misreads
      ensures misreads == old(misreads) && IsText(disk, p) ==> r.Some?
    {
      var fault: bool := *;
      if !IsText(disk, p) {
        return None;
      }
      if fault {
        misreads := misreads + 1;
        return None;
      }
      return Some(TextAt(disk, p));
    }

    /** The names of the PAM directory, in any order. */
    method ReadDir() returns (names: seq<string>)
      ensures DistinctKeys(names, Same)
      ensures forall n :: n in names <==> Pam(n) in disk
    {
      names := [];
      var left := set p | p in disk && p.Pam?;
      while left != {}
        invariant DistinctKeys(names, Same)
        invariant forall p :: p in left ==> p in disk && p.Pam?
        invariant forall n :: Pam(n) in disk <==> n in names || Pam(n) in left
        invariant forall n :: n in names ==> Pam(n) !in left
        decreases |left|
      {
        var p :| p in left;
        left := left - {p};
        names := names + [p.name];
        assert p == Pam(p.name);
      }
    }

    /** A listing whose errors are ignored: it may show less than there is. */
    method ReadDirLeniently() returns (names: seq<string>)
      modifies this`hidden
      ensures DistinctKeys(names, Same)
      ensures forall n :: n in names <==> Pam(n) in disk && n !in hidden
      ensures forall n :: n in hidden ==> Pam(n) in disk
    {
      var all := ReadDir();
      names := [];
      hidden := {};
      for i := 0 to |all|
        invariant DistinctKeys(names, Same) && forall n :: n in names ==> n in all[..i]
        invariant forall n :: n in hidden ==> n in all[..i]
        invariant forall n :: n in all[..i] ==> (n in names <==> n !in hidden)
      {
        assert all[..i + 1] == all[..i] + [all[i]];
        assert all[i] in all && all[i] !in all[..i];
        var shown: bool := *;
        if shown {
          names := names + [all[i]];
        } else {
          hidden := hidden + {all[i]};
        }
      }
      assert all[..|all|] == all;
    }

    // -------------------------------------------------------------- files

    /** Writing `f` to `path` passes through legitimate states only. */
    ghost predicate MayWrite(path: Path, f: File)
      reads this
    {
      && (Temp(path, pid) in disk || Free(Temp(path, pid)))
      && Guarded(origin, disk[path := Regular(f)], services, pid)
    }

    method AtomicWrite(path: Path, f: File) returns (ok: bool)
      requires Valid()
      modifies this`disk, this`history, this`leftovers, this`faults
      ensures Valid() && old(history) <= history && old(faults) <= faults
      ensures ok ==> Temp(path, pid) !in old(disk) && disk == old(disk)[path := Regular(f)]
      ensures !ok && faults == old(faults) ==> Temp(path, pid) in old(disk)
      ensures !ok ==> Only(old(disk), disk, Temp(path, pid))
      ensures Temp(path, pid) in old(disk) ==> disk == old(disk) && history == old(history)
      ensures old(leftovers) <= leftovers && (!ok && leftovers == old(leftovers) ==> disk == old(disk))
      ensures forall i :: |old(history)| <= i < |history| ==>
                history[i] == old(disk)[path := Regular(f)] || Only(old(disk), history[i], Temp(path, pid))
      ensures old(Watched() && MayWrite(path, f)) ==> Watched()
    {
      hide Guarded, TempName, IsTemp, IsBackup;
      var tmp := Temp(path, pid);
      TempFacts(path.name, pid);
      var created := CreateNew(tmp);
      if !created.Created? {
        return false;
      }
      ok := Fill(tmp, f);
      var fault: bool := *;
      if ok && !fault {
        assert (disk - {tmp})[path := Regular(f)] == old(disk)[path := Regular(f)];
        Commit((disk - {tmp})[path := disk[tmp]]);
        return true;
      }
      faults := faults + 1;
      CleanUp(tmp);
      return false;
    }

    method CreateBackupOnce(n: string) returns (ok: bool)
      requires Valid()
      modifies this`disk, this`history, this`leftovers, this`faults
      ensures Valid() && old(history) <= history && old(faults) <= faults
      ensures ok ==> Pam(n) in old(disk) && old(disk)[Pam(n)].Regular? && disk == WithBackup(old(disk), n)
      ensures faults == old(faults) ==>
                (ok <==> Pam(n) in old(disk) && old(disk)[Pam(n)].Regular? && CanBackUp(old(disk), n))
      ensures !ok ==> Only(old(disk), disk, Pam(Bak(n)))
      ensures Pam(Bak(n)) in old(disk) ==> disk == old(disk) && history == old(history)
      ensures old(leftovers) <= leftovers && (!ok && leftovers == old(leftovers) ==> disk == old(disk))
      ensures forall i :: |old(history)| <= i < |history| ==> Only(old(disk), history[i], Pam(Bak(n)))
      ensures old(Watched() && (Pam(Bak(n)) in disk || Free(Pam(Bak(n))))) ==> Watched()
    {
      hide Guarded;
      var src, bak := Pam(n), Pam(Bak(n));
      assert |Bak(n)| > |n|;
      var fault: bool := *;
      if src !in disk || disk[src].Special? {
        return false;
      }
      if fault {
        faults := faults + 1;
        return false;
      }
      var f := disk[src].file;
      var created := CreateNew(bak);
      match created {
        case AlreadyExists => return disk[bak].Regular?;
        case Refused => return false;
        case Created =>
      }
      ok := Fill(bak, f);
      if !ok {
        CleanUp(bak);
      }
    }

    /** The scanning loop of `refresh_migration_manifest_in`. */
    method FindMarked() returns (migrated: seq<string>, ghost listed: set<string>)
      requires Valid()
      modifies this`misreads
      ensures old(misreads) <= misreads
      ensures listed <= Marked(disk) && (misreads == old(misreads) ==> listed == Marked(disk))
      ensures DistinctKeys(migrated, Same) && forall n :: n in migrated <==> n in listed
    {
      hide Contains, IsArtifact, MARKER, IsTemp;
      var names := ReadDir();
      migrated := [];
      for i := 0 to |names|
        invariant old(misreads) <= misreads
        invariant DistinctKeys(migrated, Same)
        invariant forall n :: n in migrated ==> n in names[..i] && IsMarked(disk, n)
        invariant misreads == old(misreads) ==> forall n :: n in names[..i] && IsMarked(disk, n) ==> n in migrated
      {
        var name := names[i];
        assert names[..i + 1] == names[..i] + [name];
        assert name !in names[..i];
        assert name in names;
        if disk[Pam(name)].Special? || IsArtifact(name) {
          continue;
        }
        var content := ReadText(Pam(name));
        if content.Some? && Contains(content.value, MARKER) {
          migrated := migrated + [name];
        }
      }
      listed := set n | n in migrated;
      assert names[..|names|] == names;
      forall n ensures n in Marked(disk) <==> IsMarked(disk, n) {
        MarkedFacts(disk, n);
      }
    }

    /** `refresh_migration_manifest_in`. */
    method RefreshManifest() returns (ok: bool, ghost listed: set<string>)
      requires Valid()
      modifies this`disk, this`history, this`misreads, this`leftovers, this`faults
      ensures Valid() && old(history) <= history
      ensures old(misreads) <= misreads && old(leftovers) <= leftovers && old(faults) <= faults
      ensures faults == old(faults) && misreads == old(misreads) ==> (ok <==> CanRefresh(old(disk), pid))
      ensures ok ==> listed <= Marked(old(disk)) && disk == Refreshed(old(disk), listed)
      ensures ok && misreads == old(misreads) ==> listed == Marked(old(disk))
      ensures ok ==> (Agrees(disk) <==> listed == Marked(old(disk)))
      ensures SamePam(old(disk), disk)
      ensures forall i :: |old(history)| <= i < |history| ==> SamePam(old(disk), history[i])
      ensures old(Watched()) ==> Watched()
    {
      hide Guarded, Marked, SortBy, InOrder, PathLines, Unlines, MANIFEST, Agrees;
      listed := {};
      var fault: bool := *;
      if fault {
        faults := faults + 1;
        return false, listed;
      }
      var migrated: seq<string>;
      migrated, listed := FindMarked();
      SortedListing(migrated, listed);
      AgreesExactly(disk, listed);
      ManifestFree();
      RefreshedFacts(disk, listed);
      ManifestIsEtc();
      if migrated == [] {
        assert listed == {};
        if MANIFEST in disk {
          ok := Remove(MANIFEST);
          return ok, listed;
        }
        assert disk - {MANIFEST} == disk;
        return true, listed;
      }
      assert migrated[0] in listed;
      fault := *;
      if fault {
        faults := faults + 1;
        return false, listed;
      }
      var f := File(Utf8(Unlines(PathLines(SortBy(migrated, Same)))), MANIFEST_MODE);
      assert Only(disk, disk[MANIFEST := Regular(f)], MANIFEST);
      ok := AtomicWrite(MANIFEST, f);
    }

    lemma ManifestIsEtc()
      ensures MANIFEST.Etc? && Temp(MANIFEST, pid).Etc?
    {
    }

    /** Inside a transaction the manifest and its temporary file are free to change. */
    lemma ManifestFree()
      ensures Watched() ==> Free(MANIFEST)
      ensures Watched() && Temp(MANIFEST, pid) !in disk ==> Free(Temp(MANIFEST, pid))
    {
      hide Guarded;
      if Watched() {
        var tmp := Temp(MANIFEST, pid);
        forall s | Only(disk, s, MANIFEST) ensures Guarded(origin, s, services, pid) {
          GuardedScratch(origin, disk, s, MANIFEST, services, pid);
        }
        forall s | Only(disk, s, tmp) && tmp !in disk ensures Guarded(origin, s, services, pid) {
          GuardedScratch(origin, disk, s, tmp, services, pid);
        }
      }
    }
  }
}
