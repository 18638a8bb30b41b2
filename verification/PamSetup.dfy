// The lockout-sensitive end of `irauthctl setup`: take a snapshot, migrate and enable, and put
// everything back if any step fails.
module PamSetup {
  import opened Text
  import opened Order
  import opened PamText
  import opened PamDisk
  import opened PamStore
  import opened PamOps
  import opened PamRuns
  import PamStack

  // ---------------------------------------------------------------- snapshot

  /** `snapshot_pam_state_in`; None when a listing or a read fails. */
  method TakeSnapshot(fs: Store) returns (r: Option<Snapshot>)
    modifies fs`faults
    ensures r.Some? ==> Remembers(r.value, fs.disk)
    ensures old(fs.faults) <= fs.faults && (r == None ==> fs.faults > old(fs.faults))
  {
    var fault: bool := *;
    if fault {
      fs.faults := fs.faults + 1;
      return None;
    }
    var names := fs.ReadDir();
    var files: seq<Saved> := [];
    for i := 0 to |names|
      invariant forall k :: 0 <= k < |files| ==>
        files[k].path.Pam? && files[k].path.name in names[..i]
        && files[k].path in fs.disk && fs.disk[files[k].path] == Regular(files[k].file)
      invariant DistinctPaths(files)
      invariant forall n :: n in names[..i] && Pam(n) in fs.disk && fs.disk[Pam(n)].Regular? ==>
        exists k :: 0 <= k < |files| && files[k].path == Pam(n)
    {
      var name := names[i];
      assert names[..i + 1] == names[..i] + [name];
      assert name in names && name !in names[..i];
      if fs.disk[Pam(name)].Regular? {
        fault := *;
        if fault {
          fs.faults := fs.faults + 1;
          return None;
        }
        var before := files;
        files := files + [Saved(Pam(name), fs.disk[Pam(name)].file)];
        assert files[|before|].path == Pam(name);
        assert forall k :: 0 <= k < |before| ==> files[k] == before[k];
      }
    }
    assert names[..|names|] == names;
    var manifest: Option<File> := None;
    if MANIFEST in fs.disk && fs.disk[MANIFEST].Regular? {
      fault := *;
      if fault {
        fs.faults := fs.faults + 1;
        return None;
      }
      manifest := Some(fs.disk[MANIFEST].file);
    }
    r := Some(Snapshot(files, manifest));
    forall p | p in fs.disk && p.Pam? && fs.disk[p].Regular? ensures IsSaved(r.value, p) {
      assert p == Pam(p.name);
    }
  }

  // ---------------------------------------------------------------- restore

  ghost predicate SavesPam(files: seq<Saved>) {
    DistinctPaths(files) && forall i :: 0 <= i < |files| ==> files[i].path.Pam?
  }

  /** The first `k` saved files are back and nothing else has changed. */
  ghost predicate FilesBack(d: Disk, files: seq<Saved>, k: nat, s: Disk)
    requires k <= |files|
  {
    && (forall i :: 0 <= i < k ==> files[i].path in s && s[files[i].path] == Regular(files[i].file))
    && (forall p :: (forall i :: 0 <= i < k ==> files[i].path != p) ==>
          (p in d <==> p in s) && (p in d ==> s[p] == d[p]))
  }

  /** Every state of a rollback that began in `d`: each saved file is as it was found or as it was
      saved, and what was neither saved nor an artifact has not moved. */
  ghost predicate Recovering(d: Disk, snap: Snapshot, s: Disk) {
    && (forall i :: 0 <= i < |snap.files| && snap.files[i].path in d ==>
          var p := snap.files[i].path;
          p in s && (s[p] == d[p] || s[p] == Regular(snap.files[i].file)))
    && (forall n :: !IsSaved(snap, Pam(n)) && !IsArtifact(n) ==>
          (Pam(n) in d <==> Pam(n) in s) && (Pam(n) in d ==> s[Pam(n)] == d[Pam(n)]))
  }

  ghost predicate AllRecovering(d: Disk, snap: Snapshot, states: seq<Disk>, from: nat) {
    forall i :: from <= i < |states| ==> Recovering(d, snap, states[i])
  }

  lemma RecoveringWrite(d: Disk, snap: Snapshot, s: Disk, k: nat, t: Disk, pid: string)
    requires SavesPam(snap.files) && k < |snap.files| && Recovering(d, snap, s)
    requires var tmp := Temp(snap.files[k].path, pid);
             || t == s[snap.files[k].path := Regular(snap.files[k].file)]
             || (tmp !in s && Only(s, t, tmp)) || t == s
    ensures Recovering(d, snap, t)
  {
    hide IsArtifact;
    ArtifactNames(snap.files[k].path.name, pid);
  }

  lemma NoneRecovering(d: Disk, snap: Snapshot, states: seq<Disk>)
    ensures AllRecovering(d, snap, states, |states|)
  {
  }

  lemma MoreRecovering(d: Disk, snap: Snapshot, s: Disk, k: nat, states: seq<Disk>, more: seq<Disk>,
                       from: nat, pid: string)
    requires SavesPam(snap.files) && k < |snap.files| && Recovering(d, snap, s)
    requires AllRecovering(d, snap, states, from) && states <= more
    requires forall j :: |states| <= j < |more| ==>
               var tmp := Temp(snap.files[k].path, pid);
               || more[j] == s[snap.files[k].path := Regular(snap.files[k].file)]
               || (tmp !in s && Only(s, more[j], tmp))
    ensures AllRecovering(d, snap, more, from)
  {
    hide Recovering, Only;
    forall j | from <= j < |more| ensures Recovering(d, snap, more[j]) {
      if j >= |states| {
        RecoveringWrite(d, snap, s, k, more[j], pid);
      }
    }
  }

  lemma RecoveringElsewhere(d: Disk, snap: Snapshot, s: Disk, t: Disk, p: Path)
    requires SavesPam(snap.files) && Recovering(d, snap, s) && Only(s, t, p)
    requires p.Etc? || (IsArtifact(p.name) && !IsSaved(snap, p))
    ensures Recovering(d, snap, t)
  {
    hide IsArtifact;
    forall i | 0 <= i < |snap.files| ensures snap.files[i].path != p {
      assert snap.files[i].path.Pam?;
    }
  }

  method WriteFilesBack(fs: Store, snap: Snapshot) returns (ok: bool)
    requires fs.Valid() && SavesPam(snap.files)
    modifies fs`disk, fs`history, fs`leftovers, fs`faults
    ensures fs.Valid() && old(fs.history) <= fs.history && old(fs.faults) <= fs.faults
    ensures ok ==> FirstWritable(old(fs.disk), snap.files, |snap.files|, fs.pid)
    ensures fs.faults == old(fs.faults) && AllThere(old(fs.disk), snap.files) ==>
              FirstWritable(old(fs.disk), snap.files, |snap.files|, fs.pid) ==> ok
    ensures ok ==> FilesBack(old(fs.disk), snap.files, |snap.files|, fs.disk)
    ensures Recovering(old(fs.disk), snap, fs.disk)
    ensures AllRecovering(old(fs.disk), snap, fs.history, |old(fs.history)|)
  {
    hide Recovering, AllRecovering, FilesBack, AllThere, FirstWritable;
    ghost var d := fs.disk;
    RecoveringStart(d, snap);
    NothingBack(d, snap.files, fs.pid);
    NoneRecovering(d, snap, fs.history);
    ok := true;
    for i := 0 to |snap.files|
      invariant fs.Valid() && old(fs.history) <= fs.history && old(fs.faults) <= fs.faults
      invariant ok ==> FirstWritable(d, snap.files, i, fs.pid)
      invariant fs.faults == old(fs.faults) && AllThere(d, snap.files) ==>
        FirstWritable(d, snap.files, |snap.files|, fs.pid) ==> ok
      invariant ok ==> FilesBack(d, snap.files, i, fs.disk)
      invariant Recovering(d, snap, fs.disk) && AllRecovering(d, snap, fs.history, |old(fs.history)|)
    {
      ghost var s, states := fs.disk, fs.history;
      var written := fs.AtomicWrite(snap.files[i].path, snap.files[i].file);
      RecoveringWrite(d, snap, s, i, fs.disk, fs.pid);
      MoreRecovering(d, snap, s, i, states, fs.history, |old(fs.history)|, fs.pid);
      if ok {
        StillWritable(d, snap.files, i, s, fs.pid);
        if written {
          OneMoreBack(d, snap.files, i, s);
        }
      }
      ok := ok && written;
    }
  }

  /** No stale temporary file blocks writing the first `k` saved files. */
  ghost predicate FirstWritable(d: Disk, files: seq<Saved>, k: nat, pid: string)
    requires k <= |files|
  {
    forall i :: 0 <= i < k ==> CanWrite(d, files[i].path, pid)
  }

  ghost predicate AllThere(d: Disk, files: seq<Saved>) {
    forall i :: 0 <= i < |files| ==> files[i].path in d
  }

  lemma NothingBack(d: Disk, files: seq<Saved>, pid: string)
    ensures FilesBack(d, files, 0, d) && FirstWritable(d, files, 0, pid)
  {
  }

  /** Putting files back neither adds nor removes what blocks the next one. */
  lemma StillWritable(d: Disk, files: seq<Saved>, k: nat, s: Disk, pid: string)
    requires k < |files| && FilesBack(d, files, k, s)
    ensures FirstWritable(d, files, k, pid) && CanWrite(s, files[k].path, pid) ==> FirstWritable(d, files, k + 1, pid)
    ensures FirstWritable(d, files, |files|, pid) && AllThere(d, files) ==> CanWrite(s, files[k].path, pid)
  {
  }

  lemma RecoveringStart(d: Disk, snap: Snapshot)
    ensures Recovering(d, snap, d)
  {
  }

  lemma OneMoreBack(d: Disk, files: seq<Saved>, k: nat, s: Disk)
    requires k < |files| && DistinctPaths(files) && FilesBack(d, files, k, s)
    ensures FilesBack(d, files, k + 1, s[files[k].path := Regular(files[k].file)])
  {
  }

  /** The directory without the artifacts among the first `k` names. */
  ghost predicate Swept(d: Disk, snap: Snapshot, names: seq<string>, k: nat, s: Disk)
    requires k <= |names|
  {
    forall p: Path :: if p.Pam? && p.name in names[..k] && IsArtifact(p.name) && !IsSaved(snap, p) then p !in s
                else (p in d <==> p in s) && (p in d ==> s[p] == d[p])
  }

  ghost predicate SameEtc(d: Disk, s: Disk) {
    forall n :: (Etc(n) in d <==> Etc(n) in s) && (Etc(n) in d ==> s[Etc(n)] == d[Etc(n)])
  }

  /** Removes the artifacts that a listing shows and that were not saved. The listing may miss
      entries: an unreadable directory or entry is silently skipped. */
  method SweepArtifacts(fs: Store, snap: Snapshot, ghost d: Disk) returns (ok: bool)
    requires fs.Valid() && SavesPam(snap.files) && Recovering(d, snap, fs.disk)
    modifies fs`disk, fs`history, fs`leftovers, fs`hidden, fs`faults
    ensures fs.Valid() && old(fs.history) <= fs.history && old(fs.faults) <= fs.faults
    ensures fs.faults == old(fs.faults) ==> ok
    ensures ok ==> forall n :: if n !in fs.hidden && IsArtifact(n) && !IsSaved(snap, Pam(n)) then Pam(n) !in fs.disk
                     else (Pam(n) in old(fs.disk) <==> Pam(n) in fs.disk)
                          && (Pam(n) in old(fs.disk) ==> fs.disk[Pam(n)] == old(fs.disk)[Pam(n)])
    ensures ok ==> SameEtc(old(fs.disk), fs.disk)
    ensures Recovering(d, snap, fs.disk) && AllRecovering(d, snap, fs.history, |old(fs.history)|)
  {
    hide IsArtifact, IsSaved, Recovering, Swept;
    ok := true;
    ghost var e := fs.disk;
    var names := fs.ReadDirLeniently();
    ghost var hidden := fs.hidden;
    NothingSwept(e, snap, names);
    for i := 0 to |names|
      invariant fs.Valid() && old(fs.history) <= fs.history && fs.hidden == hidden
      invariant old(fs.faults) <= fs.faults && (fs.faults == old(fs.faults) ==> ok)
      invariant ok ==> Swept(e, snap, names, i, fs.disk)
      invariant Recovering(d, snap, fs.disk) && AllRecovering(d, snap, fs.history, |old(fs.history)|)
    {
      var path := Pam(names[i]);
      ghost var s := fs.disk;
      if ok {
        NotYetSwept(e, snap, names, i, s);
      }
      if !IsSaved(snap, path) && IsArtifact(names[i]) {
        var removed := fs.Remove(path);
        RecoveringElsewhere(d, snap, s, fs.disk, path);
        ok := ok && removed;
      }
      if ok {
        SweptOne(e, snap, names, i, s, fs.disk);
      }
    }
    if ok {
      SweptAll(e, snap, names, fs.disk);
    }
  }

  lemma NothingSwept(d: Disk, snap: Snapshot, names: seq<string>)
    ensures Swept(d, snap, names, 0, d)
  {
  }

  lemma NotYetSwept(d: Disk, snap: Snapshot, names: seq<string>, k: nat, s: Disk)
    requires k < |names| && DistinctKeys(names, Same) && Swept(d, snap, names, k, s) && Pam(names[k]) in d
    ensures Pam(names[k]) in s
  {
    hide IsArtifact, IsSaved;
    assert names[k] !in names[..k] by {
      assert forall i :: 0 <= i < k ==> Same(names[i]) != Same(names[k]);
    }
  }

  lemma SweptOne(d: Disk, snap: Snapshot, names: seq<string>, k: nat, s: Disk, t: Disk)
    requires k < |names| && Swept(d, snap, names, k, s)
    requires t == if IsArtifact(names[k]) && !IsSaved(snap, Pam(names[k])) then s - {Pam(names[k])} else s
    ensures Swept(d, snap, names, k + 1, t)
  {
    hide IsArtifact, IsSaved;
    assert names[..k + 1] == names[..k] + [names[k]];
  }

  lemma SweptAll(d: Disk, snap: Snapshot, names: seq<string>, s: Disk)
    requires Swept(d, snap, names, |names|, s)
    ensures SameEtc(d, s)
    ensures forall n :: if n in names && IsArtifact(n) && !IsSaved(snap, Pam(n)) then Pam(n) !in s
              else (Pam(n) in d <==> Pam(n) in s) && (Pam(n) in d ==> s[Pam(n)] == d[Pam(n)])
  {
    hide IsArtifact, IsSaved;
    assert names[..|names|] == names;
    forall n ensures (n in names) <==> Pam(n).name in names[..|names|] {
    }
  }

  /** `restore_pam_state`: every step is tried, and success means that none failed. */
  method Restore(fs: Store, snap: Snapshot) returns (ok: bool)
    requires fs.Valid() && SavesPam(snap.files)
    modifies fs`disk, fs`history, fs`leftovers, fs`hidden, fs`faults
    ensures fs.Valid() && old(fs.history) <= fs.history && old(fs.faults) <= fs.faults
    ensures fs.faults == old(fs.faults) && AllThere(old(fs.disk), snap.files) ==>
              (ok <==> CanRestore(old(fs.disk), snap, fs.pid))
    ensures ok ==> Restored(old(fs.disk), snap, PamNames(old(fs.disk)) - fs.hidden, fs.disk)
    ensures AllRecovering(old(fs.disk), snap, fs.history, |old(fs.history)|)
  {
    hide IsArtifact, Recovering, FirstWritable, AllThere, FilesBack, Restored, SameEtc, CanWrite, CanRestore;
    ghost var d := fs.disk;
    var written := WriteFilesBack(fs, snap);
    ghost var e := fs.disk;
    var swept := SweepArtifacts(fs, snap, d);
    ghost var g, states := fs.disk, fs.history;
    if written && swept {
      ManifestUntouched(d, snap, e, g, fs.pid);
    }
    CanRestoreExactly(d, snap, fs.pid);
    WritableExactly(g, fs.pid);
    var listed := true;
    match snap.manifest {
      case Some(f) => listed := fs.AtomicWrite(MANIFEST, f);
      case None =>
        if MANIFEST in fs.disk {
          listed := fs.Remove(MANIFEST);
        }
    }
    RecoveringManifest(d, snap, g, fs.pid);
    ok := written && swept && listed;
    if ok {
      RestoreDone(d, e, g, fs.disk, snap, fs.hidden);
    }
  }

  /** Writing or removing the manifest is no matter for the recovery. */
  lemma RecoveringManifest(d: Disk, snap: Snapshot, g: Disk, pid: string)
    requires SavesPam(snap.files) && Recovering(d, snap, g)
    ensures forall f: File :: Recovering(d, snap, g[MANIFEST := Regular(f)])
    ensures Recovering(d, snap, g - {MANIFEST})
    ensures forall t :: Only(g, t, Temp(MANIFEST, pid)) ==> Recovering(d, snap, t)
  {
    hide Recovering, IsArtifact, TempName;
    assert MANIFEST.Etc? && Temp(MANIFEST, pid).Etc?;
    forall f: File ensures Recovering(d, snap, g[MANIFEST := Regular(f)]) {
      RecoveringElsewhere(d, snap, g, g[MANIFEST := Regular(f)], MANIFEST);
    }
    RecoveringElsewhere(d, snap, g, g - {MANIFEST}, MANIFEST);
    forall t | Only(g, t, Temp(MANIFEST, pid)) ensures Recovering(d, snap, t) {
      RecoveringElsewhere(d, snap, g, t, Temp(MANIFEST, pid));
    }
  }

  lemma ManifestUntouched(d: Disk, snap: Snapshot, e: Disk, g: Disk, pid: string)
    requires SavesPam(snap.files) && FilesBack(d, snap.files, |snap.files|, e) && SameEtc(e, g)
    ensures CanWrite(g, MANIFEST, pid) <==> CanWrite(d, MANIFEST, pid)
  {
    hide TempName;
    var tmp := Temp(MANIFEST, pid);
    assert tmp.Etc? && forall i :: 0 <= i < |snap.files| ==> snap.files[i].path != tmp;
  }

  lemma CanRestoreExactly(d: Disk, snap: Snapshot, pid: string)
    ensures CanRestore(d, snap, pid) <==>
      FirstWritable(d, snap.files, |snap.files|, pid) && (snap.manifest.Some? ==> CanWrite(d, MANIFEST, pid))
  {
    hide CanWrite;
  }

  lemma WritableExactly(d: Disk, pid: string)
    ensures CanWrite(d, MANIFEST, pid) <==> Temp(MANIFEST, pid) !in d
  {
  }

  lemma RestoreDone(d: Disk, e: Disk, g: Disk, s: Disk, snap: Snapshot, hidden: set<string>)
    requires SavesPam(snap.files) && FilesBack(d, snap.files, |snap.files|, e)
    requires forall n :: if n !in hidden && IsArtifact(n) && !IsSaved(snap, Pam(n)) then Pam(n) !in g
               else (Pam(n) in e <==> Pam(n) in g) && (Pam(n) in e ==> g[Pam(n)] == e[Pam(n)])
    requires match snap.manifest
             case Some(f) => s == g[MANIFEST := Regular(f)]
             case None => s == g - {MANIFEST}
    ensures Restored(d, snap, PamNames(d) - hidden, s)
  {
    hide IsArtifact;
    forall i | 0 <= i < |snap.files|
      ensures snap.files[i].path in s && s[snap.files[i].path] == Regular(snap.files[i].file)
    {
      assert snap.files[i].path == Pam(snap.files[i].path.name) && IsSaved(snap, snap.files[i].path);
    }
    forall n | !IsSaved(snap, Pam(n))
      ensures if IsArtifact(n) && n in PamNames(d) - hidden then Pam(n) !in s
              else (Pam(n) in s <==> Pam(n) in d) && (Pam(n) in d ==> s[Pam(n)] == d[Pam(n)])
    {
      MarkedFacts(d, n);
      assert forall i :: 0 <= i < |snap.files| ==> snap.files[i].path != Pam(n);
    }
  }

  // ---------------------------------------------------------------- the transaction

  method Exists(fs: Store, name: string) returns (there: bool)
    ensures there ==> Pam(name) in fs.disk
    ensures Pam(name) in fs.disk && fs.disk[Pam(name)].Regular? ==> there
  {
    // A directory or a link that leads somewhere exists too; a dangling link does not.
    var special: bool := *;
    there := Pam(name) in fs.disk && (fs.disk[Pam(name)].Regular? || special);
  }

  /** Where the transaction stands after a step that succeeded: `named` have been through enable, and
      `routed` are enabled. */
  ghost predicate InStep(fs: Store, named: set<string>, routed: set<string>)
    reads fs
  {
    && fs.Watched() && BackupsWhole(fs.origin, fs.disk)
    && (forall n :: n in named ==> Named(fs.disk, n)) && (forall n :: n in routed ==> Enabled(fs.disk, n))
  }

  /** Enables one more service, which keeps the manifest in step. */
  method EnableNext(fs: Store, service: string, ghost named: set<string>, ghost routed: set<string>) returns (ok: bool)
    requires InStep(fs, named, routed) && service in fs.services
    modifies fs`disk, fs`history, fs`leftovers, fs`misreads, fs`faults
    ensures fs.Watched() && old(fs.history) <= fs.history
    ensures old(fs.misreads) <= fs.misreads && old(fs.faults) <= fs.faults
    ensures fs.faults == old(fs.faults) && fs.misreads == old(fs.misreads) ==>
              (ok <==> CanEnable(old(fs.disk), service, fs.pid))
    ensures ok ==> AddedAtMost(old(fs.disk), fs.disk, service, fs.pid)
    ensures ok ==> InStep(fs, named + {service}, routed)
    ensures ok && old(Agrees(fs.disk)) ==> Agrees(fs.disk)
  {
    hide Guarded, BackupsWhole, EnableDisk, Marked, ManifestEntry, MANIFEST, Named, Enabled, Attempted, AllAttempted,
         CanEnable, AddedAtMost;
    ghost var d := fs.disk;
    ok := PamEnable(fs, service);
    if ok {
      EnableKeepsOthers(d, service, fs.pid);
      EnableEnables(d, service);
      EnableKeepsMarked(d, service);
    }
  }

  /** For every other service enabling is as possible in `s` as in `d`, and it is there or not as in
      `d`. */
  ghost predicate AddedAtMost(d: Disk, s: Disk, n: string, pid: string) {
    forall m :: m != n && ValidServiceName(m) ==>
      && (CanEnable(s, m, pid) <==> CanEnable(d, m, pid))
      && (Pam(m) in s <==> Pam(m) in d) && (Pam(m) in d ==> s[Pam(m)] == d[Pam(m)])
  }

  lemma EnableKeepsOthers(d: Disk, n: string, pid: string)
    requires ValidServiceName(n) && IsText(d, Pam(n))
    ensures AddedAtMost(d, EnableDisk(d, n), n, pid)
  {
    hide HasIrauth, Lines, EnableText, TempName, IsArtifact, ValidServiceName;
    forall m | m != n && ValidServiceName(m) ensures Bak(n) != m && TempName(m, pid) != Bak(n) && Bak(m) != Bak(n) {
      BackupIsNoService(n, m);
      TempIsNoBackup(m, pid, n);
      BakFacts(m, n);
    }
  }

  /** A regular file stays one throughout a transaction. */
  lemma RegularStays(o: Disk, s: Disk, n: string, services: set<string>, pid: string)
    requires Guarded(o, s, services, pid) && Pam(n) in o && o[Pam(n)].Regular?
    ensures Pam(n) in s && s[Pam(n)].Regular?
  {
    assert Pam(n) != MANIFEST;
  }

  /** The services of setup: sudo, and of the other two those that are there. */
  predicate Wanted(o: Disk, withLogin: bool, n: string) {
    || n == "sudo"
    || ((n == "polkit-1" || (withLogin && n == "gdm-password")) && Pam(n) in o && o[Pam(n)].Regular?)
  }

  /** A service that enable alone makes call pam_irauth, if it does not do so already. */
  predicate Enableable(o: Disk, n: string) {
    !Named(o, n) || Enabled(o, n)
  }

  predicate HadDirect(o: Disk, n: string) {
    IsText(o, Pam(n)) && HasDirect(Lines(TextAt(o, Pam(n))))
  }

  /** What a successful setup has made of its services: each calls pam_irauth, except perhaps one that
      named it before in a line that calls nothing. */
  ghost predicate SetUp(o: Disk, s: Disk, withLogin: bool) {
    forall n :: Wanted(o, withLogin, n) ==>
      && Named(s, n)
      && (Enableable(o, n) ==> Enabled(s, n))
      && (Enabled(s, n) ==> Enableable(o, n) || HadDirect(o, n))
  }

  /** The same when no file was misread: the exception is exactly a service that named pam_irauth in a
      line that calls nothing and had no direct entry to migrate. */
  ghost predicate SetUpExactly(o: Disk, s: Disk, withLogin: bool) {
    forall n :: Wanted(o, withLogin, n) ==> (Enabled(s, n) <==> Enableable(o, n) || HadDirect(o, n))
  }

  lemma NamedIsThere(s: Disk, n: string)
    requires Named(s, n)
    ensures Pam(n) in s
  {
  }

  /** In a transaction a service that names pam_irauth either does so since the beginning, unchanged,
      or was replaced and calls it. */
  lemma NamedInTransaction(o: Disk, s: Disk, n: string, services: set<string>, pid: string)
    requires Guarded(o, s, services, pid) && Pam(n) in o && Named(s, n)
    ensures Enableable(o, n) ==> Enabled(s, n)
    ensures Enabled(s, n) ==> Enableable(o, n) || HadDirect(o, n)
  {
    assert Pam(n) != MANIFEST;
    hide Lines, HasIrauth, HasDirect, EnableText, RewriteText, MayChange, Replaced;
    if s[Pam(n)] != o[Pam(n)] {
      ReplacedIsText(o, s, n);
      ReplacedIsEnabled(o, s, n);
    }
  }

  lemma ReplacedIsText(o: Disk, s: Disk, n: string)
    requires Replaced(o, s, n)
    ensures IsText(o, Pam(n))
  {
  }

  /** The services that a migration has rewritten are enabled. */
  lemma MigratedAreEnabled(o: Disk, selected: set<string>, s: Disk)
    requires Does(Migrating(selected), o, s)
    ensures forall n :: n in Todo(o, selected) ==> Enabled(s, n)
  {
    hide Lines, HasDirect, StartsWith, IsBackup, Marked, MigrateDisk, Enabled;
    var m := MigrateDisk(o, Todo(o, selected));
    RefreshedFacts(m, Marked(m));
    hide Refreshed;
    forall n | n in Todo(o, selected) ensures Enabled(s, n) {
      MigratedIsEnabled(o, Todo(o, selected), s, n);
    }
  }

  lemma MigratedIsEnabled(o: Disk, done: set<string>, s: Disk, n: string)
    requires forall m :: m in done ==> IsText(o, Pam(m))
    requires n in done && HasDirect(Lines(TextAt(o, Pam(n))))
    requires SamePam(MigrateDisk(o, done), s)
    ensures Enabled(s, n)
  {
    hide Lines, HasDirect, RewriteText;
    PamStack.RewriteRoutes(TextAt(o, Pam(n)));
    hide PamStack.RoutesAuth;
    assert Pam(n) in MigrateDisk(o, done);
  }

  /** The second half of the action of setup: enable sudo, and the others if they are there. */
  method EnableServices(fs: Store, withLogin: bool, ghost routed: set<string>) returns (ok: bool)
    requires InStep(fs, {}, routed) && Allowed(withLogin) <= fs.services
    modifies fs`disk, fs`history, fs`leftovers, fs`misreads, fs`faults
    ensures fs.Watched() && old(fs.history) <= fs.history
    ensures old(fs.misreads) <= fs.misreads && old(fs.faults) <= fs.faults
    ensures fs.faults == old(fs.faults) && fs.misreads == old(fs.misreads) && old(NothingOdd(fs.disk)) ==>
              (ok <==> AllEnableable(old(fs.disk), Present(old(fs.disk), withLogin), fs.pid))
    ensures ok ==> InStep(fs, {"sudo"}, routed) && forall n :: Wanted(fs.origin, withLogin, n) ==> Named(fs.disk, n)
    ensures ok && old(Agrees(fs.disk)) ==> Agrees(fs.disk)
  {
    hide Guarded, BackupsWhole, Agrees, Named, Enabled, CanEnable, ValidServiceName;
    PlainServices();
    ok := EnableNext(fs, "sudo", {}, routed);
    if !ok {
      return;
    }
    forall s: Disk, n | Guarded(fs.origin, s, fs.services, fs.pid) && Pam(n) in fs.origin && fs.origin[Pam(n)].Regular?
      ensures Pam(n) in s && s[Pam(n)].Regular?
    {
      RegularStays(fs.origin, s, n, fs.services, fs.pid);
    }
    ghost var named := {"sudo"};
    var polkit := Exists(fs, "polkit-1");
    if polkit {
      ok := EnableNext(fs, "polkit-1", named, routed);
      if !ok {
        return;
      }
      named := named + {"polkit-1"};
    }
    var gdm := Exists(fs, "gdm-password");
    if withLogin && gdm {
      ok := EnableNext(fs, "gdm-password", named, routed);
    }
  }

  /** The action of the setup transaction: migrate the selected services, then enable them. */
  method MigrateThenEnable(fs: Store, selected: seq<string>, withLogin: bool) returns (ok: bool)
    requires Starts(fs, SetOf(selected)) && Allowed(withLogin) <= fs.services
    modifies fs`disk, fs`history, fs`leftovers, fs`misreads, fs`faults
    ensures fs.Watched() && old(fs.history) <= fs.history
    ensures old(fs.misreads) <= fs.misreads && old(fs.faults) <= fs.faults
    ensures fs.faults == old(fs.faults) && fs.misreads == old(fs.misreads) ==>
              old(NothingOdd(fs.disk)) && SetOf(selected) == Present(old(fs.disk), withLogin) ==>
                (ok <==> CanSetUp(old(fs.disk), withLogin, fs.pid))
    ensures ok ==> BackupsWhole(old(fs.disk), fs.disk) && SetUp(old(fs.disk), fs.disk, withLogin)
    ensures ok && fs.misreads == old(fs.misreads) ==>
              Agrees(fs.disk) && forall n :: n in Todo(old(fs.disk), SetOf(selected)) ==> Enabled(fs.disk, n)
  {
    hide Guarded, BackupsWhole, MigrateDisk, Refreshed, Marked, Enabled, Named, Attempted, AllAttempted, Agrees, Does,
         SetOf, Todo, SetUp, CanMigrate, CanSetUp, AllEnableable, NothingOdd, Present, Allowed;
    ghost var d, sel := fs.disk, SetOf(selected);
    var migrated: nat;
    ghost var done: set<string>;
    ghost var listed: set<string>;
    ok, migrated, done, listed := Migrate(fs, selected);
    if !ok {
      SetUpMigrates(d, withLogin, fs.pid);
      return;
    }
    ghost var routed: set<string> := {};
    if fs.misreads == old(fs.misreads) {
      if fs.faults == old(fs.faults) && sel == Present(d, withLogin) && NothingOdd(d) {
        SetUpEnables(d, fs.disk, withLogin, fs.pid);
      }
      RefreshMends(Migrating(sel), d, fs.disk);
      MigratedAreEnabled(d, sel, fs.disk);
      routed := Todo(d, sel);
    }
    ok := EnableServices(fs, withLogin, routed);
    if ok {
      NamedIsThere(fs.disk, "sudo");
      SudoWasThere(d, fs.disk, fs.services, fs.pid);
      IsSetUp(d, fs.disk, withLogin, fs.services, fs.pid);
    }
  }

  /** The services that setup may change. */
  function Allowed(withLogin: bool): set<string> {
    {"sudo", "polkit-1"} + if withLogin then {"gdm-password"} else {}
  }

  /** Those of them that it works on: sudo in any case. */
  function Present(d: Disk, withLogin: bool): set<string> {
    set n | n in Allowed(withLogin) && (n == "sudo" || Pam(n) in d)
  }

  /** polkit-1 and gdm-password are regular files, if they are there. */
  predicate NothingOdd(d: Disk) {
    && (Pam("polkit-1") in d ==> d[Pam("polkit-1")].Regular?)
    && (Pam("gdm-password") in d ==> d[Pam("gdm-password")].Regular?)
  }

  ghost predicate AllEnableable(d: Disk, names: set<string>, pid: string) {
    forall n :: n in names ==> CanEnable(d, n, pid)
  }

  /** What a setup needs to find: each of its services is a text that calls pam_irauth already and no
      Howdy, or one that can be backed up and replaced, and the manifest can be refreshed. */
  ghost predicate CanSetUp(d: Disk, withLogin: bool, pid: string) {
    && (forall n :: n in Present(d, withLogin) ==>
          && IsText(d, Pam(n))
          && (CanReplace(d, n, pid) || (HasIrauth(Lines(TextAt(d, Pam(n)))) && !HasDirect(Lines(TextAt(d, Pam(n)))))))
    && CanRefresh(MigrateDisk(d, Todo(d, Present(d, withLogin))), pid)
  }

  lemma PlainServices()
    ensures ValidServiceName("sudo") && ValidServiceName("polkit-1") && ValidServiceName("gdm-password")
  {
  }

  lemma SetUpMigrates(d: Disk, withLogin: bool, pid: string)
    ensures CanSetUp(d, withLogin, pid) ==> CanMigrate(d, Present(d, withLogin), pid)
  {
    hide HasDirect, HasIrauth, Lines, CanReplace, CanRefresh, MigrateDisk, Present;
  }

  /** After the migration, enabling the services can succeed exactly if setup could. */
  lemma SetUpEnables(d: Disk, m: Disk, withLogin: bool, pid: string)
    requires Does(Migrating(Present(d, withLogin)), d, m) && CanMigrate(d, Present(d, withLogin), pid)
    requires NothingOdd(d)
    ensures NothingOdd(m) && Present(m, withLogin) == Present(d, withLogin)
    ensures AllEnableable(m, Present(d, withLogin), pid) <==> CanSetUp(d, withLogin, pid)
  {
    PlainServices();
    var sel := Present(d, withLogin);
    hide HasDirect, HasIrauth, Lines, CanReplace, CanRefresh, MigrateDisk, CanEnable, Does, ValidServiceName, IsText,
         TextAt, Todo;
    forall n | n in sel
      ensures CanEnable(m, n, pid) <==>
        IsText(d, Pam(n))
        && (CanReplace(d, n, pid) || (HasIrauth(Lines(TextAt(d, Pam(n)))) && !HasDirect(Lines(TextAt(d, Pam(n))))))
    {
      PlainNames(n);
      EnableAfterMigrate(d, m, sel, n, pid);
    }
    forall n | n == "sudo" || n == "polkit-1" || n == "gdm-password"
      ensures Pam(n) in m <==> Pam(n) in d
      ensures Pam(n) in d && d[Pam(n)].Regular? ==> m[Pam(n)].Regular?
    {
      StaysThere(d, m, sel, n);
    }
  }

  lemma StaysThere(d: Disk, m: Disk, sel: set<string>, n: string)
    requires Does(Migrating(sel), d, m) && ValidServiceName(n)
    ensures Pam(n) in m <==> Pam(n) in d
    ensures Pam(n) in d && d[Pam(n)].Regular? ==> m[Pam(n)].Regular?
  {
    hide HasDirect, Lines, RewriteText, StartsWith, Marked, ValidServiceName, IsArtifact;
    var e := MigrateDisk(d, Todo(d, sel));
    RefreshedFacts(e, Marked(e));
    hide Refreshed;
    forall k ensures Bak(k) != n {
      BackupIsNoService(k, n);
    }
    assert Pam(n) in e <==> Pam(n) in d;
  }

  lemma EnableAfterMigrate(d: Disk, m: Disk, sel: set<string>, n: string, pid: string)
    requires Does(Migrating(sel), d, m) && CanMigrate(d, sel, pid) && n in sel
    requires ValidServiceName(n) && !StartsWith(n, "irauth-") && !IsBackup(n)
    ensures CanEnable(m, n, pid) <==>
      IsText(d, Pam(n))
      && (CanReplace(d, n, pid) || (HasIrauth(Lines(TextAt(d, Pam(n)))) && !HasDirect(Lines(TextAt(d, Pam(n))))))
  {
    hide HasDirect, HasIrauth, Lines, RewriteText, StartsWith, IsBackup, Marked, CanRefresh, ValidServiceName, TempName;
    var todo := Todo(d, sel);
    var e := MigrateDisk(d, todo);
    RefreshedFacts(e, Marked(e));
    hide Refreshed;
    forall k ensures Bak(k) != n {
      BackupIsNoService(k, n);
    }
    if n in todo {
      EnabledOnce(TextAt(d, Pam(n)));
      assert Pam(n) in e;
    } else {
      MigrateKeepsFree(d, todo, n, pid);
      assert Pam(n) in e <==> Pam(n) in d;
    }
  }

  lemma SudoWasThere(o: Disk, s: Disk, services: set<string>, pid: string)
    requires Guarded(o, s, services, pid) && Pam("sudo") in s
    ensures Pam("sudo") in o
  {
    hide ValidServiceName, IsArtifact;
    SudoIsValid();
    ServiceIsNoArtifact("sudo");
  }

  lemma IsSetUp(o: Disk, s: Disk, withLogin: bool, services: set<string>, pid: string)
    requires Guarded(o, s, services, pid) && forall n :: Wanted(o, withLogin, n) ==> Named(s, n)
    requires Pam("sudo") in o
    ensures SetUp(o, s, withLogin)
  {
    hide Guarded, Named, Enableable, HadDirect, Enabled;
    forall n | Wanted(o, withLogin, n)
      ensures (Enableable(o, n) ==> Enabled(s, n)) && (Enabled(s, n) ==> Enableable(o, n) || HadDirect(o, n))
    {
      NamedInTransaction(o, s, n, services, pid);
    }
  }

  lemma IsSetUpExactly(o: Disk, s: Disk, withLogin: bool, sel: set<string>)
    requires SetUp(o, s, withLogin)
    requires forall n :: Wanted(o, withLogin, n) ==> n in sel
    requires forall n :: n in Todo(o, sel) ==> Enabled(s, n)
    ensures SetUpExactly(o, s, withLogin)
  {
    hide Enabled, Enableable;
    forall n | Wanted(o, withLogin, n) && HadDirect(o, n) ensures Enabled(s, n) {
      PlainNames(n);
      assert n in Todo(o, sel);
    }
  }

  lemma PlainNames(n: string)
    requires n == "sudo" || n == "polkit-1" || n == "gdm-password"
    ensures !StartsWith(n, "irauth-") && !IsBackup(n)
  {
    assert n[0] != "irauth-"[0];
    assert n[|n| - 1] != BAK[|BAK| - 1];
  }

  /** A state of the rollback of a transaction from `o` that failed in `f`: every regular file that
      was there, and everything not named like an artifact, is as it was or as it was in `f`. */
  ghost predicate OldOrFailed(o: Disk, f: Disk, s: Disk) {
    forall n :: Pam(n) in o && Pam(n) in f && (o[Pam(n)].Regular? || !IsArtifact(n)) ==>
      Pam(n) in s && (s[Pam(n)] == o[Pam(n)] || s[Pam(n)] == f[Pam(n)])
  }

  /** The services that setup migrates. */
  method SelectServices(fs: Store, withLogin: bool) returns (selected: seq<string>)
    ensures SetOf(selected) <= Allowed(withLogin)
    ensures NothingOdd(fs.disk) ==> SetOf(selected) == Present(fs.disk, withLogin)
    ensures forall n :: Wanted(fs.disk, withLogin, n) ==> n in SetOf(selected)
  {
    selected := ["sudo"];
    var polkit := Exists(fs, "polkit-1");
    if polkit {
      selected := selected + ["polkit-1"];
    }
    var gdm := Exists(fs, "gdm-password");
    if withLogin && gdm {
      selected := selected + ["gdm-password"];
    }
  }

  /** The transaction of `cmd_setup`. `acted` is the length of the history when the action ended, so
      that rollback starts from entry `acted - 1`. */
  method SetupPam(fs: Store, withLogin: bool) returns (r: SetupResult, ghost acted: nat)
    requires fs.Valid()
    modifies fs
    ensures fs.Valid() && old(fs.history) <= fs.history && 0 < |old(fs.history)| <= acted <= |fs.history|
    ensures forall i :: |old(fs.history)| <= i < acted ==>
              Guarded(old(fs.disk), fs.history[i], Allowed(withLogin), fs.pid)
    ensures forall i :: acted <= i < |fs.history| ==>
              OldOrFailed(old(fs.disk), fs.history[acted - 1], fs.history[i])
    ensures r.Untouched? ==> fs.disk == old(fs.disk) && fs.history == old(fs.history) && fs.faults > old(fs.faults)
    ensures fs.faults == old(fs.faults) && fs.misreads == old(fs.misreads) && old(NothingOdd(fs.disk)) ==>
              (r.Committed? <==> CanSetUp(old(fs.disk), withLogin, fs.pid))
    ensures fs.faults == old(fs.faults) && !r.Committed? ==>
              (r.RolledBack? <==> CanRollBack(old(fs.disk), fs.history[acted - 1], fs.pid))
    ensures r.Committed? ==> acted == |fs.history|
    ensures r.Committed? ==> SetUp(old(fs.disk), fs.disk, withLogin) && BackupsWhole(old(fs.disk), fs.disk)
    ensures r.Committed? && fs.misreads == old(fs.misreads) ==>
              Agrees(fs.disk) && SetUpExactly(old(fs.disk), fs.disk, withLogin)
    ensures r.RolledBack? && old(MANIFEST in fs.disk ==> fs.disk[MANIFEST].Regular?) ==>
              var failed := fs.history[acted - 1];
              && (SamePam(old(fs.disk), fs.disk) <==> GoodListing(old(fs.disk), failed, PamNames(failed) - fs.hidden))
              && SameManifest(old(fs.disk), fs.disk)
    ensures r.RolledBack? && fs.hidden == {} && old(NothingIrregular(fs.disk)) ==>
              Does(RolledBackSetup, old(fs.disk), fs.disk)
  {
    hide Guarded, BackupsWhole, Agrees, SamePam, GoodListing, Restored, Remembers, SetUp, SetUpExactly, SameManifest,
         OldOrFailed, NothingIrregular, Enabled, Todo, SetOf, Wanted, Allowed, Present, CanSetUp, NothingOdd,
         CanRollBack, AllThere, CanRestore;
    acted := |fs.history|;
    var snapshot := TakeSnapshot(fs);
    if snapshot == None {
      return Untouched, acted;
    }
    var selected := SelectServices(fs, withLogin);
    ghost var d := fs.disk;
    fs.origin, fs.services, fs.mark := d, Allowed(withLogin), |fs.history| - 1;
    GuardedStart(d, fs.services, fs.pid);
    var ok := MigrateThenEnable(fs, selected, withLogin);
    acted := |fs.history|;
    if ok {
      if fs.misreads == old(fs.misreads) {
        IsSetUpExactly(d, fs.disk, withLogin, SetOf(selected));
      }
      return Committed, acted;
    }
    SnapshotSavesPam(snapshot.value, d);
    SnapshotStays(snapshot.value, d, fs.disk, fs.services, fs.pid);
    ghost var failed := fs.disk;
    var restored := Restore(fs, snapshot.value);
    RecoveringIsOldOrFailed(d, failed, snapshot.value);
    if restored {
      RollbackOutcome(d, failed, fs.disk, snapshot.value, fs.hidden, fs.services, fs.pid);
      r := RolledBack;
    } else {
      r := RollbackFailed;
    }
  }

  /** The manifest and every entry named like an artifact is a regular file, if it is there. */
  ghost predicate NothingIrregular(o: Disk) {
    && (MANIFEST in o ==> o[MANIFEST].Regular?)
    && (forall n :: Pam(n) in o && IsArtifact(n) ==> o[Pam(n)].Regular?)
  }

  lemma RollbackOutcome(o: Disk, f: Disk, s: Disk, snap: Snapshot, hidden: set<string>,
                        services: set<string>, pid: string)
    requires Guarded(o, f, services, pid) && Remembers(snap, o) && Restored(f, snap, PamNames(f) - hidden, s)
    ensures (MANIFEST in o ==> o[MANIFEST].Regular?) ==>
              (SamePam(o, s) <==> GoodListing(o, f, PamNames(f) - hidden)) && SameManifest(o, s)
    ensures hidden == {} && NothingIrregular(o) ==> Does(RolledBackSetup, o, s)
  {
    hide Guarded, Remembers, Restored, GoodListing, SamePam, IsArtifact;
    if MANIFEST in o ==> o[MANIFEST].Regular? {
      RollbackExact(o, f, s, snap, PamNames(f) - hidden, services, pid);
    }
    if hidden == {} && NothingIrregular(o) {
      forall n | Pam(n) in f ensures n in PamNames(f) - hidden {
        MarkedFacts(f, n);
      }
      FullListingIsGood(o, f, PamNames(f) - hidden);
    }
  }

  lemma RecoveringIsOldOrFailed(o: Disk, f: Disk, snap: Snapshot)
    requires Remembers(snap, o)
    ensures forall s :: Recovering(f, snap, s) ==> OldOrFailed(o, f, s)
  {
    hide IsArtifact;
    forall s, n | Recovering(f, snap, s) && Pam(n) in o && Pam(n) in f && (o[Pam(n)].Regular? || !IsArtifact(n))
      ensures Pam(n) in s && (s[Pam(n)] == o[Pam(n)] || s[Pam(n)] == f[Pam(n)])
    {
      if IsSaved(snap, Pam(n)) {
        var i :| 0 <= i < |snap.files| && snap.files[i].path == Pam(n);
        assert o[Pam(n)] == Regular(snap.files[i].file);
      }
    }
  }

  /** No stale temporary file blocks restoring a file of `o` in `f`. */
  ghost predicate CanRollBack(o: Disk, f: Disk, pid: string) {
    && (forall n :: Pam(n) in o && o[Pam(n)].Regular? ==> CanWrite(f, Pam(n), pid))
    && (MANIFEST in o && o[MANIFEST].Regular? ==> CanWrite(f, MANIFEST, pid))
  }

  /** What was saved is still there when the action fails. */
  lemma SnapshotStays(snap: Snapshot, o: Disk, f: Disk, services: set<string>, pid: string)
    requires Guarded(o, f, services, pid) && Remembers(snap, o)
    ensures AllThere(f, snap.files) && (CanRestore(f, snap, pid) <==> CanRollBack(o, f, pid))
  {
    hide CanWrite, Replaced, MayChange, MayAppear;
    assert MANIFEST.Etc?;
    forall i | 0 <= i < |snap.files|
      ensures snap.files[i].path in f && snap.files[i].path == Pam(snap.files[i].path.name)
    {
    }
    forall n | Pam(n) in o && o[Pam(n)].Regular?
      ensures exists i :: 0 <= i < |snap.files| && snap.files[i].path == Pam(n)
    {
      assert IsSaved(snap, Pam(n));
    }
  }

  lemma SnapshotSavesPam(snap: Snapshot, d: Disk)
    requires Remembers(snap, d)
    ensures SavesPam(snap.files)
  {
  }
}
