// The PAM directory and the migration manifest as values: what each operation of irauthctl does to
// them when it succeeds, what every state on the way may look like, and what rollback restores.
module PamDisk {
  import opened Text
  import opened PamText
  import opened Order

  /** A file's bytes: text when they are valid UTF-8, otherwise opaque. */
  datatype Content = Utf8(text: string) | Binary(bytes: seq<nat>)

  datatype File = File(content: Content, mode: nat)

  /** A directory entry; directories and symbolic links are Special. */
  datatype Entry = Regular(file: File) | Special

  /** A name in /etc/pam.d or in /etc/irauth. */
  datatype Path = Pam(name: string) | Etc(name: string)

  type Disk = map<Path, Entry>

  const BAK := ".irauth.bak"
  const TMP := ".tmp"
  const INFIX := ".irauth."
  const MANIFEST := Etc("pam-migrated.list")
  const MANIFEST_MODE := 0x180
  const PAM_DIR := "/etc/pam.d/"

  // ---------------------------------------------------------------- names

  function Bak(name: string): string {
    name + BAK
  }

  function Unbak(name: string): string
    requires IsBackup(name)
  {
    name[..|name| - |BAK|]
  }

  predicate IsBackup(name: string) {
    EndsWith(name, BAK)
  }

  predicate IsTemp(name: string) {
    Contains(name, INFIX) && EndsWith(name, TMP)
  }

  /** The names that a transaction may leave behind. */
  predicate IsArtifact(name: string) {
    IsBackup(name) || IsTemp(name)
  }

  function LastDot(s: string): (i: int)
    ensures -1 <= i < |s| && (i >= 0 ==> s[i] == '.')
    ensures forall j :: i < j < |s| ==> s[j] != '.'
  {
    if s == "" then -1 else if s[|s| - 1] == '.' then |s| - 1 else LastDot(s[..|s| - 1])
  }

  /** `Path::with_extension` replaces what follows the last dot, unless that dot comes first. */
  function Stem(name: string): string {
    if LastDot(name) <= 0 then name else name[..LastDot(name)]
  }

  function TempName(name: string, pid: string): string {
    Stem(name) + INFIX + pid + TMP
  }

  function Temp(p: Path, pid: string): Path {
    p.(name := TempName(p.name, pid))
  }

  lemma BakFacts(a: string, b: string)
    ensures IsBackup(Bak(a)) && Unbak(Bak(a)) == a
    ensures Bak(a) == Bak(b) ==> a == b
  {
  }

  lemma TempFacts(name: string, pid: string)
    ensures IsTemp(TempName(name, pid)) && !IsBackup(TempName(name, pid))
    ensures TempName(name, pid) != name
  {
    var t := TempName(name, pid);
    assert At(t, |Stem(name)|, INFIX);
    assert t[|t| - |TMP|..] == TMP;
    assert t[|t| - 1] == 'p' && BAK[|BAK| - 1] == 'k';
    var d := LastDot(name);
    if d > 0 {
      assert t[d + 7] == INFIX[7] == '.';
    }
  }

  // ---------------------------------------------------------------- the manifest

  predicate IsText(d: Disk, p: Path) {
    p in d && d[p].Regular? && d[p].file.content.Utf8?
  }

  function TextAt(d: Disk, p: Path): string
    requires IsText(d, p)
  {
    d[p].file.content.text
  }

  predicate IsMarked(d: Disk, name: string) {
    !IsArtifact(name) && IsText(d, Pam(name)) && Contains(TextAt(d, Pam(name)), MARKER)
  }

  ghost function PamNames(d: Disk): set<string> {
    set p | p in d && p.Pam? :: p.name
  }

  /** The migrated services: regular files, neither backups nor temporaries, with the marker. */
  ghost function Marked(d: Disk): set<string> {
    set n | n in PamNames(d) && IsMarked(d, n)
  }

  function PathLines(names: seq<string>): seq<string> {
    seq(|names|, i requires 0 <= i < |names| => PAM_DIR + names[i])
  }

  ghost function ManifestEntry(names: set<string>): Entry {
    Regular(File(Utf8(Unlines(PathLines(InOrder(names)))), MANIFEST_MODE))
  }

  /** The manifest lists exactly the given services, in order, and is absent when there are none. */
  ghost predicate Lists(d: Disk, names: set<string>) {
    if names == {} then MANIFEST !in d else MANIFEST in d && d[MANIFEST] == ManifestEntry(names)
  }

  ghost predicate Agrees(d: Disk) {
    Lists(d, Marked(d))
  }

  ghost function Refreshed(d: Disk, names: set<string>): Disk {
    if names == {} then d - {MANIFEST} else d[MANIFEST := ManifestEntry(names)]
  }

  ghost predicate SamePam(d: Disk, s: Disk) {
    forall n :: (Pam(n) in d <==> Pam(n) in s) && (Pam(n) in d ==> d[Pam(n)] == s[Pam(n)])
  }

  lemma RefreshedFacts(d: Disk, names: set<string>)
    ensures SamePam(d, Refreshed(d, names)) && Marked(Refreshed(d, names)) == Marked(d)
    ensures Lists(Refreshed(d, names), names)
  {
    var r := Refreshed(d, names);
    assert SamePam(d, r);
    SamePamMarked(d, r);
  }

  lemma MarkedFacts(d: Disk, n: string)
    ensures n in PamNames(d) <==> Pam(n) in d
    ensures n in Marked(d) <==> IsMarked(d, n)
  {
  }

  lemma SamePamMarked(d: Disk, s: Disk)
    requires SamePam(d, s)
    ensures Marked(d) == Marked(s)
  {
  }

  // A manifest that leaves a service out is shorter than the right one, so it is not the right one.

  lemma PathWidth(a: seq<string>, b: seq<string>)
    ensures |Unlines(PathLines(a + b))| == |Unlines(PathLines(a))| + |Unlines(PathLines(b))|
  {
    assert PathLines(a + b) == PathLines(a) + PathLines(b);
    UnlinesConcat(PathLines(a), PathLines(b));
  }

  lemma OnePathWidth(n: string)
    ensures |Unlines(PathLines([n]))| > 0
  {
    assert PathLines([n])[0] == PAM_DIR + n;
  }

  /** The paths without one of them. */
  lemma WidthWithout(b: seq<string>, j: nat)
    requires j < |b|
    ensures |Unlines(PathLines(b))|
         == |Unlines(PathLines(b[..j] + b[j + 1..]))| + |Unlines(PathLines([b[j]]))|
  {
    hide PathLines, Unlines, PAM_DIR;
    assert b == b[..j] + ([b[j]] + b[j + 1..]);
    PathWidth(b[..j], [b[j]] + b[j + 1..]);
    PathWidth([b[j]], b[j + 1..]);
    PathWidth(b[..j], b[j + 1..]);
  }

  lemma {:induction false} FewerIsShorter(a: seq<string>, b: seq<string>)
    requires DistinctKeys(a, Same) && DistinctKeys(b, Same)
    requires (forall n :: n in a ==> n in b) && exists n :: n in b && n !in a
    ensures |Unlines(PathLines(a))| < |Unlines(PathLines(b))|
  {
    hide PathLines, Unlines, PAM_DIR;
    if a == [] {
      assert PathLines([]) == [] && Unlines([]) == "" by {
        NoPaths();
      }
      OnePathWidth(b[0]);
      PathWidth([b[0]], b[1..]);
      assert [b[0]] + b[1..] == b;
    } else {
      assert a[0] in a && a[0] in b;
      var j :| 0 <= j < |b| && b[j] == a[0];
      var c := b[..j] + b[j + 1..];
      assert a == [a[0]] + a[1..];
      Without(b, j);
      FirstOnce(a);
      hide DistinctKeys;
      FewerIsShorter(a[1..], c);
      PathWidth([a[0]], a[1..]);
      WidthWithout(b, j);
    }
  }

  lemma NoPaths()
    ensures PathLines([]) == [] && Unlines([]) == ""
  {
  }

  lemma Without(s: seq<string>, j: nat)
    requires DistinctKeys(s, Same) && j < |s|
    ensures var c := s[..j] + s[j + 1..];
            DistinctKeys(c, Same) && forall n :: n in c <==> n in s && n != s[j]
  {
    var c := s[..j] + s[j + 1..];
    assert forall i :: 0 <= i < |c| ==> c[i] == if i < j then s[i] else s[i + 1];
    forall n | n in s && n != s[j] ensures n in c {
      var i :| 0 <= i < |s| && s[i] == n;
      assert c[if i < j then i else i - 1] == n;
    }
    forall i | 0 <= i < |c| ensures c[i] != s[j] {
      assert Same(s[if i < j then i else i + 1]) != Same(s[j]);
    }
  }

  lemma FirstOnce(s: seq<string>)
    requires DistinctKeys(s, Same) && s != []
    ensures DistinctKeys(s[1..], Same) && forall n :: n in s[1..] <==> n in s && n != s[0]
  {
    Without(s, 0);
    assert s[..0] + s[1..] == s[1..];
  }

  lemma OrderedOnce(names: set<string>)
    ensures DistinctKeys(InOrder(names), Same)
  {
    var s := InOrder(names);
    forall i, j | 0 <= i < j < |s| ensures Same(s[i]) != Same(s[j]) {
      LexTotal(s[i], s[j]);
    }
  }

  /** After a refresh that listed some of the migrated services the manifest agrees with the
      directory if and only if it listed all of them. */
  lemma AgreesExactly(d: Disk, listed: set<string>)
    requires listed <= Marked(d)
    ensures Agrees(Refreshed(d, listed)) <==> listed == Marked(d)
  {
    hide Marked, PathLines, Unlines, InOrder;
    RefreshedFacts(d, listed);
    if listed != Marked(d) && listed != {} {
      OrderedOnce(listed);
      OrderedOnce(Marked(d));
      var n :| n in Marked(d) && n !in listed;
      assert n in InOrder(Marked(d)) && n !in InOrder(listed);
      FewerIsShorter(InOrder(listed), InOrder(Marked(d)));
    }
  }

  /** Agreement can be lost: a refresh that misreads the only migrated service lists none. */
  lemma MisreadBreaksAgreement(mode: nat)
    ensures var d: Disk := map[Pam("sudo") := Regular(File(Utf8(MARKER), mode))];
            Marked(d) == {"sudo"} && Agrees(Refreshed(d, {"sudo"})) && !Agrees(Refreshed(d, {}))
  {
    var d: Disk := map[Pam("sudo") := Regular(File(Utf8(MARKER), mode))];
    MarkerFacts();
    assert !IsArtifact("sudo");
    hide MARKER, IsArtifact, Contains, ManifestEntry, Refreshed;
    forall n ensures n in Marked(d) <==> n == "sudo" {
      MarkedFacts(d, n);
    }
    assert Marked(d) == {"sudo"};
    AgreesExactly(d, {"sudo"});
    AgreesExactly(d, {});
  }

  // ---------------------------------------------------------------- successful operations

  function WithBackup(d: Disk, n: string): Disk
    requires Pam(n) in d
  {
    if Pam(Bak(n)) in d then d else d[Pam(Bak(n)) := d[Pam(n)]]
  }

  /** The service keeps its mode and gets new text; its backup exists from now on. */
  function Replace(d: Disk, n: string, text: string): Disk
    requires IsText(d, Pam(n))
  {
    WithBackup(d, n)[Pam(n) := Regular(File(Utf8(text), d[Pam(n)].file.mode))]
  }

  /** A successful `pam enable`. */
  ghost function EnableDisk(d: Disk, n: string): Disk
    requires IsText(d, Pam(n))
  {
    var text := TextAt(d, Pam(n));
    if HasIrauth(Lines(text)) then d else Replace(d, n, EnableText(text))
  }

  /** A successful `pam disable`, before the manifest is refreshed. */
  ghost function RestoredService(d: Disk, n: string): Disk
    requires Pam(Bak(n)) in d || IsText(d, Pam(n))
  {
    if Pam(Bak(n)) in d then d[Pam(n) := d[Pam(Bak(n))]]
    else d[Pam(n) := Regular(File(Utf8(StripText(TextAt(d, Pam(n)))), d[Pam(n)].file.mode))]
  }

  /** The services a migration rewrites. */
  predicate Migratable(d: Disk, selected: set<string>, n: string) {
    && n in selected && !StartsWith(n, "irauth-") && !IsBackup(n)
    && IsText(d, Pam(n)) && HasDirect(Lines(TextAt(d, Pam(n))))
  }

  ghost function Todo(d: Disk, selected: set<string>): set<string> {
    set n | n in selected && Migratable(d, selected, n)
  }

  /** A successful migration of the services in `done`, before the manifest is refreshed. */
  ghost function MigrateDisk(d: Disk, done: set<string>): Disk
    requires forall n :: n in done ==> IsText(d, Pam(n))
  {
    map p | p in d.Keys + set n | n in done :: Pam(Bak(n)) ::
      if p.Pam? && p.name in done then Regular(File(Utf8(RewriteText(TextAt(d, p))), d[p].file.mode))
      else if p in d then d[p]
      else OwnerEntry(d, p.name)
  }

  /** The entry of the service that a backup name belongs to. */
  function OwnerEntry(d: Disk, name: string): Entry {
    if IsBackup(name) && Pam(Unbak(name)) in d then d[Pam(Unbak(name))] else Special
  }

  /** Migrating one more service is one replacement. */
  lemma MigrateOneMore(d: Disk, done: set<string>, n: string)
    requires forall m :: m in done ==> IsText(d, Pam(m)) && !IsBackup(m)
    requires n !in done && IsText(d, Pam(n)) && !IsBackup(n)
    ensures IsText(MigrateDisk(d, done), Pam(n)) && MigrateDisk(d, done)[Pam(n)] == d[Pam(n)]
    ensures MigrateDisk(d, done + {n}) == Replace(MigrateDisk(d, done), n, RewriteText(TextAt(d, Pam(n))))
  {
    hide IsBackup, RewriteText;
    var m := MigrateDisk(d, done);
    var r := Replace(m, n, RewriteText(TextAt(d, Pam(n))));
    var s := MigrateDisk(d, done + {n});
    BakFacts(n, n);
    assert Pam(n) in m && m[Pam(n)] == d[Pam(n)];
    forall k | k in done ensures (Bak(k) == Bak(n) ==> k == n) && IsBackup(Bak(k)) {
      BakFacts(k, n);
    }
    assert s.Keys == r.Keys;
    forall p | p in s ensures s[p] == r[p] {
    }
  }

  // Every successful operation as a relation between two states of the directory.

  predicate ValidServiceName(service: string) {
    service != "" && forall i :: 0 <= i < |service| ==>
      IsAlphanumeric(service[i]) || service[i] == '_' || service[i] == '-'
  }

  lemma SudoIsValid()
    ensures ValidServiceName("sudo")
  {
  }

  datatype Op = Enabling(service: string) | Disabling(service: string)
              | Migrating(selected: set<string>) | RolledBackSetup

  /** One operation that succeeded and misread nothing, as the methods of PamOps and PamSetup
      leave the directory. */
  ghost predicate Does(op: Op, d: Disk, s: Disk) {
    match op
    case Enabling(n) =>
      ValidServiceName(n) && IsText(d, Pam(n)) && s == EnableDisk(d, n)
    case Disabling(n) =>
      && ValidServiceName(n) && Pam(n) in d && d[Pam(n)].Regular?
      && (Pam(Bak(n)) in d ==> d[Pam(Bak(n))].Regular?) && (Pam(Bak(n)) !in d ==> IsText(d, Pam(n)))
      && s == Refreshed(RestoredService(d, n), Marked(RestoredService(d, n)))
    case Migrating(selected) =>
      s == Refreshed(MigrateDisk(d, Todo(d, selected)), Marked(MigrateDisk(d, Todo(d, selected))))
    case RolledBackSetup =>
      SamePam(d, s) && SameManifest(d, s)
  }

  ghost predicate SameManifest(d: Disk, s: Disk) {
    (MANIFEST in d <==> MANIFEST in s) && (MANIFEST in d ==> d[MANIFEST] == s[MANIFEST])
  }

  // What can stand in the way of an operation when no system call fails.

  /** A backup can be made or is there. */
  predicate CanBackUp(d: Disk, n: string) {
    Pam(Bak(n)) in d ==> d[Pam(Bak(n))].Regular?
  }

  /** No stale temporary file blocks a write. */
  predicate CanWrite(d: Disk, p: Path, pid: string) {
    Temp(p, pid) !in d
  }

  predicate CanReplace(d: Disk, n: string, pid: string) {
    CanBackUp(d, n) && CanWrite(d, Pam(n), pid)
  }

  ghost predicate CanRefresh(d: Disk, pid: string) {
    Marked(d) == {} || CanWrite(d, MANIFEST, pid)
  }

  predicate CanEnable(d: Disk, n: string, pid: string) {
    ValidServiceName(n) && IsText(d, Pam(n)) && (HasIrauth(Lines(TextAt(d, Pam(n)))) || CanReplace(d, n, pid))
  }

  ghost predicate CanDisable(d: Disk, n: string, pid: string) {
    && ValidServiceName(n) && Pam(n) in d && d[Pam(n)].Regular?
    && (if Pam(Bak(n)) in d then d[Pam(Bak(n))].Regular? else IsText(d, Pam(n)))
    && CanWrite(d, Pam(n), pid) && CanRefresh(RestoredService(d, n), pid)
  }

  ghost predicate AllReplaceable(d: Disk, names: set<string>, pid: string) {
    forall n :: n in names ==> CanReplace(d, n, pid)
  }

  ghost predicate CanMigrate(d: Disk, selected: set<string>, pid: string) {
    AllReplaceable(d, Todo(d, selected), pid) && CanRefresh(MigrateDisk(d, Todo(d, selected)), pid)
  }

  /** Every saved file and the saved manifest can be written. */
  ghost predicate CanRestore(d: Disk, snap: Snapshot, pid: string) {
    && (forall i :: 0 <= i < |snap.files| ==> CanWrite(d, snap.files[i].path, pid))
    && (snap.manifest.Some? ==> CanWrite(d, MANIFEST, pid))
  }

  // Every outcome of an operation, and every state it passes through.

  /** The original of `n` is saved in `s`, now or since before `d`. */
  ghost predicate SavedBefore(d: Disk, s: Disk, n: string)
    requires Pam(n) in d
  {
    Pam(Bak(n)) in s && (Pam(Bak(n)) !in d ==> s[Pam(Bak(n))] == d[Pam(n)])
  }

  /** What the operation may make of a service. */
  ghost predicate Rewrites(op: Op, d: Disk, s: Disk, n: string)
    requires Pam(n) in d && Pam(n) in s
  {
    match op
    case Enabling(m) =>
      && n == m && ValidServiceName(m) && IsText(d, Pam(n)) && !HasIrauth(Lines(TextAt(d, Pam(n))))
      && s[Pam(n)] == Regular(File(Utf8(EnableText(TextAt(d, Pam(n)))), d[Pam(n)].file.mode)) && SavedBefore(d, s, n)
    case Disabling(m) =>
      && n == m && ValidServiceName(m) && (Pam(Bak(n)) in d || IsText(d, Pam(n)))
      && s[Pam(n)] == RestoredService(d, n)[Pam(n)]
    case Migrating(selected) =>
      && Migratable(d, selected, n)
      && s[Pam(n)] == Regular(File(Utf8(RewriteText(TextAt(d, Pam(n)))), d[Pam(n)].file.mode)) && SavedBefore(d, s, n)
    case RolledBackSetup => false
  }

  /** `s` may be reached by attempting the operation, whether it succeeds, fails, misreads files or
      is cut short: each service is as it was or as the operation makes it, and only artifacts are
      new. */
  ghost predicate Attempted(op: Op, d: Disk, s: Disk) {
    && (forall n :: Pam(n) in d ==> Pam(n) in s && (s[Pam(n)] == d[Pam(n)] || Rewrites(op, d, s, n)))
    && (forall n :: Pam(n) in s && Pam(n) !in d ==> IsArtifact(n))
  }

  /** Disabling reported success, even if it misread files for the manifest. */
  ghost predicate Disabled(d: Disk, s: Disk, n: string) {
    && ValidServiceName(n) && Pam(n) in d && d[Pam(n)].Regular?
    && (Pam(Bak(n)) in d ==> d[Pam(Bak(n))].Regular?) && (Pam(Bak(n)) !in d ==> IsText(d, Pam(n)))
    && exists listed :: listed <= Marked(RestoredService(d, n)) && s == Refreshed(RestoredService(d, n), listed)
  }

  // ---------------------------------------------------------------- states on the way

  /** The complete texts that a transaction may put into a service. */
  ghost predicate NewText(was: string, now: string) {
    || (HasDirect(Lines(was)) && now == RewriteText(was))
    || (!HasIrauth(Lines(was)) && now == EnableText(was))
  }

  /** The service holds a complete new text under its old mode, and if it had no backup before, a
      complete backup with the original bytes and mode exists. */
  ghost predicate Replaced(o: Disk, s: Disk, n: string) {
    && IsText(o, Pam(n)) && IsText(s, Pam(n))
    && NewText(TextAt(o, Pam(n)), TextAt(s, Pam(n))) && s[Pam(n)].file.mode == o[Pam(n)].file.mode
    && (Pam(Bak(n)) !in o ==> Pam(Bak(n)) in s && s[Pam(Bak(n))] == o[Pam(n)])
  }

  predicate MayChange(p: Path, services: set<string>) {
    p.Pam? && p.name in services && !IsBackup(p.name)
  }

  predicate MayAppear(p: Path, pid: string) {
    p == MANIFEST || p == Temp(MANIFEST, pid) || (p.Pam? && IsArtifact(p.name))
  }

  /** Every state of a transaction that began in `o`: only the manifest, the named services and
      new artifacts differ, and a changed service is Replaced. */
  ghost predicate Guarded(o: Disk, s: Disk, services: set<string>, pid: string) {
    && (forall p :: p in o && p != MANIFEST ==>
          p in s && (s[p] == o[p] || (MayChange(p, services) && Replaced(o, s, p.name))))
    && (forall p :: p in s && p !in o ==> MayAppear(p, pid))
  }

  /** The two states differ at most at `p`. */
  ghost predicate Only(d: Disk, s: Disk, p: Path) {
    forall q :: q != p ==> (q in d <==> q in s) && (q in d ==> d[q] == s[q])
  }

  /** Between operations every new backup is complete. */
  ghost predicate BackupsWhole(o: Disk, s: Disk) {
    forall n :: Pam(Bak(n)) in s && Pam(Bak(n)) !in o ==> Pam(n) in o && s[Pam(Bak(n))] == o[Pam(n)]
  }

  lemma GuardedStart(d: Disk, services: set<string>, pid: string)
    ensures Guarded(d, d, services, pid) && BackupsWhole(d, d)
  {
  }

  lemma MayChangeIsPam(p: Path, services: set<string>)
    requires MayChange(p, services)
    ensures p.Pam?
  {
  }

  lemma ReplacedStays(o: Disk, d: Disk, s: Disk, m: string)
    requires Replaced(o, d, m)
    requires Pam(m) in s && s[Pam(m)] == d[Pam(m)]
    requires Pam(Bak(m)) in d ==> Pam(Bak(m)) in s && s[Pam(Bak(m))] == d[Pam(Bak(m))]
    ensures Replaced(o, s, m)
  {
    hide NewText;
  }

  /** A temporary or manifest file may come, change and go. */
  lemma GuardedScratch(o: Disk, d: Disk, s: Disk, p: Path, services: set<string>, pid: string)
    requires Guarded(o, d, services, pid) && Only(d, s, p)
    requires p == MANIFEST || (p !in d && MayAppear(p, pid) && !(p.Pam? && IsBackup(p.name)))
    ensures Guarded(o, s, services, pid)
  {
  }

  /** An unchanged service whose backup is complete may take a new text. */
  lemma GuardedReplace(o: Disk, d: Disk, n: string, f: File, services: set<string>, pid: string)
    requires Guarded(o, d, services, pid) && MayChange(Pam(n), services)
    requires IsText(o, Pam(n)) && Pam(n) in d && d[Pam(n)] == o[Pam(n)]
    requires f.content.Utf8? && NewText(TextAt(o, Pam(n)), f.content.text) && f.mode == o[Pam(n)].file.mode
    requires Pam(Bak(n)) in d && (Pam(Bak(n)) !in o ==> d[Pam(Bak(n))] == o[Pam(n)])
    ensures Guarded(o, d[Pam(n) := Regular(f)], services, pid)
  {
    var s := d[Pam(n) := Regular(f)];
    hide IsText, TextAt, NewText, MayAppear, Replaced, MayChange;
    ReplacedNow(o, d, n, f);
    forall q | q in o && q != MANIFEST && q != Pam(n) && d[q] != o[q]
      ensures MayChange(q, services) && Replaced(o, s, q.name)
    {
      MayChangeIsPam(q, services);
      BakFacts(q.name, n);
      BakNot(q.name, n, services);
      ReplacedStays(o, d, s, q.name);
    }
  }

  lemma ReplacedNow(o: Disk, d: Disk, n: string, f: File)
    requires IsText(o, Pam(n)) && f.content.Utf8?
    requires NewText(TextAt(o, Pam(n)), f.content.text) && f.mode == o[Pam(n)].file.mode
    requires Pam(Bak(n)) in d && (Pam(Bak(n)) !in o ==> d[Pam(Bak(n))] == o[Pam(n)])
    ensures Replaced(o, d[Pam(n) := Regular(f)], n)
  {
    hide NewText;
    assert |Bak(n)| > |n|;
  }

  lemma BakNot(m: string, n: string, services: set<string>)
    requires MayChange(Pam(n), services)
    ensures Bak(m) != n
  {
  }

  // What Guarded means for one service, spelled out.

  /** Write-ahead: a service that had no backup holds its old content, or a complete new text
      while a complete backup of the old content exists. */
  lemma WriteAhead(o: Disk, s: Disk, n: string, services: set<string>, pid: string)
    requires Guarded(o, s, services, pid) && Pam(n) in o && Pam(Bak(n)) !in o
    ensures Pam(n) in s
    ensures s[Pam(n)] != o[Pam(n)] ==>
              && IsText(o, Pam(n)) && IsText(s, Pam(n))
              && NewText(TextAt(o, Pam(n)), TextAt(s, Pam(n)))
              && Pam(Bak(n)) in s && s[Pam(Bak(n))] == o[Pam(n)]
  {
  }

  /** No existing backup is ever touched, and no other file either. */
  lemma BackupsStable(o: Disk, s: Disk, p: Path, services: set<string>, pid: string)
    requires Guarded(o, s, services, pid) && p in o && p != MANIFEST && !MayChange(p, services)
    ensures p in s && s[p] == o[p]
    ensures p.Pam? && IsBackup(p.name) ==> !MayChange(p, services)
  {
  }

  // ---------------------------------------------------------------- rollback

  datatype Saved = Saved(path: Path, file: File)

  /** What setup remembers before it touches anything. */
  datatype Snapshot = Snapshot(files: seq<Saved>, manifest: Option<File>)

  predicate IsSaved(snap: Snapshot, p: Path) {
    exists i :: 0 <= i < |snap.files| && snap.files[i].path == p
  }

  ghost predicate DistinctPaths(files: seq<Saved>) {
    forall i, j :: 0 <= i < j < |files| ==> files[i].path != files[j].path
  }

  /** The snapshot of `o`: every regular file of the PAM directory, and the manifest. */
  ghost predicate Remembers(snap: Snapshot, o: Disk) {
    && DistinctPaths(snap.files)
    && (forall i :: 0 <= i < |snap.files| ==>
          snap.files[i].path.Pam? && snap.files[i].path in o && o[snap.files[i].path] == Regular(snap.files[i].file))
    && (forall p :: p in o && p.Pam? && o[p].Regular? ==> IsSaved(snap, p))
    && (match snap.manifest
        case Some(f) => MANIFEST in o && o[MANIFEST] == Regular(f)
        case None => MANIFEST in o ==> o[MANIFEST].Special?)
  }

  /** A restore that reports success and was shown the names in `seen`: saved files are back,
      artifacts that were seen and not saved are gone, and nothing else in the directory moved. */
  ghost predicate Restored(d: Disk, snap: Snapshot, seen: set<string>, s: Disk) {
    && (forall i :: 0 <= i < |snap.files| ==>
          snap.files[i].path in s && s[snap.files[i].path] == Regular(snap.files[i].file))
    && (forall n :: !IsSaved(snap, Pam(n)) ==>
          if IsArtifact(n) && n in seen then Pam(n) !in s
          else (Pam(n) in s <==> Pam(n) in d) && (Pam(n) in d ==> s[Pam(n)] == d[Pam(n)]))
    && (match snap.manifest
        case Some(f) => MANIFEST in s && s[MANIFEST] == Regular(f)
        case None => MANIFEST !in s)
  }

  /** What a listing had to show for a complete rollback: every new artifact, and no artifact that
      was there before without being a regular file. */
  ghost predicate GoodListing(o: Disk, d: Disk, seen: set<string>) {
    forall n :: Pam(n) in d && IsArtifact(n) && !(Pam(n) in o && o[Pam(n)].Regular?) ==>
      (n in seen <==> Pam(n) !in o)
  }

  /** Rollback atomicity, with its exact condition: after a guarded transaction and a restore that
      reports success, bytes, modes and the set of names in the PAM directory are the original
      ones if and only if the listing showed what it had to. The manifest is always back. */
  lemma RollbackExact(o: Disk, d: Disk, s: Disk, snap: Snapshot, seen: set<string>, services: set<string>, pid: string)
    requires Guarded(o, d, services, pid) && Remembers(snap, o) && Restored(d, snap, seen, s)
    requires MANIFEST in o ==> o[MANIFEST].Regular?
    ensures SamePam(o, s) <==> GoodListing(o, d, seen)
    ensures (MANIFEST in o <==> MANIFEST in s) && (MANIFEST in o ==> o[MANIFEST] == s[MANIFEST])
  {
  }

  /** With every name listed and no irregular artifact to begin with, rollback is complete. */
  lemma FullListingIsGood(o: Disk, d: Disk, seen: set<string>)
    requires forall n :: Pam(n) in d ==> n in seen
    requires forall n :: Pam(n) in o && IsArtifact(n) ==> o[Pam(n)].Regular?
    ensures GoodListing(o, d, seen)
  {
  }

  /** The condition can fail: a backup made by the transaction stays behind when the listing misses
      it, although restore reports success. */
  lemma RollbackCanLeaveBackup(f: File, pid: string)
    ensures var o := map[Pam("sudo") := Regular(f)];
            var d := o[Pam(Bak("sudo")) := Regular(f)];
            var snap := Snapshot([Saved(Pam("sudo"), f)], None);
            && Guarded(o, d, {"sudo"}, pid) && Remembers(snap, o)
            && Restored(d, snap, {"sudo"}, d) && !SamePam(o, d)
  {
    var o := map[Pam("sudo") := Regular(f)];
    var d := o[Pam(Bak("sudo")) := Regular(f)];
    var snap := Snapshot([Saved(Pam("sudo"), f)], None);
    BakFacts("sudo", "sudo");
    assert |Bak("sudo")| > |"sudo"|;
    assert MANIFEST.Etc?;
    hide IsBackup, IsTemp, Bak, MANIFEST;
    assert snap.files[0].path == Pam("sudo");
    assert Pam(Bak("sudo")) in d && Pam(Bak("sudo")) !in o;
  }
}
