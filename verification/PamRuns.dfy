// Whole runs on the PAM directory: the manifest stays in step over successful operations; over
// attempts of any outcome backups stay put, and disabling brings the original back exactly when the
// backup it finds is right; and what enabling enables.
module PamRuns {
  import opened Text
  import opened PamText
  import opened PamDisk
  import opened PamOps
  import PamStack

  ghost predicate IsRun(ds: seq<Disk>, ops: seq<Op>) {
    |ds| == |ops| + 1 && forall i :: 0 <= i < |ops| ==> Does(ops[i], ds[i], ds[i + 1])
  }

  // ---------------------------------------------------------------- the manifest

  /** Enabling changes no service's migration status and leaves the manifest alone. */
  lemma EnableKeepsMarked(d: Disk, n: string)
    requires ValidServiceName(n) && IsText(d, Pam(n))
    ensures Marked(EnableDisk(d, n)) == Marked(d) && SameManifest(d, EnableDisk(d, n))
  {
    hide EnableText, Lines, HasIrauth, Contains, MARKER, MANIFEST, IsArtifact, InsertAfterHeader;
    var s := EnableDisk(d, n);
    BakFacts(n, n);
    ArtifactNames(n, "1");
    assert |Bak(n)| > |n|;
    EnableKeepsMarker(TextAt(d, Pam(n)));
    assert MANIFEST.Etc? by {
      ManifestPath();
    }
    forall m ensures m in Marked(s) <==> m in Marked(d) {
      MarkedFacts(s, m);
      MarkedFacts(d, m);
    }
  }

  lemma ManifestPath()
    ensures MANIFEST.Etc?
  {
  }

  lemma RefreshedAgrees(d: Disk)
    ensures Agrees(Refreshed(d, Marked(d)))
  {
    hide Refreshed, Marked, Lists;
    RefreshedFacts(d, Marked(d));
  }

  lemma {:induction false} AgreementStep(op: Op, d: Disk, s: Disk)
    requires Does(op, d, s) && Agrees(d)
    ensures Agrees(s)
  {
    hide EnableDisk, RestoredService, Refreshed, MigrateDisk, Marked, ManifestEntry, MANIFEST, SamePam;
    match op {
      case Enabling(n) => EnableKeepsMarked(d, n);
      case Disabling(n) => RefreshedAgrees(RestoredService(d, n));
      case Migrating(selected) => RefreshedAgrees(MigrateDisk(d, Todo(d, selected)));
      case RolledBackSetup => SamePamMarked(d, s);
    }
  }

  /** Disabling and migrating mend the manifest, however wrong it was. */
  lemma RefreshMends(op: Op, d: Disk, s: Disk)
    requires Does(op, d, s) && (op.Disabling? || op.Migrating?)
    ensures Agrees(s)
  {
    hide RestoredService, Refreshed, MigrateDisk, Marked, Agrees;
    match op {
      case Disabling(n) => RefreshedAgrees(RestoredService(d, n));
      case Migrating(selected) => RefreshedAgrees(MigrateDisk(d, Todo(d, selected)));
    }
  }

  /** Index agreement: after any run of successful operations from an agreeing state, the manifest
      lists exactly the migrated services in order, and is absent exactly when there are none. */
  lemma {:induction false} AgreementOverRuns(ds: seq<Disk>, ops: seq<Op>)
    requires IsRun(ds, ops) && Agrees(ds[0])
    ensures forall i :: 0 <= i < |ds| ==> Agrees(ds[i])
  {
    hide Does, Agrees;
    if |ops| > 0 {
      var front := |ops| - 1;
      AgreementOverRuns(ds[..|ops|], ops[..front]);
      assert Does(ops[front], ds[front], ds[|ops|]);
      assert ds[front] == ds[..|ops|][front];
      AgreementStep(ops[front], ds[front], ds[|ops|]);
      forall i | 0 <= i < |ds| ensures Agrees(ds[i]) {
        assert i < |ops| ==> ds[i] == ds[..|ops|][i];
      }
    }
  }

  // ---------------------------------------------------------------- backups

  // From here on the operations of a run need not succeed: each may fail anywhere, misread files or
  // be cut short, and the next one starts from whatever it left.

  ghost predicate IsAttemptedRun(ds: seq<Disk>, ops: seq<Op>) {
    |ds| == |ops| + 1 && forall i :: 0 <= i < |ops| ==> Attempted(ops[i], ds[i], ds[i + 1])
  }

  /** A success is one of the outcomes of an attempt. */
  lemma SuccessIsAttempted(op: Op, d: Disk, s: Disk)
    requires Does(op, d, s)
    ensures Attempted(op, d, s)
  {
    hide Attempted, EnableText, Lines, HasIrauth, Refreshed, Marked, RestoredService, MigrateDisk, SamePam, IsText,
         Migratable, Todo, TextAt;
    NothingAdded(d);
    ArtifactsAreAttempted(op, d, d);
    match op {
      case Enabling(n) =>
        if !HasIrauth(Lines(TextAt(d, Pam(n)))) {
          ReplaceIsEnabling(d, n);
        }
      case Disabling(n) => RestoredIsAttempted(d, n);
      case Migrating(selected) => TodoIsAttempted(d, selected);
      case RolledBackSetup => ManifestIsNoMatter(op, d, d, s);
    }
  }

  lemma RestoredIsAttempted(d: Disk, n: string)
    requires ValidServiceName(n) && Pam(n) in d && (Pam(Bak(n)) in d || IsText(d, Pam(n)))
    requires Pam(Bak(n)) in d ==> d[Pam(Bak(n))].Regular?
    ensures Attempted(Disabling(n), d, Refreshed(RestoredService(d, n), Marked(RestoredService(d, n))))
  {
    hide Attempted, Marked, Refreshed, StripText;
    var r := RestoredService(d, n);
    WriteIsDisabling(d, n, r, r[Pam(n)].file, "1");
    RefreshedFacts(r, Marked(r));
    ManifestIsNoMatter(Disabling(n), d, r, Refreshed(r, Marked(r)));
  }

  lemma TodoIsAttempted(d: Disk, selected: set<string>)
    ensures var m := MigrateDisk(d, Todo(d, selected));
            Attempted(Migrating(selected), d, Refreshed(m, Marked(m)))
  {
    hide Attempted, MigrateDisk, Marked, Refreshed, HasDirect, Lines, StartsWith, IsBackup;
    var m := MigrateDisk(d, Todo(d, selected));
    NothingAdded(m);
    MigratedInPart(d, selected, Todo(d, selected), m);
    RefreshedFacts(m, Marked(m));
    ManifestIsNoMatter(Migrating(selected), d, m, Refreshed(m, Marked(m)));
  }

  lemma BackupStep(op: Op, d: Disk, s: Disk, n: string)
    requires Attempted(op, d, s) && Pam(Bak(n)) in d
    ensures Pam(Bak(n)) in s && s[Pam(Bak(n))] == d[Pam(Bak(n))]
  {
    hide EnableText, StripText, RewriteText, Lines, HasIrauth, HasDirect, IsText, RestoredService, IsTemp, StartsWith;
    BakFacts(n, n);
    match op {
      case Enabling(m) => BackupIsNoService(n, m);
      case Disabling(m) => BackupIsNoService(n, m);
      case Migrating(selected) =>
      case RolledBackSetup =>
    }
  }

  lemma BackupIsNoService(n: string, m: string)
    ensures ValidServiceName(m) ==> Bak(n) != m
  {
    hide IsTemp;
    if ValidServiceName(m) {
      ServiceIsNoArtifact(m);
      BakFacts(n, n);
    }
  }

  /** Backup stability: no sequence of attempts to enable, disable and migrate changes an existing
      backup, whatever each of them comes to. */
  lemma {:induction false} BackupsOverRuns(ds: seq<Disk>, ops: seq<Op>, n: string)
    requires IsAttemptedRun(ds, ops) && Pam(Bak(n)) in ds[0]
    ensures forall i :: 0 <= i < |ds| ==> Pam(Bak(n)) in ds[i] && ds[i][Pam(Bak(n))] == ds[0][Pam(Bak(n))]
  {
    hide Attempted, Bak;
    if |ops| > 0 {
      var front := |ops| - 1;
      BackupsOverRuns(ds[..|ops|], ops[..front], n);
      assert Attempted(ops[front], ds[front], ds[|ops|]);
      assert ds[front] == ds[..|ops|][front];
      BackupStep(ops[front], ds[front], ds[|ops|], n);
      forall i | 0 <= i < |ds|
        ensures Pam(Bak(n)) in ds[i] && ds[i][Pam(Bak(n))] == ds[0][Pam(Bak(n))]
      {
        assert i < |ops| ==> ds[i] == ds[..|ops|][i];
      }
    }
  }

  // ---------------------------------------------------------------- getting the original back

  /** The operation gives `n` a new text when it succeeds. */
  ghost predicate Changes(op: Op, d: Disk, n: string) {
    match op
    case Enabling(m) => m == n && IsText(d, Pam(n)) && !HasIrauth(Lines(TextAt(d, Pam(n))))
    case Migrating(selected) => Migratable(d, selected, n)
    case _ => false
  }

  /** A success of such an operation does change the service. */
  lemma SuccessChanges(op: Op, d: Disk, s: Disk, n: string)
    requires Does(op, d, s) && Changes(op, d, n)
    ensures Pam(n) in d && Pam(n) in s && s[Pam(n)] != d[Pam(n)]
  {
    hide EnableText, StripText, RewriteText, Lines, HasIrauth, HasDirect, Marked, ManifestEntry, MANIFEST, StartsWith,
         IsBackup;
    ManifestPath();
    EnabledOnce(TextAt(d, Pam(n)));
    RewriteTwice(TextAt(d, Pam(n)));
    match op {
      case Enabling(m) => assert |Bak(n)| > |n|;
      case Migrating(selected) => assert n in Todo(d, selected);
    }
  }

  /** Whatever an attempt to enable or migrate came to: if it changed a service without a backup,
      the original bytes and mode are saved. */
  lemma ChangeBacksUp(op: Op, d: Disk, s: Disk, n: string)
    requires Attempted(op, d, s) && !op.Disabling? && Pam(n) in d && Pam(Bak(n)) !in d
    ensures Pam(n) in s
    ensures s[Pam(n)] != d[Pam(n)] ==> Pam(Bak(n)) in s && s[Pam(Bak(n))] == d[Pam(n)]
  {
    hide EnableText, StripText, RewriteText, Lines, HasIrauth, HasDirect, StartsWith;
  }

  /** Disabling yields exactly the backup's bytes and mode. */
  lemma DisableRestores(d: Disk, s: Disk, n: string)
    requires Disabled(d, s, n) && Pam(Bak(n)) in d
    ensures Pam(n) in s && s[Pam(n)] == d[Pam(Bak(n))]
  {
    hide Marked, ManifestEntry, MANIFEST;
    ManifestPath();
  }

  /** Getting the original back, with its exact condition. Take any attempts, of which number `k` is
      the first to change the service, and disable it in the end: the service is back, byte for byte
      and with its mode, if and only if a backup that was there before the change was right. */
  lemma RoundTripOverRuns(ds: seq<Disk>, ops: seq<Op>, k: nat, s: Disk, n: string)
    requires IsAttemptedRun(ds, ops) && k < |ops| && Pam(n) in ds[0]
    requires forall i :: 0 <= i <= k ==> Pam(n) in ds[i] && ds[i][Pam(n)] == ds[0][Pam(n)]
    requires Pam(n) in ds[k + 1] ==> ds[k + 1][Pam(n)] != ds[0][Pam(n)]
    requires ops[k].Disabling? ==> Pam(Bak(n)) in ds[k]
    requires Disabled(ds[|ops|], s, n)
    ensures Pam(n) in s
    ensures s[Pam(n)] == ds[0][Pam(n)] <==> (Pam(Bak(n)) in ds[k] ==> ds[k][Pam(Bak(n))] == ds[0][Pam(n)])
  {
    hide Bak, Attempted, IsAttemptedRun, Disabled;
    RunStep(ds, ops, k);
    if Pam(Bak(n)) in ds[k] {
      BackupStep(ops[k], ds[k], ds[k + 1], n);
    } else {
      ChangeBacksUp(ops[k], ds[k], ds[k + 1], n);
    }
    RestOfRun(ds, ops, k + 1);
    BackupsOverRuns(ds[k + 1..], ops[k + 1..], n);
    assert ds[k + 1..][|ops| - k - 1] == ds[|ops|];
    DisableRestores(ds[|ops|], s, n);
  }

  /** Retries are safe: if no attempt before the change left a file it could not remove, each backup
      it made was complete, and a service that began without a backup comes back. */
  lemma RetriesAreSafe(ds: seq<Disk>, ops: seq<Op>, k: nat, s: Disk, n: string)
    requires IsAttemptedRun(ds, ops) && k < |ops| && Pam(n) in ds[0] && Pam(Bak(n)) !in ds[0]
    requires forall i :: 0 <= i <= k ==> Pam(n) in ds[i] && ds[i][Pam(n)] == ds[0][Pam(n)]
    requires forall i :: 0 <= i < k ==> BackupsWhole(ds[i], ds[i + 1])
    requires Pam(n) in ds[k + 1] ==> ds[k + 1][Pam(n)] != ds[0][Pam(n)]
    requires ops[k].Disabling? ==> Pam(Bak(n)) in ds[k]
    requires Disabled(ds[|ops|], s, n)
    ensures Pam(n) in s && s[Pam(n)] == ds[0][Pam(n)]
  {
    hide Bak, Attempted, IsAttemptedRun, Disabled, BackupsWhole;
    BackupIsOriginal(ds, ops, k, n);
    RoundTripOverRuns(ds, ops, k, s, n);
  }

  lemma {:induction false} BackupIsOriginal(ds: seq<Disk>, ops: seq<Op>, k: nat, n: string)
    requires IsAttemptedRun(ds, ops) && k <= |ops| && Pam(n) in ds[0] && Pam(Bak(n)) !in ds[0]
    requires forall i :: 0 <= i <= k ==> Pam(n) in ds[i] && ds[i][Pam(n)] == ds[0][Pam(n)]
    requires forall i :: 0 <= i < k ==> BackupsWhole(ds[i], ds[i + 1])
    ensures Pam(Bak(n)) in ds[k] ==> ds[k][Pam(Bak(n))] == ds[0][Pam(n)]
  {
    hide Bak, Attempted, IsAttemptedRun, BackupsWhole;
    if k > 0 {
      BackupIsOriginal(ds, ops, k - 1, n);
      RunStep(ds, ops, k - 1);
      if Pam(Bak(n)) in ds[k - 1] {
        BackupStep(ops[k - 1], ds[k - 1], ds[k], n);
      } else {
        NewBackupIsWhole(ds[k - 1], ds[k], n);
      }
    }
  }

  lemma NewBackupIsWhole(d: Disk, s: Disk, n: string)
    requires BackupsWhole(d, s) && Pam(n) in d && Pam(Bak(n)) !in d
    ensures Pam(Bak(n)) in s ==> s[Pam(Bak(n))] == d[Pam(n)]
  {
  }

  /** The condition can fail: a failed attempt whose clean-up failed too leaves a torn backup, the
      next attempt keeps it and succeeds, and disabling puts it in the place of the service. */
  lemma TornBackupComesBack(f: File, junk: File)
    requires f.content == Utf8("") && junk != f
    ensures var d := map[Pam("sudo") := Regular(f)];
            var torn := d[Pam(Bak("sudo")) := Regular(junk)];
            var e := EnableDisk(torn, "sudo");
            var s := Refreshed(RestoredService(e, "sudo"), {});
            && Attempted(Enabling("sudo"), d, torn) && !BackupsWhole(d, torn)
            && Does(Enabling("sudo"), torn, e) && Disabled(e, s, "sudo")
            && s[Pam("sudo")] == Regular(junk) && s[Pam("sudo")] != d[Pam("sudo")]
  {
    assert !HasIrauth(Lines(""));
    TornBackup("sudo", f, junk);
  }

  lemma TornBackup(n: string, f: File, junk: File)
    requires ValidServiceName(n) && f.content.Utf8? && !HasIrauth(Lines(f.content.text)) && junk != f
    ensures var d := map[Pam(n) := Regular(f)];
            var torn := d[Pam(Bak(n)) := Regular(junk)];
            var e := EnableDisk(torn, n);
            var s := Refreshed(RestoredService(e, n), {});
            && Attempted(Enabling(n), d, torn) && !BackupsWhole(d, torn)
            && Does(Enabling(n), torn, e) && Disabled(e, s, n)
            && Pam(n) in s && s[Pam(n)] == Regular(junk)
  {
    hide ValidServiceName, HasIrauth, Lines, EnableText, StripText, Marked, ManifestEntry, MANIFEST, IsTemp, Rewrites;
    ManifestPath();
    BakFacts(n, n);
    assert |Bak(n)| > |n|;
    var e := EnableDisk(map[Pam(n) := Regular(f)][Pam(Bak(n)) := Regular(junk)], n);
    assert {} <= Marked(RestoredService(e, n));
  }

  lemma RunStep(ds: seq<Disk>, ops: seq<Op>, i: nat)
    requires IsAttemptedRun(ds, ops) && i < |ops|
    ensures |ds| == |ops| + 1 && Attempted(ops[i], ds[i], ds[i + 1])
  {
  }

  lemma RestOfRun(ds: seq<Disk>, ops: seq<Op>, k: nat)
    requires IsAttemptedRun(ds, ops) && k <= |ops|
    ensures |ds| == |ops| + 1 && IsAttemptedRun(ds[k..], ops[k..])
  {
    hide Attempted;
    forall i | 0 <= i < |ops| - k ensures Attempted(ops[k..][i], ds[k..][i], ds[k..][i + 1]) {
      assert Attempted(ops[k + i], ds[k + i], ds[k + i + 1]);
    }
  }

  /** The exact outcome of enabling and disabling at once without a backup: the original, unless
      the service already named pam_irauth, so that enabling saved nothing, and the loop of disable
      has something to remove or a line end to change. */
  lemma EnableDisableExact(d: Disk, e: Disk, s: Disk, n: string)
    requires Does(Enabling(n), d, e) && Disabled(e, s, n) && Pam(Bak(n)) !in d
    ensures Pam(n) in s
    ensures var text := TextAt(d, Pam(n));
            s[Pam(n)] == d[Pam(n)] <==>
              || !HasIrauth(Lines(text))
              || (NoDelimiters(Lines(text)) && Unlines(Lines(text)) == text)
  {
    hide EnableText, StripText, Lines, HasIrauth, Marked, ManifestEntry, MANIFEST, NoDelimiters, Unlines;
    ManifestPath();
    StripLeaves(TextAt(d, Pam(n)));
    assert |Bak(n)| > |n|;
  }

  /** A service whose pam_irauth line somebody else put between the delimiters. */
  function Preset(): string {
    BEGIN + "\n" + (IRAUTH_LINE + "\n") + (END + "\n")
  }

  /** The condition can fail: enabling such a service does nothing, and disabling changes it. */
  lemma EnableDisableCanDiffer(mode: nat)
    ensures var d := map[Pam("sudo") := Regular(File(Utf8(Preset()), mode))];
            var s := Refreshed(RestoredService(d, "sudo"), {});
            && Does(Enabling("sudo"), d, d) && Disabled(d, s, "sudo") && Pam(Bak("sudo")) !in d
            && s[Pam("sudo")] != d[Pam("sudo")]
  {
    PresetLines();
    hide Preset, Lines, HasIrauth, NoDelimiters, RestoredService, Refreshed, Does, Disabled;
    PresetDiffers("sudo", Preset(), mode);
  }

  lemma PresetDiffers(n: string, text: string, mode: nat)
    requires ValidServiceName(n) && HasIrauth(Lines(text)) && !NoDelimiters(Lines(text))
    ensures var d := map[Pam(n) := Regular(File(Utf8(text), mode))];
            var s := Refreshed(RestoredService(d, n), {});
            && Does(Enabling(n), d, d) && Disabled(d, s, n) && Pam(Bak(n)) !in d
            && Pam(n) in s && s[Pam(n)] != d[Pam(n)]
  {
    hide ValidServiceName, HasIrauth, Lines, NoDelimiters, StripText, Marked, EnableText, MANIFEST;
    var d := map[Pam(n) := Regular(File(Utf8(text), mode))];
    assert |Bak(n)| > |n|;
    assert {} <= Marked(RestoredService(d, n));
    var s := Refreshed(RestoredService(d, n), {});
    hide Refreshed, RestoredService;
    EnableDisableExact(d, d, s, n);
  }

  lemma PresetLines()
    ensures HasIrauth(Lines(Preset())) && !NoDelimiters(Lines(Preset()))
  {
    var ls := [BEGIN, IRAUTH_LINE, END];
    UnlinesFew(BEGIN, IRAUTH_LINE, END);
    assert Preset() == Unlines(ls);
    StanzaNoNewlines();
    LinesOfUnlines(ls);
    DelimitersTrim();
    IrauthLineFacts();
    assert StripCrs(ls) == ls by {
      IrauthLineShape();
      hide IRAUTH_LINE;
    }
    hide BEGIN, IRAUTH_LINE, END, Lines, Unlines, MentionsIrauth, Trim, Preset;
    assert ls[0] == BEGIN && ls[1] == IRAUTH_LINE;
  }

  // ---------------------------------------------------------------- enabled services

  /** An auth rule of the service calls pam_irauth. */
  predicate Enabled(d: Disk, n: string) {
    IsText(d, Pam(n)) && PamStack.RoutesAuth(Lines(TextAt(d, Pam(n))))
  }

  /** What enable tests: some line, rule or not, names pam_irauth. */
  predicate Named(d: Disk, n: string) {
    IsText(d, Pam(n)) && HasIrauth(Lines(TextAt(d, Pam(n))))
  }

  /** When enabling a service enables it, exactly: unless a line that calls nothing, such as a
      comment, makes it believe that this was done before. */
  lemma EnableEnables(d: Disk, n: string)
    requires IsText(d, Pam(n))
    ensures Enabled(EnableDisk(d, n), n) <==> !Named(d, n) || Enabled(d, n)
    ensures Named(EnableDisk(d, n), n)
    ensures forall m :: Enabled(d, m) ==> Enabled(EnableDisk(d, n), m)
    ensures forall m :: Named(d, m) ==> Named(EnableDisk(d, n), m)
  {
    hide EnableText, Lines, HasIrauth;
    EnabledOnce(TextAt(d, Pam(n)));
    PamStack.EnableRoutes(TextAt(d, Pam(n)));
    hide PamStack.RoutesAuth;
    assert |Bak(n)| > |n|;
  }

  /** It can fail: enabling a service whose only mention is a comment succeeds, changes nothing, and
      leaves it without any rule. */
  lemma EnableCanMissComment(mode: nat)
    ensures var d := map[Pam("sudo") := Regular(File(Utf8(PamStack.COMMENT + "\n"), mode))];
            && Does(Enabling("sudo"), d, d) && Named(d, "sudo") && !Enabled(d, "sudo")
            && forall ss, kind ::
                 PamStack.StepLines(ss) == Lines(TextAt(d, Pam("sudo"))) ==> PamStack.Stack(ss, kind) == []
  {
    hide Lines, HasIrauth, PamStack.RoutesAuth, PamStack.COMMENT, PamStack.Stack, PamStack.StepLines, ValidServiceName;
    PamStack.CommentRoutesNothing();
    SudoIsValid();
  }

  /** A service that a transaction has changed is enabled. */
  lemma ReplacedIsEnabled(o: Disk, s: Disk, n: string)
    requires Replaced(o, s, n)
    ensures Enabled(s, n)
    ensures !Named(o, n) || HasDirect(Lines(TextAt(o, Pam(n))))
  {
    hide EnableText, RewriteText, Lines, HasIrauth, HasDirect;
    var text := TextAt(o, Pam(n));
    PamStack.EnableRoutes(text);
    if HasDirect(Lines(text)) {
      PamStack.RewriteRoutes(text);
    }
    hide PamStack.RoutesAuth;
  }
}
