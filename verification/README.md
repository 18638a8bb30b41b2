# A verified model of IRAuth

IRAuth gates Linux logins on a face check in front of an IR or depth camera. This project models, in Dafny 4.11, the
parts of it that hold state or rewrite security-relevant text, and proves what its documentation and its design rely
on. `dafny verify dfyconfig.toml` checks everything.

| files | what they model |
|---|---|
| `Text.dfy`, `Order.dfy` | Rust strings, `str::lines`, trimming, and the order of file names |
| `PamText.dfy`, `PamLines.dfy`, `PamStack.dfy` | the rewriting of PAM service files, line by line, and what a PAM stack means before and after (pam.conf(5)) |
| `PamDisk.dfy`, `PamFiles.dfy`, `PamStore.dfy`, `PamOps.dfy`, `PamSetup.dfy`, `PamRuns.dfy` | the transaction engine over `/etc/pam.d` and the migration manifest: a mutable directory whose every system call may fail |
| `HowdyConfig.dfy` | the reader and the writer of Howdy's INI file |
| `Hardware.dfy` | the classification of video devices |
| `Protocol.dfy`, `ProtocolWire.dfy`, `RateLimit.dfy`, `Backend.dfy`, `Readiness.dfy` | the line protocol, the rate limiter, the poll loop around the face backend, the readiness probe |
| `Daemon.dfy` and `Daemon*.dfy` | `irauthd` as a state machine of one acceptor, a bounded queue, four workers and three mutexes that a panic can poison |
| `PamClient.dfy` | the PAM module and the end-to-end theorem |

Three modelling decisions run through the project.

- **Faults.** Every primitive of `PamStore.Store` (create, write, rename, remove, read) decides by a nondeterministic
  choice whether it fails, and a failing write may leave anything in the file being written. The contracts therefore
  hold for every schedule of faults. The ghost field `history` keeps every state the directory has been in, so that
  "in every intermediate state" can be said, and `faults` counts the calls that failed, so that it can be said when an
  operation must succeed.
- **Interleavings.** A behaviour of the daemon is any sequence of labels, each one atomic step of one thread (`Daemon.Exec`).
  The answers of the outside (user database, configuration file, device tree, face backend) are parameters of labels. A
  worker may panic at any point of a request, including inside the camera lock. The `log` of a state is the ghost trace
  in which the evidence for an answer is found.
- **Order of proof.** Loops of the original are Dafny loops proved against a recursive function; the laws are then
  lemmas about that function, so that they say something about each call and about whole runs. What both a loop and
  its function rely on (which line is a Howdy entry, which text is a selector, which value a line holds) is pinned by
  a lemma whose name ends in `Exactly`, which says the same in characters.

## What turned out to need a condition

- Rollback after a failed setup is complete **if and only if** the listing that restore used showed every new artifact
  and none of the artifact-named entries that were there before without being regular files: an unreadable directory or
  entry is silently skipped (crates/irauthctl/src/main.rs:477-478), and the snapshot holds regular files only (line
  428). See `PamDisk.RollbackExact`, and `PamDisk.RollbackCanLeaveBackup` for a backup that stays behind.
- Rewriting twice equals rewriting once **if and only if** no line of the file still ends in a carriage return after
  the one that `str::lines` strips. See `PamText.RewriteTwice`, and `PamText.RewriteTwiceCanDiffer` for `x\r\r\n`.
- Enabling and then disabling a service without a backup gives the original back **if and only if** the service did not
  mention pam_irauth.so before, or it has no delimiter line and ordinary line ends: otherwise enabling saves no backup
  and disabling falls back to stripping. See `PamRuns.EnableDisableExact` and `PamRuns.EnableDisableCanDiffer`.
- The user that the daemon checks is the user that the PAM module named **if and only if** that name has no newline: the
  module does not validate the name and the daemon reads one line. See `Protocol.UserPreserved`, with
  `Protocol.NewlineChangesUser` as the concrete case. No name with a newline is one that the backend can approve
  (`PamClient.ValidUserIsChecked`).
- After a panic has poisoned the camera lock, an OK can still be answered **if and only if** its approval was complete
  before and only waited to be sent. No approval follows the poisoning. See `DaemonRuns.OkAfterPoison` and the concrete
  sequence of steps in `DaemonService.OkCanFollowPoison`.
- The configured camera read back is the one that was bound **if and only if** the path has no comment character, no
  outer white space and no newline. See `HowdyConfig.PutGet`, and `HowdyConfig.PutGetCanFail` for `/dev/cam#1`.
- Cutting the backend's output to 512 bytes panics **if and only if** a character straddles that boundary. See
  `Backend.CutsUnlessStraddled` and `Backend.CutCanPanic`.
- While pam_irauth refuses, the inserted line is harmless unless a numeric jump leads past it: `PamStack.JumpsWouldMatter`
  gives a file whose result changes, and jumps that land ahead of it do no harm (`PamStack.MigratedFallsThrough`). When
  pam_irauth answers as the repeated direct entries did, resets matter as well (`PamStack.ResetsWouldMatter`); a stack
  without jumps and resets is safe (`PamStack.MigratedAgrees`), and so is every stack with a single direct entry
  (`PamStack.OneDirectSameCalls`).
- A service is enabled, that is, an auth rule of it calls pam_irauth, after a successful enable **if and only if** it was
  enabled before or no line of it named pam_irauth: the guard of enable looks at comments too
  (crates/irauthctl/src/main.rs:559). See `PamRuns.EnableEnables`, and `PamRuns.EnableCanMissComment` for a file that
  holds only `#pam_irauth.so`. Setup inherits this: it enables exactly the wanted services that meet this condition or
  had a direct Howdy entry to migrate (`PamSetup.SetupPam`).
- Disabling a service gives its original back **if and only if** a backup that was there before the service was first
  changed held that original: an attempt that fails while it writes the backup, and cannot remove what it wrote, leaves
  a torn one, which a retry keeps and disable restores. See `PamRuns.RoundTripOverRuns`, `PamRuns.TornBackupComesBack`
  for the input, and `PamRuns.RetriesAreSafe` for attempts that left nothing behind.
- After a refresh the manifest agrees with the directory **if and only if** no migrated service was misread. See
  `PamDisk.AgreesExactly` and `PamDisk.MisreadBreaksAgreement`; the next successful disable or migration mends it
  (`PamRuns.RefreshMends`).
- The direct-Howdy test wants `auth` and a space. Entries separated by a tab, and those behind `-auth` or a different
  case, are outside it; nothing is claimed about them.

## Model

| member | source | states |
|---|---|---|
| PamText.RewriteDirectHowdyPam | crates/irauthctl/src/main.rs:692-717 | The loop computes the rewritten text, and reports a find exactly when some line is a direct Howdy entry; PamLines.RewritesHowdyLines and PamLines.FindsHowdyLines say in characters what both mean. |
| PamText.InsertStanza | crates/irauthctl/src/main.rs:565-578 | The loop puts the stanza after the first `#%PAM` line, or in front when there is none, and keeps all other lines. |
| PamLines.HeaderExactly | crates/irauthctl/src/main.rs:572 | A header line is `#%PAM` behind nothing but white space. |
| PamLines.InsertsExactly | crates/irauthctl/src/main.rs:565-578 | Enabling puts the three lines of the stanza right behind the first header line, or in front when there is none, and changes nothing else. |
| PamText.StripStanza | crates/irauthctl/src/main.rs:598-614 | The loop drops everything between the stanza's delimiters, and only that. |
| PamLines.StripsExactly | crates/irauthctl/src/main.rs:598-614 | A beginning takes everything with it up to the next end, or to the end of the file; what stands ahead is kept and the rest is stripped in the same way. |
| PamLines.StripsLoneEnd | crates/irauthctl/src/main.rs:605-608 | An end without a beginning goes alone. |
| PamLines.StripsNothing | crates/irauthctl/src/main.rs:608-611 | Lines without a delimiter are kept as they are. |
| PamText.RewriteLeavesNoDirect | crates/irauthctl/src/main.rs:696-710 | No line that the rewriter writes, for any text, meets the direct-Howdy test again. |
| PamLines.DirectExactly | crates/irauthctl/src/main.rs:697-699 | The test of the rewriter holds exactly for the lines that, trimmed, are `auth`, a space, and any rest that names howdy in any case, whatever control and module path stand there. |
| PamLines.RewritesHowdyLines | crates/irauthctl/src/main.rs:692-717 | For every text: no Howdy line is left, each has become its own comment behind a marker in its place, every other line stands in order as it was, and besides there are only markers and the inserted line. |
| PamLines.FindsHowdyLines | crates/irauthctl/src/main.rs:699-701 | The found flag is set exactly if the text holds a Howdy line. |
| PamText.RewriteTwice | crates/irauthctl/src/main.rs:692-717 | A second rewrite finds nothing in any rewritten text, and returns the same bytes exactly when no line read from the original ends in a carriage return. |
| PamText.RewriteTwiceCanDiffer | crates/irauthctl/src/main.rs:696 | A concrete text whose second rewrite differs from the first. |
| PamText.CrFreeRewritten | crates/irauthctl/src/main.rs:696-714 | The rewriter neither adds nor hides a carriage return at the end of a line. |
| PamText.CrFreeText | crates/irauthctl/src/main.rs:696 | Content without carriage returns meets the condition of RewriteTwice, so rewriting it is idempotent. |
| PamText.RewriteLosesNothing | crates/irauthctl/src/main.rs:700-714 | For all lines: each original line has its own place in the output, in order, as itself or, if removed, as its comment behind a marker; everything else is a marker or the inserted line, and there are exactly as many of those as there were removals, plus one inserted line. |
| PamText.RecoverRewritten | crates/irauthctl/src/main.rs:700-714 | Without an old marker, the original can be read off the output alone. |
| PamText.RewriteAddsOneIrauth | crates/irauthctl/src/main.rs:707-710 | The number of active lines that name pam_irauth, not counting those that were themselves removed, grows by exactly one if something was found and not at all otherwise, however many entries were found. |
| PamText.EnabledOnce | crates/irauthctl/src/main.rs:559-562 | After enabling, and after a rewrite that found something, the guard of enable fires, so enabling is then a no-op. |
| PamLines.HasIrauthExactly | crates/irauthctl/src/main.rs:559 | The guard of enable holds exactly if `pam_irauth.so` occurs anywhere in a line. |
| PamText.EnableThenStrip | crates/irauthctl/src/main.rs:565-614 | For content without delimiter lines the disable loop undoes the enable loop up to line ends. |
| PamText.StripLeaves | crates/irauthctl/src/main.rs:598-614 | The disable loop leaves a text as it is exactly when it has no delimiter line and ends each line in a plain newline. |
| PamText.EnableKeepsMarker | crates/irauthctl/src/main.rs:565-578 | Enabling neither adds the migration marker to a file nor hides it. |
| PamStack.DirectKind | crates/irauthctl/src/main.rs:697-699 | A line that the rewriter removes is never an account, password or session rule for PAM. |
| PamStack.IrauthLineRule | crates/irauthctl/src/main.rs:708 | PAM reads the inserted line as a sufficient auth rule that calls pam_irauth. |
| PamStack.EnableRoutes | crates/irauthctl/src/main.rs:565-578 | For every text, what enable writes holds an auth rule that calls pam_irauth. |
| PamStack.RewriteRoutes | crates/irauthctl/src/main.rs:692-717 | So does what the rewriter writes whenever it found a direct entry. |
| PamStack.CommentRoutesNothing | crates/irauthctl/src/main.rs:559-562 | A concrete comment that meets the guard of enable and is no rule: every stack read from it is empty. |
| PamStack.RewriteStepsLines | crates/irauthctl/src/main.rs:692-717 | The stack whose meaning is studied consists of the very lines the rewriter writes. |
| PamStack.OtherKindsUnchanged | crates/irauthctl/src/main.rs:692-717 | Account, password and session stacks make the same calls with the same outcomes before and after migration. |
| PamStack.MigratedFallsThrough | crates/irauthctl/src/main.rs:692-717 | While pam_irauth refuses, the migrated auth stack returns, from any point and for any module outcomes, what the original returns with its direct entries deleted, unless a jump ahead of the first direct entry leads past it. |
| PamStack.MigratedAgrees | crates/irauthctl/src/main.rs:692-717 | If the direct entries were all sufficient and share pam_irauth's outcome, and nothing jumps or resets, the migrated stack returns what the original returned, even with rules between repeated entries. |
| PamStack.OneDirectSameCalls | crates/irauthctl/src/main.rs:692-717 | With one such entry the migrated stack makes the very calls of the original, jumps and resets included. |
| PamStack.JumpsWouldMatter | crates/irauthctl/src/main.rs:707-710 | A concrete file with a jump over one rule: with pam_irauth refusing, the rewriter's output fails where the file without its direct entry succeeds. |
| PamStack.ResetsWouldMatter | crates/irauthctl/src/main.rs:700-710 | A concrete file with a reset between two direct entries that share pam_irauth's outcome: it succeeds, and the rewriter's output fails. |
| PamStack.MigratedFile | crates/irauthctl/src/main.rs:692-717 | The theorems on migration for whole files; the lines a later reader finds are the ones they speak of exactly when none ends in a carriage return. |
| PamStack.EnableStepsLines | crates/irauthctl/src/main.rs:565-578 | The enabled stack consists of the very lines that enable writes. |
| PamStack.EnabledInFrontFallsThrough | crates/irauthctl/src/main.rs:565-578 | With the stanza ahead of every auth rule and pam_irauth refusing, the stack returns what it returned before, numeric jumps included. |
| PamStack.EnabledFallsThrough | crates/irauthctl/src/main.rs:568-575 | The same when rules stand above the header line, if none of those jumps past it. |
| PamDisk.TempFacts | crates/irauthctl/src/main.rs:1080 | A temporary name, made by replacing the extension, is always one that the manifest scan and the rollback recognise, is never a backup name, and never the file itself. |
| PamDisk.BakFacts | crates/irauthctl/src/main.rs:1035-1037 | Backup names are recognised and belong to exactly one service. |
| PamFiles.ArtifactExactly | crates/irauthctl/src/main.rs:483-486 | Backup names end in `.irauth.bak`; temporary names hold `.irauth.` and end in `.tmp`. |
| PamFiles.TempNameExactly | crates/irauthctl/src/main.rs:1080 | The temporary name of a file takes the place of its extension, whether it has one, has none, or is a dot file. |
| PamFiles.ServiceNameExactly | crates/irauthctl/src/main.rs:1039-1048 | A valid service name is one or more ASCII letters, digits, `_` and `-`. |
| PamFiles.MigratableExactly | crates/irauthctl/src/main.rs:655-675 | A migration rewrites exactly the selected services that are text files, are not IRAuth's own by name, and hold a Howdy line. |
| PamFiles.MarkedExactly | crates/irauthctl/src/main.rs:733-749 | A service is listed as migrated exactly if it is a regular text file with the marker whose name is no artifact's. |
| PamFiles.ManifestExactly | crates/irauthctl/src/main.rs:751-768 | An agreeing manifest is absent when nothing is migrated, and otherwise a file of mode 0600 with the path of each migrated service on its own line in ascending order. |
| PamFiles.MigrationMarks | crates/irauthctl/src/main.rs:650-690 | After a migration the listed services are those listed before and those it rewrote, backups never among them. |
| PamDisk.RefreshedFacts | crates/irauthctl/src/main.rs:726-768 | Refreshing the manifest moves nothing in the PAM directory and makes the manifest list what it was told. |
| PamDisk.AgreesExactly | crates/irauthctl/src/main.rs:733-768 | After a refresh that listed some of the migrated services the manifest agrees with the directory if and only if it listed all of them. |
| PamDisk.MisreadBreaksAgreement | crates/irauthctl/src/main.rs:738-749 | A concrete directory whose refresh, having misread one service, leaves a manifest that does not agree. |
| PamDisk.MigrateOneMore | crates/irauthctl/src/main.rs:676-680 | The result of migrating a set of services is reached one replacement at a time, in any order. |
| PamDisk.WriteAhead | crates/irauthctl/src/main.rs:676-679 | In every guarded state a service that had no backup holds its old bytes and mode, or a complete new text while a complete backup of the old bytes and mode exists. |
| PamDisk.BackupsStable | crates/irauthctl/src/main.rs:1008-1011 | In every guarded state each existing backup and each file outside the transaction is as it was. |
| PamDisk.RollbackExact | crates/irauthctl/src/main.rs:466-516 | After a failed transaction and a restore that reports success, bytes, modes and names in the PAM directory are the snapshot's if and only if the listing was good; the manifest always is. |
| PamDisk.RollbackCanLeaveBackup | crates/irauthctl/src/main.rs:477-478 | A concrete rollback that reports success and leaves a new backup behind, because the listing missed it. |
| PamDisk.FullListingIsGood | crates/irauthctl/src/main.rs:477-494 | A full listing and no irregular artifact-named entry at the start are enough for a complete rollback. |
| PamStore.Store.CreateNew | crates/irauthctl/src/main.rs:1081-1085 | Exclusive creation refuses an existing file without touching anything. |
| PamStore.Store.Fill | crates/irauthctl/src/main.rs:1086-1089 | Writing, syncing and setting the mode may stop anywhere but changes only that file. |
| PamStore.Store.CleanUp | crates/irauthctl/src/main.rs:1090-1096 | The removal after a failure touches only that file; unless it failed too, which is counted, the file is gone, and it fails only on a fault. |
| PamStore.Store.AtomicWrite | crates/irauthctl/src/main.rs:1078-1097 | Success puts exactly these bytes and mode at the path; failure leaves the path alone and touches at most the temporary file, nothing at all if that file existed, and leaves nothing behind unless the removal failed. Without a fault it fails only if that file existed. Every state on the way has the old or the whole new file. |
| PamStore.Store.CreateBackupOnce | crates/irauthctl/src/main.rs:998-1026 | Success leaves an existing backup as it is or makes a complete one; without a fault it succeeds exactly if the source is a regular file and the backup is absent or a regular file. Failure, and every state on the way, touches at most a backup that did not exist, and a failure leaves nothing behind unless the removal failed. |
| PamStore.Store.ReadDirLeniently | crates/irauthctl/src/main.rs:477-478 | A listing that skips errors shows each entry at most once; what it hides is recorded. |
| PamStore.Store.FindMarked | crates/irauthctl/src/main.rs:733-749 | The scan lists only regular non-artifact files with the marker, each once, and all of them if no read failed. |
| PamStore.Store.RefreshManifest | crates/irauthctl/src/main.rs:726-768 | The manifest becomes the sorted list of the services it read as migrated, and is removed when there are none; it then agrees with the directory if and only if that was all of them. Without a fault it succeeds exactly if there is nothing to list or no stale temporary file. The PAM directory is untouched. |
| PamOps.ReplaceService | crates/irauthctl/src/main.rs:676-679 | Backup, then replacement, for every fault schedule: every state on the way has at most new artifacts, until the complete replacement; a failure leaves nothing or a complete backup, unless a removal failed. Without a fault it succeeds exactly if the backup is absent or regular and no stale temporary file is there. |
| PamOps.PamEnable | crates/irauthctl/src/main.rs:554-583 | Success has exactly the effect of enabling one valid regular text service, and without a fault or misread it succeeds exactly if the service is one and names pam_irauth already or can be replaced; failure adds at most artifacts, and a backup it leaves is complete unless a removal failed; every state on the way is an attempted one, and a guarded one inside a transaction. |
| PamOps.PamDisable | crates/irauthctl/src/main.rs:585-619 | Success restores the backup's bytes and mode, or strips the stanza when there is no backup, and refreshes the manifest; without a fault or misread it succeeds exactly if there is such a backup or text and no stale temporary file; on failure and in every state on the way the service is as it was or as restored, and nothing else but artifacts and the manifest moves. |
| PamOps.MigrateEntry | crates/irauthctl/src/main.rs:655-680 | One directory entry is rewritten exactly when it is selected, regular, not IRAuth's own, and contains a direct entry; a failure adds at most artifacts. |
| PamOps.MigrateServices | crates/irauthctl/src/main.rs:654-681 | The loop rewrites exactly the services that qualify and counts them; without a fault or misread it succeeds exactly if each of them can be replaced, an old regular backup being no obstacle; stopped anywhere, it has done some of them completely and left the rest alone, with at most artifacts added and complete backups unless a removal failed. |
| PamOps.Migrate | crates/irauthctl/src/main.rs:650-690 | Migration as a whole, manifest included: its effect on success, when it must succeed, agreement exactly when no migrated service was misread, and for every outcome and every state on the way, services that are as before or completely migrated with their original saved. |
| PamOps.ServiceIsNoArtifact | crates/irauthctl/src/main.rs:1039-1048 | A valid service name is never the name of a backup or temporary file. |
| PamSetup.TakeSnapshot | crates/irauthctl/src/main.rs:421-445 | The snapshot holds every regular file of the directory with bytes and mode, and the manifest; it fails only on a fault. |
| PamSetup.WriteFilesBack | crates/irauthctl/src/main.rs:469-473 | All saved files are back when no write failed, and nothing else has changed; without a fault that is so exactly if no stale temporary file is in the way; meanwhile each is as found or as saved. |
| PamSetup.SweepArtifacts | crates/irauthctl/src/main.rs:477-494 | Of the entries the listing shows, exactly the unsaved artifacts are gone. |
| PamSetup.Restore | crates/irauthctl/src/main.rs:466-516 | A restore that reports success has put back files and manifest and removed the artifacts its listing showed; without a fault, and the saved files being there, it succeeds exactly if no stale temporary file is in the way; in every state on the way, and after a failure, each saved file is as found or as saved. |
| PamSetup.EnableServices | crates/irauthctl/src/main.rs:377-383 | The second half of the action: every wanted service that is there has been through enable, and what was enabled stays enabled; without a fault it succeeds exactly if each of them can be enabled. |
| PamSetup.SetUpEnables | crates/irauthctl/src/main.rs:371-385 | After a successful migration the services can be enabled exactly if setup as a whole could succeed on the starting directory. |
| PamSetup.NamedInTransaction | crates/irauthctl/src/main.rs:371-385 | In every guarded state a service that names pam_irauth is enabled if it was so or never named it before, and otherwise only if it had a direct entry to migrate. |
| PamSetup.MigrateThenEnable | crates/irauthctl/src/main.rs:371-385 | The action of setup stays within guarded states. Success leaves sudo, polkit-1 and, with login, gdm-password, as far as they were there, enabled whenever they were enabled before or no line of theirs named pam_irauth; if no file was misread, every selected service with a direct entry is enabled too and the manifest agrees. |
| PamSetup.SetupPam | crates/irauthctl/src/main.rs:358-385 | The transaction: every state of the action is guarded, gdm-password being touched only on request. Without a fault or misread it commits exactly if each of its services is a text that can be replaced or that needs no replacement, and the manifest can be refreshed. A commit leaves complete backups and, when no file was misread, an agreeing manifest and exactly those wanted services enabled that were enabled before, had no line naming pam_irauth, or had a direct entry to migrate. During rollback each service is as originally or as the action left it; without a fault rollback succeeds exactly if no stale temporary file is in the way; a reported rollback is complete exactly when its listing was good, and with a full listing and no irregular entry it is the rolled-back step of the theorems on sequences of operations. |
| PamRuns.EnableKeepsMarked | crates/irauthctl/src/main.rs:554-583 | Enabling changes no service's migration status, which is why it need not refresh the manifest. |
| PamRuns.AgreementOverRuns | crates/irauthctl/src/main.rs:726-768 | After any sequence of successful enable, disable, migrate and rolled-back setup operations from an agreeing state, the manifest is the sorted list of migrated services, absent exactly when there are none. |
| PamRuns.RefreshMends | crates/irauthctl/src/main.rs:726-768 | A successful disable or migration makes the manifest agree, however wrong it was. |
| PamRuns.SuccessIsAttempted | crates/irauthctl/src/main.rs:554-690 | Each successful operation is one of the outcomes that the theorems on attempts speak of. |
| PamRuns.BackupsOverRuns | crates/irauthctl/src/main.rs:998-1011 | No sequence of attempts to enable, disable and migrate changes an existing backup, whether they succeed, fail half way, misread files or are cut short. |
| PamRuns.ChangeBacksUp | crates/irauthctl/src/main.rs:563-564 | Whatever an attempt to enable or migrate comes to, if it changed a service without a backup then the original bytes and mode are saved. |
| PamRuns.SuccessChanges | crates/irauthctl/src/main.rs:559-562 | A success on a service that qualifies does change it. |
| PamRuns.DisableRestores | crates/irauthctl/src/main.rs:590-597 | Disabling yields exactly the backup's bytes and mode. |
| PamRuns.RoundTripOverRuns | crates/irauthctl/src/main.rs:554-597 | Take any attempts of any outcome, the first change of a service among them, and disable it: it is back byte for byte and with its mode if and only if a backup that was there before the change held the original. |
| PamRuns.RetriesAreSafe | crates/irauthctl/src/main.rs:554-597 | For a service that began without a backup the original always comes back, through any number of failed attempts and retries, if none of those before the change left an incomplete backup. |
| PamRuns.TornBackupComesBack | crates/irauthctl/src/main.rs:998-1026 | A concrete sequence in which a torn backup is kept by the retry and put in the place of the service by disable. |
| PamRuns.EnableDisableExact | crates/irauthctl/src/main.rs:559-614 | When enable and then disable is the identity for a service without a backup, exactly, in terms of its original text. |
| PamRuns.EnableDisableCanDiffer | crates/irauthctl/src/main.rs:559-614 | A concrete service for which it is not. |
| PamRuns.EnableEnables | crates/irauthctl/src/main.rs:554-583 | Enabling a service gives it an auth rule that calls pam_irauth if and only if it had one or no line of it named pam_irauth; the others keep theirs. |
| PamRuns.EnableCanMissComment | crates/irauthctl/src/main.rs:559-562 | A concrete service that enabling leaves unchanged and without any rule, because a comment names pam_irauth. |
| Order.SortByCorrect | crates/irauthctl/src/main.rs:751 | Sorting gives an ascending arrangement of the same elements. |
| Order.SortedListing | crates/irauthctl/src/main.rs:751-768 | The sorted listing depends only on the set of names, not on the order of the directory. |
| Order.LexExactly | crates/irauthctl/src/main.rs:751 | The order of names compares the first characters that differ, a proper beginning coming first. |
| HowdyConfig.ParseVideoDevicePath | crates/irauth-backend-howdy/src/lib.rs:263-288 | The reader's loop returns the first non-empty value that a line under a `[video]` header assigns to device_path, cut at its first `#` or `;` and trimmed; None exactly if there is none. The predicate FirstGiven says this of the lines themselves. |
| HowdyConfig.FirstIsUnique | crates/irauth-backend-howdy/src/lib.rs:263-288 | There is only one such value, so the contract of the reader determines its result. |
| HowdyConfig.AssignsExactly | crates/irauth-backend-howdy/src/lib.rs:277-284 | What the scanners take for key and value of a line is what the line assigns. |
| HowdyConfig.CommentedDevice | crates/irauth-backend-howdy/src/lib.rs:281 | For every clean device and every comment, a device_path line with that device, a blank and the comment is read as exactly that device. |
| HowdyConfig.SampleFile | crates/irauth-backend-howdy/src/lib.rs:383-387 | A concrete file with a commented device is read as that device. |
| HowdyConfig.ReplaceVideoDevicePath | crates/irauth-backend-howdy/src/lib.rs:290-332 | The writer fails exactly when there is no `[video]` header, and otherwise computes the replacement; its invariant is that a section seen and not yet served is still open. |
| HowdyConfig.WritesInPlace | crates/irauth-backend-howdy/src/lib.rs:296-328 | The writer replaces each line under `[video]` that sets the device in its place; if the first such section has none, the new line ends that section; all other lines stay. |
| HowdyConfig.PutGetLines | crates/irauth-backend-howdy/src/lib.rs:263-332 | From any point of the scan the reader finds what the writer wrote: the two scanners agree on sections. |
| HowdyConfig.PutGet | crates/irauth-backend-howdy/src/lib.rs:263-332 | Reading after writing returns the device if and only if it is non-empty, trimmed, and free of `#`, `;` and newlines. |
| HowdyConfig.PutGetCanFail | crates/irauth-backend-howdy/src/lib.rs:280 | A concrete absolute path that is not read back. |
| HowdyConfig.PutPut | crates/irauth-backend-howdy/src/lib.rs:290-332 | For content and devices without carriage returns, the last write wins as if the first had never happened. |
| HowdyConfig.OthersSurvive | crates/irauth-backend-howdy/src/lib.rs:296-321 | All lines other than the replaced ones survive, in order. |
| HowdyConfig.Frame | crates/irauth-backend-howdy/src/lib.rs:290-332 | A lookup of any other section or key gives the same answer before and after a replacement. |
| HowdyConfig.LookupIsClean | crates/irauth-backend-howdy/src/lib.rs:280-285 | Whatever the reader returns is a device that survives being written again. |
| HowdyConfig.BindThenConfigured | crates/irauth-backend-howdy/src/lib.rs:153-192 | After an absolute path was bound, the daemon's lookup returns that very path if and only if the path is clean. |
| HowdyConfig.ConfiguredExactly | crates/irauth-backend-howdy/src/lib.rs:153-171 | The daemon's camera is the first device that the file gives, unless that is `none` in any case. |
| Hardware.TokenIrExact | crates/irauth-hardware/src/lib.rs:109-113 | The token scan accepts exactly the names with an `ir` that has no letter or digit on either side. |
| Hardware.ReadVerifiedIds | crates/irauth-hardware/src/lib.rs:122-136 | The loop collects exactly the valid selectors of the allow-list, comments stripped and lowercased. |
| Hardware.UsbSelectorExactly | crates/irauth-hardware/src/lib.rs:138-155 | A selector is an id, `@` and two hexadecimal digits. |
| Hardware.AllowEntryExactly | crates/irauth-hardware/src/lib.rs:125-130 | The entry of an allow-list line is what stands ahead of its comment, trimmed and in lower case. |
| Hardware.FindUsbInfo | crates/irauth-hardware/src/lib.rs:157-176 | The upward walk terminates and finds the nearest valid id together with the interface number of the deepest directory, up to where it stops, that has a readable one; UsbOf says this of the tree without a walk. |
| Hardware.UsbOfIsUnique | crates/irauth-hardware/src/lib.rs:157-176 | The tree says only one thing of a device, so that determines the result of the walk. |
| Hardware.WalkIsNearest | crates/irauth-hardware/src/lib.rs:160-175 | The walk stops at the nearest ancestor with a valid USB id, or at the root when there is none. |
| Hardware.AttributesExactly | crates/irauth-hardware/src/lib.rs:161-172 | Ids and interface numbers are the trimmed, lowercased attribute texts; an id is four hexadecimal digits, a colon and four more. |
| Hardware.StrictExactly | crates/irauth-hardware/src/lib.rs:81-96 | A device is strict if and only if its name says infrared or depth, or the nearest valid id and the first interface number make a well-formed selector that an allow-list line holds; each kind of evidence exactly in its case. Stated on what the tree says, not on the walk. |
| Hardware.AllowListMonotone | crates/irauth-hardware/src/lib.rs:69-96 | More allow-list lines never take a strict device away. |
| Hardware.ProbeAt | crates/irauth-hardware/src/lib.rs:68-107 | The probing loop classifies exactly the video entries and sorts them by node. |
| Hardware.ProbeExactly | crates/irauth-hardware/src/lib.rs:68-107 | A probe gives each entry whose name starts with `video` exactly once, in ascending order of node. |
| Hardware.ProbeOrderIndependent | crates/irauth-hardware/src/lib.rs:74-106 | The result does not depend on the order in which the directory is listed. |
| Hardware.StrictDeviceForPath | crates/irauth-hardware/src/lib.rs:48-62 | A yes names a strict device that the path resolves to; a no means there is none; an error only if resolution or listing failed. |
| Protocol.RoundTrip | crates/irauth-core/src/lib.rs:53-97 | Decoding an encoded request returns it if and only if its fields are valid. |
| Protocol.AcceptedIsCanonical | crates/irauth-core/src/lib.rs:67-97 | Every accepted line, however spelled, decodes to a valid request that survives being encoded and decoded. |
| ProtocolWire.AuthenticateExactly | crates/irauth-core/src/lib.rs:53-97 | Which lines ask for an authentication, in characters: `V`, perhaps a plus sign, zeros, `1`, the three tabs, two fields of 1 to 256 bytes without control characters, and line ends. |
| ProtocolWire.BareExactly | crates/irauth-core/src/lib.rs:92-94 | The same for PING and STATUS. |
| ProtocolWire.RejectionsExactly | crates/irauth-core/src/lib.rs:67-97 | Which of the four errors every other line gets. |
| Protocol.OtherSpelling | crates/irauth-core/src/lib.rs:74-80 | `V01` and `V+1` are such other spellings of the version; `V2` and `V` are not. |
| Protocol.EncodedLength | crates/irauth-daemon/src/main.rs:24 | A valid request takes at most 522 bytes and so always fits the daemon's limit. |
| Protocol.UserPreserved | crates/irauth-daemon/src/main.rs:121-134 | If the daemon accepts an authentication from what a client sent, the user is the client's if and only if that name has no newline; the reason never changes the user. |
| Protocol.NewlineChangesUser | crates/irauth-core/src/lib.rs:57-61 | A concrete name with a newline that the daemon takes for another user. |
| Protocol.ResponseFraming | crates/irauth-core/src/lib.rs:99-118 | Every response ends in its only newline and has no control characters but its own tabs, whatever its messages contain. |
| ProtocolWire.ResponseTexts | crates/irauth-core/src/lib.rs:99-111 | The text of each response to messages without control characters. |
| ProtocolWire.SanitizeExactly | crates/irauth-core/src/lib.rs:113-118 | In other messages control characters become blanks, and 256 characters are kept. |
| Protocol.OnlyOkApproves | crates/pam-irauth/src/lib.rs:85-87 | On every prefix of a response the client's test holds only if it was an Ok, and on the whole line exactly if it was. |
| RateLimit.Limiter.constructor | crates/irauth-daemon/src/main.rs:72 | A new limiter has seen nothing. |
| RateLimit.Limiter.RateLimit | crates/irauth-daemon/src/main.rs:236-249 | One call under the lock: admitted exactly unless this uid was admitted less than 500 ms before; the new table, and the table as a function of the history. |
| RateLimit.TableHoldsLastAdmission | crates/irauth-daemon/src/main.rs:241-248 | After any history the table holds exactly each uid's last admission; rejections never extend the wait. |
| RateLimit.AdmissionsAreSpaced | crates/irauth-daemon/src/main.rs:241-246 | Admissions of one uid are at least 500 ms apart. |
| RateLimit.WindowBound | crates/irauth-daemon/src/main.rs:21 | Any window of L ms holds at most L/500 + 1 admissions of one uid. |
| RateLimit.SteadyRequestsAdmitted | crates/irauth-daemon/src/main.rs:241-248 | A request 500 ms after all earlier ones is always admitted. |
| RateLimit.OthersDoNotMatter | crates/irauth-daemon/src/main.rs:243 | Deleting the requests of all other uids changes no decision for this one. |
| Backend.Authenticate | crates/irauth-backend-howdy/src/lib.rs:86-127 | The poll loop approves exactly a valid user name whose child was seen to exit successfully before any timeout, with output that can be cut; it panics exactly when the child ended, or was timed out, with output that cannot be cut, and fails exactly when the child cannot be spawned, polled or collected; the polls it reports end where the loop must end and are at most 301. |
| Backend.ApprovableExactly | crates/irauth-backend-howdy/src/lib.rs:86-127 | What is approved, with its limits written out: an exit with success at some poll, all earlier polls finding the child running within 30 s, and output of which 512 bytes can be kept. |
| Backend.UsernameExactly | crates/irauth-backend-howdy/src/lib.rs:358-364 | A valid user name is 1 to 64 bytes of ASCII letters, digits, `_`, `-` and `.`. |
| Backend.CombinedExactly | crates/irauth-backend-howdy/src/lib.rs:342-351 | The detail text is both outputs, trimmed and in order, with a separator if neither is empty. |
| Backend.Finish | crates/irauth-backend-howdy/src/lib.rs:104-122 | What the collected output comes to: the verdict exactly when it can be cut, a panic exactly when it is there and cannot. |
| Backend.CutsUnlessStraddled | crates/irauth-backend-howdy/src/lib.rs:352-354 | Cutting the detail text succeeds exactly when no character straddles the 512th byte. |
| Backend.CutCanPanic | crates/irauth-backend-howdy/src/lib.rs:352-354 | A concrete text that cannot be cut. |
| Readiness.WaitForDaemonReady | crates/irauthctl/src/main.rs:936-962 | It succeeds exactly when a probe in time finds the daemon ready; the probes it reports end where the loop must end and are at most ceil(timeout / interval) + 1. |
| Readiness.OnlyPongIsReady | crates/irauthctl/src/main.rs:946-948 | Of all responses only PONG counts as ready. |
| DaemonLocks.MoveGrips | crates/irauth-daemon/src/main.rs:80-94 | A worker takes a lock only when it is free and not poisoned, gives up only what it holds, and holds it in between. |
| DaemonLocks.LocksStep | crates/irauth-daemon/src/main.rs:150-156 | Every step keeps each mutex owned by exactly the worker whose position says so. |
| DaemonAnswers.PanicExactly | crates/irauth-daemon/src/main.rs:153-156 | A panic, possible wherever a worker is busy, ends the worker, loses its connection and poisons exactly the lock it held. |
| DaemonSafety.LockDiscipline | crates/irauth-daemon/src/main.rs:80-94 | In every reachable state each mutex has at most one holder, so at most one worker is in the recognition section. That whoever is waited for does not wait follows from the shape of the positions alone; that nobody is stuck is NeverStuck. |
| DaemonQueue.QueueStep | crates/irauth-daemon/src/main.rs:75-113 | Every step keeps each connection in its one place and each served connection at its worker. |
| DaemonAnswers.AcceptExactly | crates/irauth-daemon/src/main.rs:97-104 | A connection is queued, behind all others, exactly if fewer than 16 are; otherwise it is dropped. |
| DaemonAnswers.LockRecvExactly | crates/irauth-daemon/src/main.rs:81-84 | An idle worker waits for the receiver's lock alone, and is gone if that is poisoned. |
| DaemonAnswers.TakeExactly | crates/irauth-daemon/src/main.rs:81-84 | A worker under the receiver's lock takes the head of the queue and frees the lock. |
| DaemonAnswers.BareRequestsExactly | crates/irauth-daemon/src/main.rs:130-132 | The two requests without a user are answered at once, PONG and the report. |
| DaemonSafety.Conservation | crates/irauth-daemon/src/main.rs:75-113 | In every reachable state each accepted stream is in exactly one of dropped, queued, in service, finished or lost; at most 16 queued, at most 4 in service, taken once and in arrival order; one in service is the one its worker serves, a finished one was answered or had no readable line, and an answered one is finished. |
| DaemonRuns.FatesAreFinal | crates/irauth-daemon/src/main.rs:81-93 | Over any continuation fates only move forward, and dropped, finished and lost are final. |
| DaemonEvidence.MoveBacked | crates/irauth-daemon/src/main.rs:143-202 | Every step of a request adds to the log what its next position requires as evidence. |
| DaemonAnswers.FindUserExactly | crates/irauth-daemon/src/main.rs:144-149 | The peer-uid rule, both ways: whatever the lookup answers, the worker goes on exactly if the user exists and the peer is root or that user. |
| DaemonAnswers.DecideExactly | crates/irauth-daemon/src/main.rs:150-152 | The limiter lets a request on exactly unless its uid was admitted less than 500 ms before, and records only admissions. |
| DaemonAnswers.CheckPolicyExactly | crates/irauth-daemon/src/main.rs:161-182 | The camera gate lets a request on exactly if a camera is configured and the policy finds it strict; each other outcome has its refusal. |
| DaemonAnswers.RecogniseExactly | crates/irauth-daemon/src/main.rs:188-201 | The backend's answer is an OK exactly for a child that is to be approved. |
| DaemonAnswers.SendExactly | crates/irauth-daemon/src/main.rs:139 | The answer goes out as it is, and the connection is finished. |
| DaemonEvidence.BackedStep | crates/irauth-daemon/src/main.rs:143-202 | Every step of any thread keeps the evidence behind all workers and all past events. |
| DaemonOnce.OnceStep | crates/irauth-daemon/src/main.rs:139 | Every step keeps approvals and answers unique for each connection. |
| DaemonOnce.ClosedStep | crates/irauth-daemon/src/main.rs:117-141 | Every step keeps finished connections answered, unless no line could be read from them. |
| DaemonSafety.OkIsEarned | crates/irauth-daemon/src/main.rs:143-202 | In every run an OK is answered only after, for the same connection, the user lookup, the peer-uid rule, a limiter admission, and, under one hold of the camera lock, the strict-camera check and the backend's approval, in this order; the log holds the child behind that approval, which was seen to exit successfully in time for a valid user name. |
| DaemonSafety.OksAreDistinct | SECURITY.md:21-22 | Each connection is answered at most once and different OKs stand on different approvals: no success is cached or shared. |
| DaemonAnswers.AnswersFit | crates/irauth-daemon/src/main.rs:117-141 | In every run each answer is one that the line of its connection calls for: PONG for a ping, a report for a status request, an OK or one of the ten refusals for an authentication, and the right protocol error for everything else. |
| DaemonRates.RateStep | crates/irauth-daemon/src/main.rs:236-249 | Every step keeps the table equal to the limiter's table for the attempts in lock order, with a clock that never runs back. |
| DaemonSafety.WindowBoundOverRuns | crates/irauth-daemon/src/main.rs:236-249 | In every concurrent run any window of L ms holds at most L/500 + 1 admissions of one uid. |
| DaemonSafety.DecisionsAreOwn | crates/irauth-daemon/src/main.rs:236-249 | In every concurrent run a uid gets the decisions it would get if no other uid had asked. |
| DaemonSafety.TableIsLastAdmission | crates/irauth-daemon/src/main.rs:241-248 | In every reachable state the map holds exactly each uid's last admission in the log. |
| DaemonRuns.NoApprovalAfterPoison | crates/irauth-daemon/src/main.rs:153-156 | Once the camera lock is poisoned, no later step of any run is an approval. |
| DaemonRuns.NoAdmissionAfterPoison | crates/irauth-daemon/src/main.rs:237-239 | Once the limiter's lock is poisoned, no later attempt is admitted. |
| DaemonRuns.OkAfterPoison | crates/irauth-daemon/src/main.rs:139 | After the camera lock is poisoned an OK for a connection can still come if and only if its approved answer was already waiting to be sent. |
| DaemonService.OkCanFollowPoison | crates/irauth-daemon/src/main.rs:139 | A concrete run in which that happens. |
| DaemonService.GoodRequestSucceeds | crates/irauth-daemon/src/main.rs:117-202 | The converse of safety: an idle worker with free locks serves a request, of root or of the user itself and not within 500 ms of an earlier admission, to an OK when the camera is strict and the backend's child is one to approve. |
| DaemonProgress.WorkBound | crates/irauth-daemon/src/main.rs:80-94 | In every run the workers take at most ten steps for each accepted connection and eight more. |
| DaemonProgress.NeverStuck | crates/irauth-daemon/src/main.rs:80-94 | While a worker lives and a connection is queued or in service, some worker has a step that is not a panic. |
| DaemonProgress.AllGetSettled | crates/irauth-daemon/src/main.rs:75-113 | From every reachable state with a live worker and an unpoisoned receiver, the workers can settle every connection without help. |
| PamClient.ParseReason | crates/pam-irauth/src/lib.rs:90-109 | The loop returns the first non-empty reason of at most 128 bytes, or none if no argument gives one. |
| PamClient.GivesReasonExactly | crates/pam-irauth/src/lib.rs:100-106 | A reason argument is `reason=` and 1 to 128 bytes. |
| PamClient.AuthenticateInner | crates/pam-irauth/src/lib.rs:54-88 | Success is returned exactly when the caller supplied a user and the exchange for that user and reason was heard to start with `OK` and a tab; a missing handle is a service error and everything else an authentication error. |
| PamClient.SucceedsExactly | crates/pam-irauth/src/lib.rs:66-87 | Success, with the request written out: the first acceptable reason, or `pam` when there is none, and an answer that begins with `OK` and a tab. |
| PamClient.RequestArrives | crates/pam-irauth/src/lib.rs:66-84 | The module's request decodes to itself exactly when the user is a valid field and the reason has no control characters. |
| PamClient.SuccessIsEarned | crates/pam-irauth/src/lib.rs:74-88 | End to end, over all interleavings and all truncations of the stream: when the module lets a user in, that connection's request earned an approval, and the checked user is the one let in if and only if the name has no newline. |
| PamClient.LoginIsEarned | crates/pam-irauth/src/lib.rs:54-88 | The same for the module as a whole: whenever it returns success for a user, whatever its arguments, and its exchange was that of a connection of a run. |
| PamClient.ValidUserIsChecked | crates/irauth-backend-howdy/src/lib.rs:358-364 | Every user name that the backend could approve reaches the daemon unchanged. |
| PamClient.SuccessesAreDistinct | SECURITY.md:21-22 | Successes of different connections stand on different backend approvals. |

## Left out

- `irauth-passkey`, the bridge build, systemctl, git, go and TPM access: process orchestration without an algorithm of its own.
- Sockets, `SO_PEERCRED`, timeouts on streams, `chown`, the PAM C interface and `catch_unwind`: the peer uid, the line received and the part of the answer heard are inputs of the model. A panic of the PAM module (code 4) is not modelled.
- Parsing of `/etc/passwd`: the uid of a user is an answer of the outside.
- Howdy and pamtester: the child is an oracle of poll results, and Howdy's own reading of its configuration is not modelled; the policy check is claimed to precede the backend call under the same lock, not to fix the node a frame comes from.
- `cmd_doctor`, `cmd_status`, `cmd_hardware`, camera selection, help texts, log messages and option parsing: user interface.
- Installing `irauth-howdy` and `irauth-passkey`, groups, udev, modprobe, dlib repair, the install and uninstall scripts: thin wrappers around external commands.
- `PamSetup.SetupPam`: when it must commit is stated for polkit-1 and gdm-password that are absent or regular files; whether a link of that name counts as there is left open.
- A call that the model counts as a fault is one that fails although no entry of the directory, as modelled, is in its way; a directory in the place of the manifest is such a fault.
- Symbolic links are opaque entries; ownership, durability after power loss and the effect of the umask on a created mode (any mode) are not modelled. File names that are not UTF-8 are left out.
- A directory listing is a snapshot of one moment, and existence checks of regular files are right; only restore may be shown less than there is.
- Backslash continuations, includes and substacks of PAM files: a line is a rule, and a control that is not one of the four keywords is an opaque function of the module's outcome.
- `HowdyConfig.BindThenConfigured`: covers the text that `bind_camera` writes and reads, not its backup and temporary file.
- Unicode: characters are Unicode scalar values with Rust's white-space and control classes; opaque bytes stand for content that is not UTF-8.
- `PamDisk.WriteAhead`: says nothing about a service that had a backup before, since a torn backup of an earlier failure is kept as it is, and nothing about the states during rollback, for which `PamSetup.SetupPam` only promises whole files.
- `PamText.RecoverRewritten`: excludes files that hold a marker from an earlier migration, which the text alone cannot tell from a new one; `PamText.RewriteLosesNothing` covers them.
- `PamRuns.AgreementOverRuns`: is about operations that succeeded and in which no readable file was misread (`PamDisk.AgreesExactly` says what a misread one does, `PamRuns.RefreshMends` what repairs it); an operation that fails after replacing a service leaves the manifest behind until the next refresh.
- `PamRuns.BackupsOverRuns`: leaves rollback out, which removes the backups that the failed transaction made.
- `PamStack.MigratedFallsThrough`: excludes only stacks in which a numeric jump leads past the first direct entry, which the inserted line can redirect (`PamStack.JumpsWouldMatter`); it is about pam_irauth refusing, the other answers being those of `PamStack.MigratedAgrees`.
- `PamRuns.RoundTripOverRuns`: leaves out runs in which the first change of the service is a disable without a backup, which strips a stanza that this run never put there (`PamRuns.EnableDisableExact` covers it).
- `DaemonProgress.AllGetSettled`: fairness of the scheduler is not modelled; the theorem gives a continuation, and WorkBound with NeverStuck rule out that another one goes on for ever or gets stuck.
