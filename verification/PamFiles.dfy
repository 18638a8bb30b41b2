// The file names, the manifest and the choice of services, spelled out in characters, and how a
// migration moves the set of services that the manifest lists.
module PamFiles {
  import opened Text
  import opened Order
  import opened PamText
  import opened PamLines
  import opened PamDisk

  // ---------------------------------------------------------------- names

  lemma EndsExactly(s: string, p: string)
    ensures EndsWith(s, p) <==> exists a :: s == a + p
  {
    if EndsWith(s, p) {
      assert s == s[..|s| - |p|] + p;
    }
  }

  lemma StartsExactly(s: string, p: string)
    ensures StartsWith(s, p) <==> exists b :: s == p + b
  {
    if StartsWith(s, p) {
      assert s == p + s[|p|..];
    }
  }

  /** Backups end in `.irauth.bak`, and temporaries have `.irauth.` in them and end in `.tmp`. */
  lemma ArtifactExactly(n: string)
    ensures Bak(n) == n + ".irauth.bak"
    ensures IsBackup(n) <==> exists a :: n == a + ".irauth.bak"
    ensures IsTemp(n) <==> (exists a, b :: n == a + ".irauth." + b) && exists a :: n == a + ".tmp"
  {
    EndsExactly(n, ".irauth.bak");
    EndsExactly(n, ".tmp");
    ContainsExactly(n, ".irauth.");
    hide Contains, EndsWith;
  }

  /** A temporary name takes the place of the extension. */
  lemma TempNameExactly(stem: string, extension: string, pid: string)
    requires '.' !in extension
    ensures stem != "" ==> TempName(stem + "." + extension, pid) == stem + ".irauth." + pid + ".tmp"
    ensures TempName(extension, pid) == extension + ".irauth." + pid + ".tmp"
    ensures TempName("." + extension, pid) == "." + extension + ".irauth." + pid + ".tmp"
  {
    var name := stem + "." + extension;
    assert name[|stem|] == '.';
    forall j | |stem| < j < |name| ensures name[j] != '.' {
      assert name[j] == extension[j - |stem| - 1];
    }
    assert LastDot(name) == |stem| && name[..|stem|] == stem;
    assert LastDot(extension) == -1;
    forall j | 0 < j < |extension| + 1 ensures ("." + extension)[j] != '.' {
      assert ("." + extension)[j] == extension[j - 1];
    }
    assert LastDot("." + extension) <= 0;
  }

  /** Letters, digits, `_` and `-`, at least one of them. */
  lemma ServiceNameExactly(n: string)
    ensures ValidServiceName(n) <==>
      n != "" && forall c :: c in n ==> 'a' <= c <= 'z' || 'A' <= c <= 'Z' || '0' <= c <= '9' || c == '_' || c == '-'
  {
    forall i | 0 <= i < |n| ensures n[i] in n {
    }
  }

  // ---------------------------------------------------------------- the services of a migration

  ghost predicate IsOwn(n: string) {
    (exists rest :: n == "irauth-" + rest) || exists a :: n == a + ".irauth.bak"
  }

  ghost predicate HoldsHowdyLine(text: string) {
    exists i :: 0 <= i < |Lines(text)| && HowdyLine(Lines(text)[i])
  }

  lemma IsOwnExactly(n: string)
    ensures IsOwn(n) <==> StartsWith(n, "irauth-") || IsBackup(n)
  {
    ArtifactExactly(n);
    StartsExactly(n, "irauth-");
    hide StartsWith, IsBackup;
  }

  /** Which services a migration rewrites: those selected that are text files, are not IRAuth's own
      and hold a Howdy line. */
  lemma MigratableExactly(d: Disk, selected: set<string>, n: string)
    ensures Migratable(d, selected, n) <==>
      n in selected && !IsOwn(n) && IsText(d, Pam(n)) && HoldsHowdyLine(TextAt(d, Pam(n)))
  {
    IsOwnExactly(n);
    if IsText(d, Pam(n)) {
      FindsHowdyLines(Lines(TextAt(d, Pam(n))));
      assert HasDirect(Lines(TextAt(d, Pam(n)))) <==> HoldsHowdyLine(TextAt(d, Pam(n)));
    }
    hide IsOwn, HasDirect, HoldsHowdyLine, IsBackup, StartsWith;
  }

  // ---------------------------------------------------------------- the manifest

  /** A regular text file with the marker that is neither a backup nor a temporary. */
  ghost predicate Migrated(d: Disk, n: string) {
    && IsText(d, Pam(n)) && (exists a, b :: TextAt(d, Pam(n)) == a + DISABLED + b)
    && !(exists a :: n == a + ".irauth.bak")
    && !((exists a, b :: n == a + ".irauth." + b) && exists a :: n == a + ".tmp")
  }

  lemma MarkedExactly(d: Disk, n: string)
    ensures n in Marked(d) <==> Migrated(d, n)
  {
    MarkedFacts(d, n);
    ArtifactExactly(n);
    TextsAre();
    hide MARKER, DISABLED, Contains, IsBackup, IsTemp;
    if IsText(d, Pam(n)) {
      ContainsExactly(TextAt(d, Pam(n)), MARKER);
    }
  }

  /** The migrated services in ascending order. */
  ghost predicate InTurn(d: Disk, names: seq<string>) {
    && (forall i, j :: 0 <= i < j < |names| ==> LexLess(names[i], names[j]))
    && (forall n :: n in names <==> Migrated(d, n))
  }

  predicate PathsOf(names: seq<string>, paths: seq<string>) {
    |paths| == |names| && forall i :: 0 <= i < |names| ==> paths[i] == "/etc/pam.d/" + names[i]
  }

  /** One path a line, in ascending order. */
  ghost predicate ListsPaths(text: string, d: Disk) {
    exists names, paths :: InTurn(d, names) && PathsOf(names, paths) && text == Unlines(paths)
  }

  lemma PathLinesExactly(names: seq<string>)
    ensures PathsOf(names, PathLines(names))
  {
  }

  lemma OrderIsInTurn(d: Disk)
    ensures InTurn(d, InOrder(Marked(d)))
  {
    hide Migrated, Marked;
    forall n ensures n in Marked(d) <==> Migrated(d, n) {
      MarkedExactly(d, n);
    }
    var names := InOrder(Marked(d));
    forall i, j | 0 <= i < j < |names| ensures LexLess(names[i], names[j]) {
      assert LexLess(Same(names[i]), Same(names[j]));
    }
  }

  lemma EntryListsPaths(d: Disk)
    ensures var e := ManifestEntry(Marked(d));
            e.Regular? && e.file.content.Utf8? && e.file.mode == 6 * 64 && ListsPaths(e.file.content.text, d)
  {
    hide Unlines, Marked, InTurn, PathsOf, PathLines;
    OrderIsInTurn(d);
    PathLinesExactly(InOrder(Marked(d)));
  }

  /** What an agreeing manifest is: absent when nothing is migrated, and else a file of mode 0600 that
      lists the paths of the migrated services. */
  lemma ManifestExactly(d: Disk)
    requires Agrees(d)
    ensures MANIFEST == Etc("pam-migrated.list")
    ensures MANIFEST in d <==> exists n :: Migrated(d, n)
    ensures MANIFEST in d ==>
              && IsText(d, MANIFEST) && d[MANIFEST].file.mode == 6 * 64
              && ListsPaths(TextAt(d, MANIFEST), d)
  {
    hide Migrated, Marked, Unlines, ListsPaths, ManifestEntry;
    forall n ensures n in Marked(d) <==> Migrated(d, n) {
      MarkedExactly(d, n);
    }
    if Marked(d) != {} {
      var m :| m in Marked(d);
      EntryListsPaths(d);
    }
  }

  // ---------------------------------------------------------------- what a migration marks

  lemma {:induction false} RewriteKeepsMarker(ls: seq<string>, inserted: bool)
    ensures SomeLineContains(RewriteLines(ls, inserted), MARKER) <==> SomeLineContains(ls, MARKER) || HasDirect(ls)
  {
    hide MARKER, IRAUTH_LINE, Direct, Contains;
    if ls != [] {
      var l, rest := ls[0], ls[1..];
      SplitHead(ls);
      SomeLineCons(ls, MARKER);
      assert SomeLineContains([l], MARKER) <==> Contains(l, MARKER) by {
        SomeLineCons([l], MARKER);
      }
      if Direct(l) {
        RewriteKeepsMarker(rest, true);
        SomeLineConcat(Routed(l, inserted), RewriteLines(rest, true), MARKER);
        RoutedIsMarked(l, inserted);
      } else {
        RewriteKeepsMarker(rest, inserted);
        SomeLineConcat([l], RewriteLines(rest, inserted), MARKER);
      }
    }
  }

  lemma RoutedIsMarked(line: string, inserted: bool)
    ensures SomeLineContains(Routed(line, inserted), MARKER)
  {
    MarkerFacts();
    hide MARKER, IRAUTH_LINE, Contains;
    assert Routed(line, inserted)[0] == MARKER;
  }

  /** Rewriting a service marks it if a direct entry was found, and never hides an old marker. */
  lemma RewrittenIsMarked(text: string)
    ensures Contains(RewriteText(text), MARKER) <==> Contains(text, MARKER) || HasDirect(Lines(text))
  {
    MarkerFacts();
    hide MARKER, Contains, Lines, Unlines, RewriteLines;
    ContainsByLine(text, MARKER);
    ContainsInUnlines(RewriteLines(Lines(text), false), MARKER);
    RewriteKeepsMarker(Lines(text), false);
  }

  /** After a migration the marked services are those marked before and those it rewrote, and no
      others: the backups it made are not among them. */
  lemma MigrationMarks(d: Disk, selected: set<string>)
    ensures forall n :: n in Marked(MigrateDisk(d, Todo(d, selected))) <==>
              n in Marked(d) || (n in Todo(d, selected) && !IsTemp(n))
  {
    hide Lines, RewriteText, HasDirect, StartsWith, MARKER, Contains, EndsWith, Marked;
    var todo := Todo(d, selected);
    var m := MigrateDisk(d, todo);
    forall n ensures n in Marked(m) <==> n in Marked(d) || (n in todo && !IsTemp(n)) {
      MarkedFacts(d, n);
      MarkedFacts(m, n);
      if n in todo {
        assert Pam(n) in m;
        RewrittenIsMarked(TextAt(d, Pam(n)));
      } else if Pam(n) !in d && Pam(n) in m {
        var k :| k in todo && Pam(n) == Pam(Bak(k));
        BakFacts(k, k);
      } else {
        assert Pam(n) in d <==> Pam(n) in m;
      }
    }
  }
}
