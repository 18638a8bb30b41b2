// What the PAM text operations do to single lines, spelled out in characters: which lines the
// rewriter removes, which ones enable looks at, and what disable takes out.
module PamLines {
  import opened Text
  import opened PamText

  // ---------------------------------------------------------------- which lines are meant

  /** `howdy` in any case. */
  ghost predicate NamesHowdy(s: string) {
    exists i: nat :: i + 5 <= |s| && IsHowdy(s, i)
  }

  predicate IsHowdy(s: string, i: nat)
    requires i + 5 <= |s|
  {
    && (s[i] == 'h' || s[i] == 'H') && (s[i + 1] == 'o' || s[i + 1] == 'O') && (s[i + 2] == 'w' || s[i + 2] == 'W')
    && (s[i + 3] == 'd' || s[i + 3] == 'D') && (s[i + 4] == 'y' || s[i + 4] == 'Y')
  }

  /** `auth`, a space, and any rest that names Howdy, whatever its control and module. */
  ghost predicate HowdyLine(line: string) {
    exists rest :: Trim(line) == "auth " + rest && NamesHowdy(rest)
  }

  lemma HowdyInLower(s: string, i: nat)
    requires i + 5 <= |s|
    ensures At(Lower(s), i, "howdy") <==> IsHowdy(s, i)
  {
    assert "howdy"[0] == 'h' && "howdy"[1] == 'o' && "howdy"[2] == 'w' && "howdy"[3] == 'd' && "howdy"[4] == 'y';
    var l := Lower(s);
    assert l[i + 0] == LowerChar(s[i]) && l[i + 1] == LowerChar(s[i + 1]) && l[i + 2] == LowerChar(s[i + 2]);
    assert l[i + 3] == LowerChar(s[i + 3]) && l[i + 4] == LowerChar(s[i + 4]);
    hide Lower;
    forall k | 0 <= k < 5 && IsHowdy(s, i) ensures "howdy"[k] == l[i + k] {
      assert k == 0 || k == 1 || k == 2 || k == 3 || k == 4;
    }
  }

  lemma NamesHowdyExactly(s: string)
    ensures Contains(Lower(s), "howdy") <==> NamesHowdy(s)
  {
    hide Lower, At, IsHowdy;
    forall i: nat | i + 5 <= |s| ensures At(Lower(s), i, "howdy") <==> IsHowdy(s, i) {
      HowdyInLower(s, i);
    }
    forall i: nat | i <= |s| < i + 5 ensures !At(Lower(s), i, "howdy") {
      TooShort(Lower(s), i);
    }
  }

  lemma TooShort(s: string, i: nat)
    requires |s| < i + 5
    ensures !At(s, i, "howdy")
  {
  }

  /** Howdy is not named within the first word. */
  lemma HowdyBehindAuth(rest: string)
    ensures NamesHowdy("auth " + rest) <==> NamesHowdy(rest)
  {
    var t := "auth " + rest;
    assert t[0] == 'a' && t[1] == 'u' && t[2] == 't' && t[3] == 'h' && t[4] == ' ';
    assert forall i :: 0 <= i < |rest| ==> t[i + 5] == rest[i];
    forall i: nat | i + 5 <= |rest| ensures IsHowdy(rest, i) <==> IsHowdy(t, i + 5) {
    }
    forall i: nat | i + 5 <= |t| && IsHowdy(t, i) ensures i >= 5 {
    }
    hide IsHowdy;
    if NamesHowdy(t) {
      var i: nat :| i + 5 <= |t| && IsHowdy(t, i);
      assert IsHowdy(rest, i - 5);
    }
  }

  /** The test of the rewriter, in characters. */
  lemma DirectExactly(line: string)
    ensures Direct(line) <==> HowdyLine(line)
  {
    var t := Trim(line);
    hide Trim, NamesHowdy, Contains, Lower;
    NamesHowdyExactly(t);
    if StartsWith(t, "auth ") {
      var rest := t[5..];
      assert t == "auth " + rest && t[0] == 'a';
      HowdyBehindAuth(rest);
    }
    forall rest | t == "auth " + rest ensures StartsWith(t, "auth ") && rest == t[5..] {
    }
  }

  lemma ContainsExactly(s: string, p: string)
    ensures Contains(s, p) <==> exists a, b :: s == a + p + b
  {
    if Contains(s, p) {
      var i: nat :| i <= |s| && At(s, i, p);
      assert s[i..i + |p|] == p;
      assert s == s[..i] + p + s[i + |p|..];
    }
    forall a, b | s == a + p + b ensures Contains(s, p) {
      assert At(s, |a|, p);
    }
  }

  /** The guard of enable: `pam_irauth.so` somewhere in the file, comments included. */
  lemma HasIrauthExactly(ls: seq<string>)
    ensures HasIrauth(ls) <==> exists i, a, b :: 0 <= i < |ls| && ls[i] == a + "pam_irauth.so" + b
  {
    hide Contains;
    forall i | 0 <= i < |ls| ensures MentionsIrauth(ls[i]) <==> exists a, b :: ls[i] == a + "pam_irauth.so" + b {
      ContainsExactly(ls[i], "pam_irauth.so");
    }
  }

  ghost predicate Blank(s: string) {
    forall i :: 0 <= i < |s| ==> IsWhitespace(s[i])
  }

  lemma {:induction false} TrimStartDrops(line: string)
    ensures exists blanks :: Blank(blanks) && line == blanks + TrimStart(line)
  {
    if line != "" && IsWhitespace(line[0]) {
      TrimStartDrops(line[1..]);
      var blanks :| Blank(blanks) && line[1..] == blanks + TrimStart(line[1..]);
      assert Blank([line[0]] + blanks) && line == ([line[0]] + blanks) + TrimStart(line);
    } else {
      assert Blank("") && line == "" + TrimStart(line);
    }
  }

  lemma {:induction false} TrimStartStops(blanks: string, rest: string)
    requires Blank(blanks) && rest != "" && !IsWhitespace(rest[0])
    ensures TrimStart(blanks + rest) == rest
  {
    if blanks == "" {
      assert blanks + rest == rest;
    } else {
      assert (blanks + rest)[1..] == blanks[1..] + rest;
      TrimStartStops(blanks[1..], rest);
    }
  }

  /** A header line: `#%PAM` behind nothing but white space. */
  lemma HeaderExactly(line: string)
    ensures Header(line) <==> exists blanks, rest :: Blank(blanks) && line == blanks + "#%PAM" + rest
  {
    hide TrimStart, Blank;
    TrimStartDrops(line);
    var t := TrimStart(line);
    if Header(line) {
      var blanks :| Blank(blanks) && line == blanks + t;
      assert t == "#%PAM" + t[5..];
      assert line == blanks + "#%PAM" + t[5..];
    }
    forall blanks, rest | Blank(blanks) && line == blanks + "#%PAM" + rest ensures Header(line) {
      assert line == blanks + ("#%PAM" + rest) && ("#%PAM" + rest)[0] == '#';
      TrimStartStops(blanks, "#%PAM" + rest);
    }
  }

  // ---------------------------------------------------------------- rewriting

  const DISABLED := "# IRAuth disabled" + " direct Howdy PAM" + " entry to enforce" + " strict camera policy:"

  /** The rewriter, line by line: no Howdy line is left; each one has become its own comment behind a
      marker, in its place; every other line stands there as it was; and besides there are only the
      markers and, if any was found, one line that calls pam_irauth. */
  lemma RewritesHowdyLines(ls: seq<string>)
    ensures var out, at := RewriteLines(ls, false), Sources(ls, false);
            && (forall i :: 0 <= i < |out| ==> !HowdyLine(out[i]))
            && |at| == |ls| && (forall i, j :: 0 <= i < j < |at| ==> at[i] < at[j])
            && (forall i :: 0 <= i < |ls| && HowdyLine(ls[i]) ==>
                  0 < at[i] < |out| && out[at[i] - 1] == DISABLED && out[at[i]] == "# " + ls[i])
            && (forall i :: 0 <= i < |ls| && !HowdyLine(ls[i]) ==> at[i] < |out| && out[at[i]] == ls[i])
            && (forall k :: 0 <= k < |out| && k !in at ==>
                  out[k] == DISABLED || out[k] == "auth sufficient " + "pam_irauth.so" + " reason=system")
  {
    hide HowdyLine, Direct, MARKER, DISABLED, IRAUTH_LINE, IRAUTH_MODULE;
    forall l ensures Direct(l) <==> HowdyLine(l) {
      DirectExactly(l);
    }
    TextsAre();
    RewriteLosesNothing(ls, false);
    RewriteLeavesNoDirect(ls, false);
    var out, at := RewriteLines(ls, false), Sources(ls, false);
    hide RewriteLines, Sources;
    forall i | 0 <= i < |ls| ensures Carried(ls[i], out, at[i]) {
    }
  }

  lemma TextsAre()
    ensures MARKER == DISABLED && IRAUTH_LINE == "auth sufficient " + "pam_irauth.so" + " reason=system"
    ensures STANZA == ["# IRAuth begin", IRAUTH_LINE, "# IRAuth end"]
  {
  }

  /** And it says that it found something exactly if there is such a line. */
  lemma FindsHowdyLines(ls: seq<string>)
    ensures HasDirect(ls) <==> exists i :: 0 <= i < |ls| && HowdyLine(ls[i])
  {
    hide HowdyLine, Direct;
    forall l ensures Direct(l) <==> HowdyLine(l) {
      DirectExactly(l);
    }
  }

  // ---------------------------------------------------------------- enable and disable

  /** Enabling puts three lines behind the first header line, or in front when there is none. */
  lemma {:induction false} InsertsExactly(ls: seq<string>, k: nat)
    requires k <= |ls| && (forall i :: 0 <= i < k ==> !Header(ls[i])) && (k < |ls| ==> Header(ls[k]))
    ensures var stanza := ["# IRAuth begin", "auth sufficient " + "pam_irauth.so" + " reason=system", "# IRAuth end"];
            EnableLines(ls) == if k < |ls| then ls[..k + 1] + stanza + ls[k + 1..] else stanza + ls
  {
    TextsAre();
    hide Header, STANZA, IRAUTH_LINE;
    if k < |ls| {
      InsertsBehind(ls, k);
    }
  }

  lemma {:induction false} InsertsBehind(ls: seq<string>, k: nat)
    requires k < |ls| && (forall i :: 0 <= i < k ==> !Header(ls[i])) && Header(ls[k])
    ensures InsertAfterHeader(ls) == ls[..k + 1] + STANZA + ls[k + 1..]
  {
    hide Header, STANZA;
    if k > 0 {
      assert ls[..k + 1] == [ls[0]] + ls[1..][..k] && ls[k + 1..] == ls[1..][k..];
      InsertsBehind(ls[1..], k - 1);
    } else {
      assert ls[..1] == [ls[0]];
    }
  }

  predicate Begins(line: string) {
    Trim(line) == "# IRAuth begin"
  }

  predicate Ends(line: string) {
    Trim(line) == "# IRAuth end"
  }

  /** Without a delimiter nothing is taken out. */
  lemma {:induction false} StripsNothing(ls: seq<string>)
    requires forall i :: 0 <= i < |ls| ==> !Begins(ls[i]) && !Ends(ls[i])
    ensures StripLines(ls, false) == ls
  {
    hide Trim;
    if ls != [] {
      assert ls == [ls[0]] + ls[1..];
      StripsNothing(ls[1..]);
    }
  }

  /** From the first delimiter line on: an end alone goes; a beginning takes everything with it up to
      the next end, or to the end of the file. */
  lemma StripsExactly(before: seq<string>, line: string, inside: seq<string>, after: seq<string>)
    requires forall i :: 0 <= i < |before| ==> !Begins(before[i]) && !Ends(before[i])
    requires Begins(line) && forall i :: 0 <= i < |inside| ==> !Ends(inside[i])
    requires after != [] ==> Ends(after[0])
    ensures StripLines(before + ([line] + (inside + after)), false)
         == before + if after == [] then [] else StripLines(after[1..], false)
  {
    hide Trim;
    StripsAhead(before, [line] + (inside + after));
    assert ([line] + (inside + after))[1..] == inside + after;
    SkipsInside(inside, after);
    assert "# IRAuth begin"[9] != "# IRAuth end"[9];
  }

  lemma StripsLoneEnd(before: seq<string>, line: string, after: seq<string>)
    requires forall i :: 0 <= i < |before| ==> !Begins(before[i]) && !Ends(before[i])
    requires Ends(line)
    ensures StripLines(before + ([line] + after), false) == before + StripLines(after, false)
  {
    hide Trim;
    StripsAhead(before, [line] + after);
    assert ([line] + after)[1..] == after;
    assert "# IRAuth begin"[9] != "# IRAuth end"[9];
  }

  lemma {:induction false} StripsAhead(before: seq<string>, rest: seq<string>)
    requires forall i :: 0 <= i < |before| ==> !Begins(before[i]) && !Ends(before[i])
    ensures StripLines(before + rest, false) == before + StripLines(rest, false)
  {
    hide Trim;
    if before == [] {
      assert before + rest == rest;
    } else {
      assert (before + rest)[1..] == before[1..] + rest && before == [before[0]] + before[1..];
      StripsAhead(before[1..], rest);
    }
  }

  lemma {:induction false} SkipsInside(inside: seq<string>, after: seq<string>)
    requires forall i :: 0 <= i < |inside| ==> !Ends(inside[i])
    requires after != [] ==> Ends(after[0])
    ensures StripLines(inside + after, true) == if after == [] then [] else StripLines(after[1..], false)
  {
    hide Trim;
    if inside == [] {
      assert inside + after == after;
      assert "# IRAuth begin"[9] != "# IRAuth end"[9];
    } else {
      assert (inside + after)[1..] == inside[1..] + after;
      SkipsInside(inside[1..], after);
    }
  }
}
