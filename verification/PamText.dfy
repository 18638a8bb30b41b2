// The three PAM text transformations of irauthctl: routing direct Howdy entries through
// pam_irauth, inserting the managed stanza, and stripping it again. Each loop of the program is a
// method proved against a function on lines; the laws are lemmas about those functions.
module PamText {
  import opened Text

  // The longer texts are spelled in pieces, which the solver reads far faster than one literal.
  const MARKER := "# IRAuth disabled" + " direct Howdy PAM" + " entry to enforce" + " strict camera policy:"
  const IRAUTH_MODULE := "pam_irauth.so"
  const IRAUTH_LINE := "auth sufficient " + IRAUTH_MODULE + " reason=system"
  const BEGIN := "# IRAuth begin"
  const END := "# IRAuth end"
  const STANZA := [BEGIN, IRAUTH_LINE, END]

  /** The test for an active entry that calls Howdy directly. */
  predicate Direct(line: string) {
    var t := Trim(line);
    !StartsWith(t, "#") && StartsWith(t, "auth ") && Contains(Lower(t), "howdy")
  }

  predicate Header(line: string) {
    StartsWith(TrimStart(line), "#%PAM")
  }

  predicate MentionsIrauth(line: string) {
    Contains(line, IRAUTH_MODULE)
  }

  predicate HasIrauth(ls: seq<string>) {
    exists i :: 0 <= i < |ls| && MentionsIrauth(ls[i])
  }

  predicate HasDirect(ls: seq<string>) {
    exists i :: 0 <= i < |ls| && Direct(ls[i])
  }

  predicate HasHeader(ls: seq<string>) {
    exists i :: 0 <= i < |ls| && Header(ls[i])
  }

  // ---------------------------------------------------------------- rewriting direct entries

  /** What one direct entry becomes. */
  function Routed(line: string, inserted: bool): seq<string> {
    [MARKER, "# " + line] + if inserted then [] else [IRAUTH_LINE]
  }

  function RewriteLines(ls: seq<string>, inserted: bool): seq<string> {
    if ls == [] then []
    else if Direct(ls[0]) then Routed(ls[0], inserted) + RewriteLines(ls[1..], true)
    else [ls[0]] + RewriteLines(ls[1..], inserted)
  }

  function RewriteText(text: string): string {
    Unlines(RewriteLines(Lines(text), false))
  }

  /** One more line can be moved from the work left to the text written so far. */
  lemma UnlinesStep(out: string, now: seq<string>, rest: seq<string>)
    ensures out + Unlines(now + rest) == (out + Unlines(now)) + Unlines(rest)
  {
    UnlinesConcat(now, rest);
  }

  lemma UnlinesFew(a: string, b: string, c: string)
    ensures Unlines([a]) == a + "\n"
    ensures Unlines([a, b]) == a + "\n" + b + "\n"
    ensures Unlines([a, b, c]) == a + "\n" + b + "\n" + c + "\n"
  {
    assert [a][1..] == [] && [a, b][1..] == [b] && [a, b, c][1..] == [b, c];
    assert Unlines([b]) == b + "\n" && Unlines([c]) == c + "\n" by {
      assert [b][1..] == [] && [c][1..] == [];
    }
    assert Unlines([b, c]) == b + "\n" + (c + "\n") by {
      assert [b, c][1..] == [c];
    }
  }

  lemma RewriteNext(ls: seq<string>, i: nat, inserted: bool)
    requires i < |ls|
    ensures RewriteLines(ls[i..], inserted)
         == (if Direct(ls[i]) then Routed(ls[i], inserted) else [ls[i]])
            + RewriteLines(ls[i + 1..], inserted || Direct(ls[i]))
  {
  }

  lemma NothingRewritten()
    ensures forall inserted: bool :: RewriteLines([], inserted) == []
    ensures Unlines([]) == ""
  {
  }

  method RewriteDirectHowdyPam(content: string) returns (out: string, found: bool)
    ensures out == RewriteText(content)
    ensures found <==> HasDirect(Lines(content))
  {
    hide MARKER, IRAUTH_LINE, IRAUTH_MODULE, BEGIN, END, Direct, Trim, Contains, Lines, RewriteLines, Unlines;
    var ls := Lines(content);
    NothingRewritten();
    found := false;
    var inserted := false;
    out := "";
    for i := 0 to |ls|
      invariant found == inserted == HasDirect(ls[..i])
      invariant out + Unlines(RewriteLines(ls[i..], inserted)) == RewriteText(content)
    {
      var line := ls[i];
      ghost var before := out;
      ghost var had := inserted;
      assert ls[..i + 1] == ls[..i] + [line];
      RewriteNext(ls, i, inserted);
      if Direct(line) {
        found := true;
        out := out + MARKER + "\n" + "# " + line + "\n";
        if !inserted {
          out := out + IRAUTH_LINE + "\n";
          inserted := true;
        }
        UnlinesFew(MARKER, "# " + line, IRAUTH_LINE);
        assert Routed(line, had) == if had then [MARKER, "# " + line] else [MARKER, "# " + line, IRAUTH_LINE];
        assert out == before + Unlines(Routed(line, had));
        UnlinesStep(before, Routed(line, had), RewriteLines(ls[i + 1..], true));
      } else {
        out := out + line + "\n";
        UnlinesFew(line, "", "");
        assert out == before + Unlines([line]);
        UnlinesStep(before, [line], RewriteLines(ls[i + 1..], inserted));
      }
    }
    assert ls[|ls|..] == [] && ls[..|ls|] == ls;
  }

  // ---------------------------------------------------------------- inserting the stanza

  function InsertAfterHeader(ls: seq<string>): seq<string> {
    if ls == [] then []
    else if Header(ls[0]) then [ls[0]] + STANZA + ls[1..]
    else [ls[0]] + InsertAfterHeader(ls[1..])
  }

  function EnableLines(ls: seq<string>): seq<string> {
    if HasHeader(ls) then InsertAfterHeader(ls) else STANZA + ls
  }

  function EnableText(text: string): string {
    Unlines(EnableLines(Lines(text)))
  }

  lemma HeaderSnoc(a: seq<string>, line: string)
    ensures HasHeader(a + [line]) <==> HasHeader(a) || Header(line)
  {
    hide Header;
    assert (a + [line])[|a|] == line;
    assert forall i :: 0 <= i < |a| ==> (a + [line])[i] == a[i];
  }

  /** One round of the insertion loop: what is written plus what is still due stays the same. */
  lemma InsertStep(out: string, line: string, rest: seq<string>, inserted: bool)
    ensures inserted ==> out + Unlines([line] + rest) == (out + Unlines([line])) + Unlines(rest)
    ensures !inserted && Header(line) ==>
              out + Unlines(InsertAfterHeader([line] + rest))
              == (out + Unlines([line]) + Unlines(STANZA)) + Unlines(rest)
    ensures !inserted && !Header(line) ==>
              out + Unlines(InsertAfterHeader([line] + rest))
              == (out + Unlines([line])) + Unlines(InsertAfterHeader(rest))
  {
    hide Header, STANZA, Unlines;
    assert ([line] + rest)[1..] == rest;
    UnlinesStep(out, [line], rest);
    UnlinesStep(out, [line], InsertAfterHeader(rest));
    UnlinesStep(out, [line] + STANZA, rest);
    UnlinesStep(out, [line], STANZA);
  }

  /** The insertion loop of pam_enable, run on a file without a pam_irauth line. */
  method InsertStanza(content: string) returns (out: string)
    ensures out == EnableText(content)
  {
    hide Header, IRAUTH_LINE, BEGIN, END, Lines;
    var ls := Lines(content);
    var stanza := BEGIN + "\n" + IRAUTH_LINE + "\n" + END + "\n";
    UnlinesFew(BEGIN, IRAUTH_LINE, END);
    assert stanza == Unlines(STANZA);
    assert Unlines([]) == "" && InsertAfterHeader([]) == [] && !HasHeader([]);
    hide STANZA, Unlines, InsertAfterHeader, HasHeader;
    out := "";
    var inserted := false;
    assert ls[..0] == [] && ls[0..] == ls;
    for i := 0 to |ls|
      invariant inserted == HasHeader(ls[..i])
      invariant !inserted ==> out == Unlines(ls[..i])
      invariant out + Unlines(if inserted then ls[i..] else InsertAfterHeader(ls[i..]))
             == Unlines(InsertAfterHeader(ls))
    {
      var line := ls[i];
      assert ls[..i + 1] == ls[..i] + [line];
      assert ls[i..] == [line] + ls[i + 1..];
      HeaderSnoc(ls[..i], line);
      InsertStep(out, line, ls[i + 1..], inserted);
      UnlinesFew(line, "", "");
      UnlinesConcat(ls[..i], [line]);
      assert out + line + "\n" == out + Unlines([line]);
      out := out + line + "\n";
      if !inserted && Header(line) {
        out := out + stanza;
        inserted := true;
      }
    }
    assert ls[|ls|..] == [] && ls[..|ls|] == ls;
    if !inserted {
      UnlinesConcat(STANZA, ls);
      out := stanza + out;
    }
  }

  // ---------------------------------------------------------------- stripping the stanza

  function StripLines(ls: seq<string>, skip: bool): seq<string> {
    if ls == [] then []
    else if Trim(ls[0]) == BEGIN then StripLines(ls[1..], true)
    else if Trim(ls[0]) == END then StripLines(ls[1..], false)
    else (if skip then [] else [ls[0]]) + StripLines(ls[1..], skip)
  }

  function StripText(text: string): string {
    Unlines(StripLines(Lines(text), false))
  }

  /** The loop of pam_disable for a service that has no backup. */
  method StripStanza(content: string) returns (out: string)
    ensures out == StripText(content)
  {
    hide MARKER, IRAUTH_LINE, IRAUTH_MODULE, BEGIN, END, Trim, Find, StripCr;
    var ls := Lines(content);
    out := "";
    var skip := false;
    for i := 0 to |ls|
      invariant out + Unlines(StripLines(ls[i..], skip)) == StripText(content)
    {
      var line := ls[i];
      assert ls[i..][1..] == ls[i + 1..];
      if Trim(line) == BEGIN {
        skip := true;
        continue;
      }
      if Trim(line) == END {
        skip := false;
        continue;
      }
      if !skip {
        UnlinesFew(line, "", "");
        UnlinesStep(out, [line], StripLines(ls[i + 1..], skip));
        out := out + line + "\n";
      } else {
        assert [] + StripLines(ls[i + 1..], skip) == StripLines(ls[i + 1..], skip);
      }
    }
    assert ls[|ls|..] == [];
  }

  // ---------------------------------------------------------------- facts about single lines

  lemma MarkerShape()
    ensures MARKER != "" && MARKER[0] == '#' && |MARKER| > 60
    ensures '\n' !in MARKER && '\r' !in MARKER
  {
  }

  /** A line that starts with `#` is not direct. */
  lemma CommentNotDirect(line: string)
    requires line != "" && line[0] == '#'
    ensures !Direct(line)
  {
    TrimKeepsHead(line);
  }

  lemma IrauthLineShape()
    ensures |IRAUTH_LINE| == 43 && IRAUTH_LINE[0] == 'a' && IRAUTH_LINE[42] == 'm'
    ensures 'w' !in IRAUTH_LINE && 'W' !in IRAUTH_LINE && '\n' !in IRAUTH_LINE && '\r' !in IRAUTH_LINE
  {
  }

  lemma IrauthLineTrimmed()
    ensures Trim(IRAUTH_LINE) == IRAUTH_LINE && TrimStart(IRAUTH_LINE) == IRAUTH_LINE
  {
  }

  /** A line without a `w` does not name Howdy. */
  lemma NotDirectWithoutW(line: string)
    requires 'w' !in line && 'W' !in line
    ensures !Direct(line)
  {
    hide Trim, Contains, StartsWith;
    var t := Trim(line);
    TrimIsPart(line);
    forall i | 0 <= i < |t| ensures Lower(t)[i] != 'w' {
      assert t[i] in line;
    }
    assert "howdy"[2] == 'w';
    assert 'w' in "howdy";
    ContainsNeeds(Lower(t), "howdy", 'w');
  }

  /** The inserted line is not itself direct. */
  lemma IrauthLineNotDirect()
    ensures !Direct(IRAUTH_LINE)
  {
    IrauthLineShape();
    hide IRAUTH_LINE;
    NotDirectWithoutW(IRAUTH_LINE);
  }

  lemma IrauthLineMentionsIrauth()
    ensures MentionsIrauth(IRAUTH_LINE)
  {
    assert At(IRAUTH_LINE, 16, IRAUTH_MODULE);
  }

  lemma IrauthLineFacts()
    ensures !Direct(IRAUTH_LINE) && MentionsIrauth(IRAUTH_LINE)
    ensures Trim(IRAUTH_LINE) == IRAUTH_LINE && !StartsWith(IRAUTH_LINE, "#")
  {
    hide IRAUTH_LINE, Direct, MentionsIrauth, Trim;
    IrauthLineShape();
    IrauthLineTrimmed();
    IrauthLineNotDirect();
    IrauthLineMentionsIrauth();
  }

  lemma DirectIgnoresCr(line: string)
    ensures Direct(StripCr(line)) == Direct(line)
  {
    TrimOfStripCr(line);
  }

  lemma SplitHead(ls: seq<string>)
    requires ls != []
    ensures HasDirect(ls) <==> Direct(ls[0]) || HasDirect(ls[1..])
    ensures HasIrauth(ls) <==> MentionsIrauth(ls[0]) || HasIrauth(ls[1..])
    ensures HasHeader(ls) <==> Header(ls[0]) || HasHeader(ls[1..])
  {
    assert forall i :: 0 <= i < |ls[1..]| ==> ls[1..][i] == ls[i + 1];
    assert forall i :: 0 < i < |ls| ==> ls[i] == ls[1..][i - 1];
  }

  lemma SplitConcat(a: seq<string>, b: seq<string>)
    ensures HasDirect(a + b) <==> HasDirect(a) || HasDirect(b)
    ensures HasIrauth(a + b) <==> HasIrauth(a) || HasIrauth(b)
  {
    assert forall i :: 0 <= i < |a| ==> (a + b)[i] == a[i];
    assert forall i :: 0 <= i < |b| ==> (a + b)[|a| + i] == b[i];
    assert forall i :: |a| <= i < |a + b| ==> (a + b)[i] == b[i - |a|];
  }

  // ---------------------------------------------------------------- laws of the rewriter

  lemma RoutedHasNoDirect(line: string, inserted: bool)
    ensures !HasDirect(Routed(line, inserted))
  {
    hide MARKER, IRAUTH_LINE, Direct;
    MarkerShape();
    CommentNotDirect(MARKER);
    CommentNotDirect("# " + line);
    IrauthLineNotDirect();
  }

  /** No line of the rewritten text meets the direct-Howdy test. */
  lemma {:induction false} RewriteLeavesNoDirect(ls: seq<string>, inserted: bool)
    ensures !HasDirect(RewriteLines(ls, inserted))
  {
    if ls != [] {
      if Direct(ls[0]) {
        RewriteLeavesNoDirect(ls[1..], true);
        RoutedHasNoDirect(ls[0], inserted);
        SplitConcat(Routed(ls[0], inserted), RewriteLines(ls[1..], true));
      } else {
        RewriteLeavesNoDirect(ls[1..], inserted);
        SplitConcat([ls[0]], RewriteLines(ls[1..], inserted));
      }
    }
  }

  lemma {:induction false} RewriteWithoutDirect(ls: seq<string>, inserted: bool)
    requires !HasDirect(ls)
    ensures RewriteLines(ls, inserted) == ls
  {
    if ls != [] {
      SplitHead(ls);
      RewriteWithoutDirect(ls[1..], inserted);
    }
  }

  lemma RoutedHasIrauth(line: string)
    ensures HasIrauth(Routed(line, false))
  {
    IrauthLineFacts();
    hide MentionsIrauth, MARKER, IRAUTH_LINE;
    assert Routed(line, false)[2] == IRAUTH_LINE;
  }

  lemma RewriteAddsIrauth(ls: seq<string>)
    requires HasDirect(ls)
    ensures HasIrauth(RewriteLines(ls, false))
  {
    assert ls != [];
    hide Direct, HasDirect, HasIrauth, Routed;
    SplitHead(ls);
    if Direct(ls[0]) {
      RoutedHasIrauth(ls[0]);
      SplitConcat(Routed(ls[0], false), RewriteLines(ls[1..], true));
    } else {
      RewriteAddsIrauth(ls[1..]);
      SplitConcat([ls[0]], RewriteLines(ls[1..], false));
    }
  }

  lemma {:induction false} RewriteNoNewlines(ls: seq<string>, inserted: bool)
    requires NoNewlines(ls)
    ensures NoNewlines(RewriteLines(ls, inserted))
  {
    hide Direct, Routed;
    if ls != [] {
      assert ls[0] in ls;
      RoutedNoNewlines(ls[0], inserted);
      RewriteNoNewlines(ls[1..], true);
      RewriteNoNewlines(ls[1..], inserted);
    }
  }

  lemma RoutedNoNewlines(line: string, inserted: bool)
    requires '\n' !in line
    ensures NoNewlines(Routed(line, inserted))
  {
    MarkerShape();
    IrauthLineShape();
    hide MARKER, IRAUTH_LINE;
  }

  lemma DirectInStripCrs(ls: seq<string>)
    ensures HasDirect(StripCrs(ls)) <==> HasDirect(ls)
  {
    forall i | 0 <= i < |ls| ensures Direct(StripCrs(ls)[i]) == Direct(ls[i]) {
      DirectIgnoresCr(ls[i]);
    }
  }

  /** A second rewrite finds nothing, and changes nothing exactly when no line of the file ends in
      a carriage return that is still there after the one before the newline was dropped. */
  lemma RewriteTwice(text: string)
    ensures !HasDirect(Lines(RewriteText(text)))
    ensures RewriteText(RewriteText(text)) == RewriteText(text) <==> CrFree(Lines(text))
  {
    var out := RewriteLines(Lines(text), false);
    LinesHaveNoNewlines(text);
    RewriteNoNewlines(Lines(text), false);
    LinesOfUnlines(out);
    RewriteLeavesNoDirect(Lines(text), false);
    DirectInStripCrs(out);
    RewriteWithoutDirect(StripCrs(out), false);
    StripCrsShorter(out);
    CrFreeRewritten(Lines(text), false);
    if CrFree(out) {
      CrFreeLines(out);
    }
  }

  /** The rewriter neither adds nor hides carriage returns. */
  lemma {:induction false} CrFreeRewritten(ls: seq<string>, inserted: bool)
    ensures CrFree(RewriteLines(ls, inserted)) <==> CrFree(ls)
  {
    hide Direct, Routed;
    if ls != [] {
      hide CrFree;
      assert [ls[0]] + ls[1..] == ls;
      CrFreeRouted(ls[0], inserted);
      CrFreeRewritten(ls[1..], inserted || Direct(ls[0]));
      CrFreeConcat([ls[0]], ls[1..]);
      CrFreeConcat([ls[0]], RewriteLines(ls[1..], inserted));
      CrFreeConcat(Routed(ls[0], inserted), RewriteLines(ls[1..], true));
    }
  }

  lemma CrFreeRouted(line: string, inserted: bool)
    ensures CrFree(Routed(line, inserted)) <==> CrFree([line])
  {
    MarkerShape();
    IrauthLineShape();
    hide MARKER, IRAUTH_LINE;
    var r := Routed(line, inserted);
    assert StripCr("# " + line) == "# " + line <==> StripCr(line) == line;
    assert r[0] == MARKER && r[1] == "# " + line && (|r| == 3 ==> r[2] == IRAUTH_LINE);
    assert StripCr(MARKER) == MARKER && StripCr(IRAUTH_LINE) == IRAUTH_LINE;
    assert CrFree(r) ==> StripCr(r[1]) == r[1];
    assert CrFree([line]) <==> StripCr([line][0]) == [line][0];
  }

  lemma CrFreeConcat(a: seq<string>, b: seq<string>)
    ensures CrFree(a + b) <==> CrFree(a) && CrFree(b)
  {
    assert forall i :: 0 <= i < |a| ==> (a + b)[i] == a[i];
    assert forall i :: 0 <= i < |b| ==> (a + b)[|a| + i] == b[i];
    assert forall i :: |a| <= i < |a + b| ==> (a + b)[i] == b[i - |a|];
  }

  /** A text without `\r` meets the condition of RewriteTwice. */
  lemma {:induction false} CrFreeText(text: string)
    requires '\r' !in text
    ensures CrFree(Lines(text))
  {
    LinesWithoutCr(text);
    assert forall i :: 0 <= i < |Lines(text)| ==> Lines(text)[i] in Lines(text);
  }

  lemma {:induction false} LinesWithoutCr(s: string)
    requires '\r' !in s
    ensures forall l :: l in Lines(s) ==> '\r' !in l
  {
    if s != "" {
      var i := Find(s, '\n');
      if i < |s| {
        LinesWithoutCr(s[i + 1..]);
      }
    }
  }

  /** The condition can fail: the first rewrite of a line that ends in two carriage returns keeps
      one of them, and the second takes it away. */
  lemma RewriteTwiceCanDiffer()
    ensures RewriteText("x\r\r\n") == "x\r\n" && RewriteText("x\r\n") == "x\n"
  {
    OneLineRewritten("x\r\r\n", "x\r");
    OneLineRewritten("x\r\n", "x");
  }

  lemma OneLineRewritten(text: string, line: string)
    requires (text == "x\r\r\n" && line == "x\r") || (text == "x\r\n" && line == "x")
    ensures RewriteText(text) == line + "\n"
  {
    FindUnique(text, '\n', |text| - 1);
    assert text[..|text| - 1][..|line|] == line && text[|text|..] == "";
    assert Lines(text) == [line];
    assert !HasDirect([line]) by {
      TrimKeepsHead(line);
      assert Trim(line)[0] != "auth "[0];
    }
    hide Lines, HasDirect;
    RewriteWithoutDirect([line], false);
    UnlinesFew(line, "", "");
  }

  // Conservation: where each line of the original is in the rewritten text.

  function Shifted(at: seq<nat>, k: nat): seq<nat> {
    seq(|at|, i requires 0 <= i < |at| => at[i] + k)
  }

  /** The place of each original line, or of the comment it has become, in the rewritten lines. */
  function Sources(ls: seq<string>, inserted: bool): seq<nat> {
    if ls == [] then []
    else if Direct(ls[0]) then [1] + Shifted(Sources(ls[1..], true), |Routed(ls[0], inserted)|)
    else [0] + Shifted(Sources(ls[1..], inserted), 1)
  }

  ghost predicate Rising(at: seq<nat>, below: nat) {
    (forall i, j :: 0 <= i < j < |at| ==> at[i] < at[j]) && (forall i :: 0 <= i < |at| ==> at[i] < below)
  }

  /** The line is at `p`, as itself or as its own comment behind a marker. */
  predicate Carried(line: string, out: seq<string>, p: nat) {
    && p < |out|
    && if Direct(line) then p > 0 && out[p - 1] == MARKER && out[p] == "# " + line else out[p] == line
  }

  ghost predicate Carries(ls: seq<string>, out: seq<string>, at: seq<nat>) {
    |at| == |ls| && forall i :: 0 <= i < |at| ==> Carried(ls[i], out, at[i])
  }

  /** Everything that is at no such place is a marker or the inserted line. */
  ghost predicate AddsOnly(out: seq<string>, at: seq<nat>) {
    forall k :: 0 <= k < |out| && k !in at ==> out[k] == MARKER || out[k] == IRAUTH_LINE
  }

  /** Nothing is lost, reordered or duplicated: every removed entry survives as its own comment,
      every other line survives as it was, and only markers and the inserted line are added. */
  lemma {:induction false} RewriteLosesNothing(ls: seq<string>, inserted: bool)
    ensures var out, at := RewriteLines(ls, inserted), Sources(ls, inserted);
            && Rising(at, |out|) && Carries(ls, out, at) && AddsOnly(out, at)
            && |out| == |ls| + |DirectLines(ls)| + if !inserted && DirectLines(ls) != [] then 1 else 0
  {
    hide MARKER, IRAUTH_LINE, Direct, AddsOnly, Routed, Carries, Rising;
    if ls == [] {
      AddsNothing();
    } else {
      var d := Direct(ls[0]);
      var out, at := RewriteLines(ls[1..], inserted || d), Sources(ls[1..], inserted || d);
      RewriteLosesNothing(ls[1..], inserted || d);
      RoutedShape(ls[0], inserted);
      var now := if d then Routed(ls[0], inserted) else [ls[0]];
      AddsOnlyMore(now, out, if d then 1 else 0, at);
      RisingMore(|now|, |out|, if d then 1 else 0, at);
      CarriesMore(ls, now, out, at);
    }
  }

  lemma AddsNothing()
    ensures Rising([], 0) && Carries([], [], []) && AddsOnly([], [])
  {
  }

  lemma RoutedShape(line: string, inserted: bool)
    ensures var r := Routed(line, inserted);
            && |r| == (if inserted then 2 else 3) && r[0] == MARKER && r[1] == "# " + line
            && forall k :: 2 <= k < |r| ==> r[k] == IRAUTH_LINE
  {
    hide MARKER, IRAUTH_LINE;
  }

  lemma AddsOnlyMore(now: seq<string>, out: seq<string>, first: nat, at: seq<nat>)
    requires AddsOnly(out, at)
    requires forall k :: 0 <= k < |now| && k != first ==> now[k] == MARKER || now[k] == IRAUTH_LINE
    ensures AddsOnly(now + out, [first] + Shifted(at, |now|))
  {
    hide MARKER, IRAUTH_LINE;
    var more, to := now + out, [first] + Shifted(at, |now|);
    forall k | 0 <= k < |more| && k !in to ensures more[k] == MARKER || more[k] == IRAUTH_LINE {
      assert to[0] == first;
      if k >= |now| {
        forall i | 0 <= i < |at| ensures at[i] != k - |now| {
          assert to[i + 1] == at[i] + |now|;
        }
      }
    }
  }

  lemma RisingMore(now: nat, below: nat, first: nat, at: seq<nat>)
    requires Rising(at, below) && first < now
    ensures Rising([first] + Shifted(at, now), now + below)
  {
  }

  lemma CarriedMore(line: string, now: seq<string>, out: seq<string>, p: nat)
    requires Carried(line, out, p)
    ensures Carried(line, now + out, p + |now|)
  {
    hide MARKER, Direct;
  }

  lemma CarriesMore(ls: seq<string>, now: seq<string>, out: seq<string>, at: seq<nat>)
    requires ls != [] && Carries(ls[1..], out, at)
    requires Carried(ls[0], now, if Direct(ls[0]) then 1 else 0)
    ensures Carries(ls, now + out, [if Direct(ls[0]) then 1 else 0] + Shifted(at, |now|))
  {
    hide MARKER, Direct;
    var first := if Direct(ls[0]) then 1 else 0;
    var to := [first] + Shifted(at, |now|);
    forall i | 0 <= i < |to| ensures Carried(ls[i], now + out, to[i]) {
      if i > 0 {
        hide Carried;
        assert ls[i] == ls[1..][i - 1] && to[i] == at[i - 1] + |now|;
        CarriedMore(ls[i], now, out, at[i - 1]);
      }
    }
  }

  // The original lines can be read back out of the rewritten ones.

  /** Undoes the rewriter: the comment after a marker is a removed entry, and the line after the
      first such pair is the inserted one. */
  function Recover(out: seq<string>, inserted: bool): seq<string>
    decreases |out|
  {
    if out == [] then []
    else if out[0] == MARKER && |out| >= 2 && |out[1]| >= 2 then
      var k := if inserted || |out| == 2 then 2 else 3;
      [out[1][2..]] + Recover(out[k..], true)
    else [out[0]] + Recover(out[1..], inserted)
  }

  lemma RecoverRouted(line: string, inserted: bool, rest: seq<string>)
    ensures Recover(Routed(line, inserted) + rest, inserted) == [line] + Recover(rest, true)
  {
  }

  /** Unless it holds an old marker, the original can be read off the rewritten text alone. */
  lemma {:induction false} RecoverRewritten(ls: seq<string>, inserted: bool)
    requires MARKER !in ls
    ensures Recover(RewriteLines(ls, inserted), inserted) == ls
  {
    hide MARKER, IRAUTH_LINE, Direct, Routed;
    if ls != [] {
      if Direct(ls[0]) {
        RecoverRewritten(ls[1..], true);
        RecoverRouted(ls[0], inserted, RewriteLines(ls[1..], true));
      } else {
        RecoverRewritten(ls[1..], inserted);
        var out := RewriteLines(ls, inserted);
        assert out[0] == ls[0];
        assert out[1..] == RewriteLines(ls[1..], inserted);
      }
    }
  }

  function DirectLines(ls: seq<string>): seq<string> {
    if ls == [] then []
    else (if Direct(ls[0]) then [ls[0]] else []) + DirectLines(ls[1..])
  }

  /** Lines that name pam_irauth and are not comments. */
  function ActiveIrauth(ls: seq<string>): nat {
    if ls == [] then 0
    else (if MentionsIrauth(ls[0]) && !StartsWith(Trim(ls[0]), "#") then 1 else 0) + ActiveIrauth(ls[1..])
  }

  lemma {:induction false} ActiveIrauthConcat(a: seq<string>, b: seq<string>)
    ensures ActiveIrauth(a + b) == ActiveIrauth(a) + ActiveIrauth(b)
  {
    if a == [] {
      assert a + b == b;
    } else {
      assert (a + b)[1..] == a[1..] + b;
      ActiveIrauthConcat(a[1..], b);
    }
  }

  lemma CommentTrims(line: string)
    requires line != "" && line[0] == '#'
    ensures StartsWith(Trim(line), "#")
  {
    hide Trim;
    TrimKeepsHead(line);
  }

  lemma RoutedIrauth(line: string, inserted: bool)
    ensures ActiveIrauth(Routed(line, inserted)) == if inserted then 0 else 1
  {
    hide MARKER, IRAUTH_LINE, Trim, MentionsIrauth, StartsWith;
    MarkerShape();
    CommentTrims(MARKER);
    CommentTrims("# " + line);
    IrauthLineFacts();
    ActiveIrauthConcat([MARKER], ["# " + line]);
    ActiveIrauthConcat([MARKER, "# " + line], [IRAUTH_LINE]);
    assert Routed(line, false) == [MARKER, "# " + line] + [IRAUTH_LINE];
    assert Routed(line, true) == [MARKER] + ["# " + line] == [MARKER, "# " + line];
  }

  /** Exactly one active pam_irauth line is added, if and only if something was found. */
  lemma {:induction false} RewriteAddsOneIrauth(ls: seq<string>, inserted: bool)
    ensures ActiveIrauth(RewriteLines(ls, inserted))
         == ActiveIrauth(ls) - ActiveIrauth(DirectLines(ls))
            + if HasDirect(ls) && !inserted then 1 else 0
  {
    hide MARKER, IRAUTH_LINE, IRAUTH_MODULE, BEGIN, END, Direct, MentionsIrauth, Trim;
    if ls != [] {
      SplitHead(ls);
      assert ls == [ls[0]] + ls[1..];
      ActiveIrauthConcat([ls[0]], ls[1..]);
      if Direct(ls[0]) {
        RewriteAddsOneIrauth(ls[1..], true);
        RoutedIrauth(ls[0], inserted);
        ActiveIrauthConcat(Routed(ls[0], inserted), RewriteLines(ls[1..], true));
        ActiveIrauthConcat([ls[0]], DirectLines(ls[1..]));
      } else {
        RewriteAddsOneIrauth(ls[1..], inserted);
        ActiveIrauthConcat([ls[0]], RewriteLines(ls[1..], inserted));
        assert [] + DirectLines(ls[1..]) == DirectLines(ls[1..]);
      }
    }
  }

  // ---------------------------------------------------------------- laws of enable and strip

  lemma StanzaHasIrauth(before: seq<string>, after: seq<string>)
    ensures HasIrauth(before + STANZA + after)
  {
    hide BEGIN, IRAUTH_LINE, END, MentionsIrauth;
    IrauthLineFacts();
    assert (before + STANZA + after)[|before| + 1] == IRAUTH_LINE;
  }

  lemma {:induction false} InsertHasIrauth(ls: seq<string>)
    requires HasHeader(ls)
    ensures HasIrauth(InsertAfterHeader(ls))
  {
    hide Header, MentionsIrauth, STANZA, HasIrauth;
    SplitHead(ls);
    if Header(ls[0]) {
      StanzaHasIrauth([ls[0]], ls[1..]);
    } else {
      InsertHasIrauth(ls[1..]);
      SplitConcat([ls[0]], InsertAfterHeader(ls[1..]));
    }
  }

  lemma EnableHasIrauth(ls: seq<string>)
    ensures HasIrauth(EnableLines(ls))
  {
    hide STANZA, HasIrauth, HasHeader;
    if HasHeader(ls) {
      InsertHasIrauth(ls);
    } else {
      StanzaHasIrauth([], ls);
      assert [] + STANZA + ls == STANZA + ls;
    }
  }

  lemma IrauthInStripCrs(ls: seq<string>)
    ensures HasIrauth(StripCrs(ls)) <==> HasIrauth(ls)
  {
    forall i | 0 <= i < |ls| ensures MentionsIrauth(StripCrs(ls)[i]) == MentionsIrauth(ls[i]) {
      ContainsStripCr(ls[i], IRAUTH_MODULE);
    }
  }

  lemma StanzaNoNewlines()
    ensures NoNewlines(STANZA)
  {
  }

  lemma {:induction false} InsertNoNewlines(ls: seq<string>)
    requires NoNewlines(ls)
    ensures NoNewlines(InsertAfterHeader(ls))
  {
    hide STANZA, Header;
    StanzaNoNewlines();
    if ls != [] {
      assert ls[0] in ls;
      InsertNoNewlines(ls[1..]);
    }
  }

  lemma ReadEnabled(text: string)
    ensures NoNewlines(EnableLines(Lines(text)))
    ensures Lines(EnableText(text)) == StripCrs(EnableLines(Lines(text)))
  {
    hide STANZA, HasHeader, Lines;
    LinesHaveNoNewlines(text);
    InsertNoNewlines(Lines(text));
    StanzaNoNewlines();
    LinesOfUnlines(EnableLines(Lines(text)));
  }

  lemma ReadRewritten(text: string)
    ensures NoNewlines(RewriteLines(Lines(text), false))
    ensures Lines(RewriteText(text)) == StripCrs(RewriteLines(Lines(text), false))
  {
    LinesHaveNoNewlines(text);
    RewriteNoNewlines(Lines(text), false);
    LinesOfUnlines(RewriteLines(Lines(text), false));
  }

  /** After enabling, or after a rewrite that found something, enabling again does nothing. */
  lemma EnabledOnce(text: string)
    ensures HasIrauth(Lines(EnableText(text)))
    ensures HasDirect(Lines(text)) ==> HasIrauth(Lines(RewriteText(text)))
  {
    ReadEnabled(text);
    EnableHasIrauth(Lines(text));
    IrauthInStripCrs(EnableLines(Lines(text)));
    if HasDirect(Lines(text)) {
      ReadRewritten(text);
      RewriteAddsIrauth(Lines(text));
      IrauthInStripCrs(RewriteLines(Lines(text), false));
    }
  }

  ghost predicate NoDelimiters(ls: seq<string>) {
    forall i :: 0 <= i < |ls| ==> Trim(ls[i]) != BEGIN && Trim(ls[i]) != END
  }

  lemma {:induction false} StripNothing(ls: seq<string>)
    requires NoDelimiters(ls)
    ensures StripLines(ls, false) == ls
  {
    hide MARKER, IRAUTH_LINE, IRAUTH_MODULE, BEGIN, END, Trim;
    if ls != [] {
      assert NoDelimiters(ls[1..]);
      StripNothing(ls[1..]);
    }
  }

  lemma DelimiterIsLong(line: string)
    requires Trim(line) == BEGIN || Trim(line) == END
    ensures |line| >= 12
  {
    TrimStartIsSuffix(line);
    TrimEndIsPrefix(TrimStart(line));
  }

  /** Stripping never makes a text longer, and a delimiter makes it shorter by more than one. */
  lemma {:induction false} StripShrinks(ls: seq<string>, skip: bool)
    ensures |Unlines(StripLines(ls, skip))| + (if NoDelimiters(ls) then 0 else 13) <= |Unlines(ls)|
  {
    hide BEGIN, END, Trim;
    if ls != [] {
      var l, rest := ls[0], ls[1..];
      assert forall i :: 0 < i < |ls| ==> ls[i] == rest[i - 1];
      if Trim(l) == BEGIN || Trim(l) == END {
        DelimiterIsLong(l);
      }
      StripShrinks(rest, if Trim(l) == BEGIN then true else if Trim(l) == END then false else skip);
      assert ([l] + StripLines(rest, skip))[1..] == StripLines(rest, skip);
      assert [] + StripLines(rest, skip) == StripLines(rest, skip);
    }
  }

  lemma UnlinesCons(line: string, rest: seq<string>)
    ensures |Unlines([line] + rest)| == |line| + 1 + |Unlines(rest)|
  {
    assert ([line] + rest)[1..] == rest;
  }

  lemma {:induction false} LinesHardlyGrow(s: string)
    ensures |Unlines(Lines(s))| <= |s| + 1
  {
    if s == "" {
      assert Unlines([]) == "";
    } else {
      hide Unlines;
      var i := Find(s, '\n');
      if i < |s| {
        LinesHardlyGrow(s[i + 1..]);
        UnlinesCons(StripCr(s[..i]), Lines(s[i + 1..]));
      } else {
        UnlinesFew(s, "", "");
      }
    }
  }

  /** Which texts the loop of disable leaves as they are. */
  lemma StripLeaves(text: string)
    ensures StripText(text) == text <==> NoDelimiters(Lines(text)) && Unlines(Lines(text)) == text
  {
    hide Lines, Unlines, StripLines, NoDelimiters;
    if NoDelimiters(Lines(text)) {
      StripNothing(Lines(text));
    }
    StripShrinks(Lines(text), false);
    LinesHardlyGrow(text);
  }

  lemma DelimitersTrim()
    ensures Trim(BEGIN) == BEGIN && Trim(END) == END && BEGIN != END
    ensures Trim(IRAUTH_LINE) != BEGIN && Trim(IRAUTH_LINE) != END
  {
    hide IRAUTH_LINE, Trim;
    TrimOfTrimmed(BEGIN);
    TrimOfTrimmed(END);
    assert |BEGIN| != |END|;
    IrauthLineShape();
    IrauthLineTrimmed();
    assert |IRAUTH_LINE| > |BEGIN| && |IRAUTH_LINE| > |END|;
  }

  lemma StripStanzaAhead(rest: seq<string>)
    requires NoDelimiters(rest)
    ensures StripLines(STANZA + rest, false) == rest
  {
    hide IRAUTH_LINE, BEGIN, END, Trim;
    DelimitersTrim();
    StripNothing(rest);
    var all := STANZA + rest;
    var fromLine := [IRAUTH_LINE] + ([END] + rest);
    assert all[0] == BEGIN && all[1..] == fromLine;
    assert fromLine[1..] == [END] + rest;
    assert ([END] + rest)[1..] == rest;
    assert StripLines(fromLine, true) == StripLines([END] + rest, true);
    assert StripLines([END] + rest, true) == StripLines(rest, false);
  }

  lemma {:induction false} StripAfterInsert(ls: seq<string>)
    requires NoDelimiters(ls) && HasHeader(ls)
    ensures StripLines(InsertAfterHeader(ls), false) == ls
  {
    hide MARKER, IRAUTH_LINE, IRAUTH_MODULE, BEGIN, END, Trim, Header;
    SplitHead(ls);
    assert NoDelimiters(ls[1..]);
    if Header(ls[0]) {
      StripStanzaAhead(ls[1..]);
      assert InsertAfterHeader(ls)[1..] == STANZA + ls[1..];
    } else {
      StripAfterInsert(ls[1..]);
      assert InsertAfterHeader(ls)[1..] == InsertAfterHeader(ls[1..]);
    }
  }

  lemma {:induction false} StripOfStripCrs(ls: seq<string>, skip: bool)
    ensures StripLines(StripCrs(ls), skip) == StripCrs(StripLines(ls, skip))
  {
    hide MARKER, IRAUTH_LINE, IRAUTH_MODULE, BEGIN, END, Trim;
    if ls != [] {
      TrimOfStripCr(ls[0]);
      assert StripCrs(ls)[1..] == StripCrs(ls[1..]);
      StripOfStripCrs(ls[1..], true);
      StripOfStripCrs(ls[1..], false);
    }
  }

  /** Disabling without a backup undoes enabling, up to line ends. */
  lemma EnableThenStrip(text: string)
    requires NoDelimiters(Lines(text))
    ensures StripText(EnableText(text)) == Unlines(StripCrs(Lines(text)))
    ensures '\r' !in text ==> StripText(EnableText(text)) == Unlines(Lines(text))
  {
    hide Lines, STANZA, HasHeader, NoDelimiters;
    var ls := Lines(text);
    ReadEnabled(text);
    StripOfStripCrs(EnableLines(ls), false);
    if HasHeader(ls) {
      StripAfterInsert(ls);
    } else {
      StripStanzaAhead(ls);
    }
    if '\r' !in text {
      LinesWithoutCr(text);
      assert CrFree(ls) by {
        forall i | 0 <= i < |ls| ensures StripCr(ls[i]) == ls[i] {
          assert ls[i] in ls;
        }
      }
      CrFreeLines(ls);
    }
  }

  // ---------------------------------------------------------------- the migration marker

  lemma MarkerFacts()
    ensures '\n' !in MARKER && '\r' !in MARKER && MARKER != ""
    ensures Contains(MARKER, MARKER)
    ensures !SomeLineContains(STANZA, MARKER)
  {
    assert At(MARKER, 0, MARKER);
    assert |BEGIN| < |MARKER| && |IRAUTH_LINE| < |MARKER| && |END| < |MARKER|;
    forall l | l in STANZA ensures !Contains(l, MARKER) {
      assert |l| < |MARKER|;
    }
  }

  lemma {:induction false} InsertKeepsMarker(ls: seq<string>)
    ensures SomeLineContains(InsertAfterHeader(ls), MARKER) <==> SomeLineContains(ls, MARKER)
  {
    if ls != [] {
      MarkerFacts();
      SomeLineCons(ls, MARKER);
      if Header(ls[0]) {
        SomeLineConcat([ls[0]], STANZA, MARKER);
        SomeLineConcat([ls[0]] + STANZA, ls[1..], MARKER);
        SomeLineCons([ls[0]], MARKER);
      } else {
        InsertKeepsMarker(ls[1..]);
        SomeLineConcat([ls[0]], InsertAfterHeader(ls[1..]), MARKER);
        SomeLineCons([ls[0]], MARKER);
      }
    }
  }

  /** Enabling a service neither marks it as migrated nor hides that it was. */
  lemma EnableKeepsMarker(text: string)
    ensures Contains(EnableText(text), MARKER) <==> Contains(text, MARKER)
  {
    var ls := Lines(text);
    MarkerFacts();
    ContainsByLine(text, MARKER);
    ContainsInUnlines(EnableLines(ls), MARKER);
    if HasHeader(ls) {
      InsertKeepsMarker(ls);
    } else {
      SomeLineConcat(STANZA, ls, MARKER);
    }
  }
}
